/** The bitmap allocator of 4 KiB physical frames, against the set of free frames it stands for. */
module FrameAllocator {
  import opened Common

  const FRAME_SIZE := 4096
  const MAX_FRAMES := 262_144
  const BITMAP_SIZE := 32_768

  // ---------------------------------------------------------------------
  // Bits
  // ---------------------------------------------------------------------

  function Mask(bit: nat): bv8
    requires bit < 8
  {
    match bit
    case 0 => 1 case 1 => 2 case 2 => 4 case 3 => 8
    case 4 => 16 case 5 => 32 case 6 => 64 case 7 => 128
  }

  lemma MaskLaws(x: bv8, i: nat, j: nat)
    requires i < 8 && j < 8
    ensures (x | Mask(i)) & Mask(j) != 0 <==> i == j || x & Mask(j) != 0
    ensures x & !Mask(i) & Mask(j) != 0 <==> i != j && x & Mask(j) != 0
  {
  }

  /** A byte is skipped by the search exactly when all its eight frames are used. */
  lemma FullByte(x: bv8)
    ensures x == 0xFF <==> forall b: nat :: b < 8 ==> x & Mask(b) != 0
  {
    assert (x & Mask(0) != 0 && x & Mask(1) != 0 && x & Mask(2) != 0 && x & Mask(3) != 0
            && x & Mask(4) != 0 && x & Mask(5) != 0 && x & Mask(6) != 0 && x & Mask(7) != 0) <==> x == 0xFF;
  }

  predicate Used(bitmap: seq<bv8>, frame: nat)
    requires frame < 8 * |bitmap|
  {
    bitmap[frame / 8] & Mask(frame % 8) != 0
  }

  ghost function FreeSet(bitmap: seq<bv8>): set<nat> {
    set f: nat | f < 8 * |bitmap| && !Used(bitmap, f)
  }

  lemma UsedAfterSetting(s: seq<bv8>, f: nat, g: nat)
    requires f < 8 * |s| && g < 8 * |s|
    ensures Used(s[f / 8 := s[f / 8] | Mask(f % 8)], g) <==> g == f || Used(s, g)
  {
    if f / 8 == g / 8 { MaskLaws(s[f / 8], f % 8, g % 8); }
    hide Mask;
  }

  lemma UsedAfterClearing(s: seq<bv8>, f: nat, g: nat)
    requires f < 8 * |s| && g < 8 * |s|
    ensures Used(s[f / 8 := s[f / 8] & !Mask(f % 8)], g) <==> g != f && Used(s, g)
  {
    if f / 8 == g / 8 { MaskLaws(s[f / 8], f % 8, g % 8); }
    hide Mask;
  }

  lemma SettingBit(s: seq<bv8>, f: nat)
    requires f < 8 * |s|
    ensures FreeSet(s[f / 8 := s[f / 8] | Mask(f % 8)]) == FreeSet(s) - {f}
  {
    hide Used;
    forall g: nat | g < 8 * |s| ensures Used(s[f / 8 := s[f / 8] | Mask(f % 8)], g) <==> g == f || Used(s, g) {
      UsedAfterSetting(s, f, g);
    }
  }

  lemma ClearingBit(s: seq<bv8>, f: nat)
    requires f < 8 * |s|
    ensures FreeSet(s[f / 8 := s[f / 8] & !Mask(f % 8)]) == FreeSet(s) + {f}
  {
    hide Used;
    forall g: nat | g < 8 * |s| ensures Used(s[f / 8 := s[f / 8] & !Mask(f % 8)], g) <==> g != f && Used(s, g) {
      UsedAfterClearing(s, f, g);
    }
  }

  // ---------------------------------------------------------------------
  // Regions
  // ---------------------------------------------------------------------

  function FrameOf(address: nat): nat {
    address / FRAME_SIZE
  }

  function FrameCeil(address: nat): nat {
    (address + FRAME_SIZE - 1) / FRAME_SIZE
  }

  /** Frames that marking a region free, or used, may touch. */
  ghost function FreedFrames(start: nat, end: nat): set<nat> {
    Tracked(FrameOf(start), FrameOf(end))
  }

  ghost function ReservedFrames(start: nat, end: nat): set<nat> {
    Tracked(FrameOf(start), FrameCeil(end))
  }

  /** Frames `lo` up to `hi`, as far as the bitmap tracks them. */
  function Tracked(lo: nat, hi: nat): set<nat> {
    Range(lo, Min(hi, MAX_FRAMES))
  }

  lemma TrackedGrows(lo: nat, hi: nat)
    requires lo <= hi
    ensures Tracked(lo, hi + 1) == if hi < MAX_FRAMES then Tracked(lo, hi) + {hi} else Tracked(lo, hi)
  {
    if hi < MAX_FRAMES { RangeGrows(lo, hi); }
  }

  lemma TrackedEmpty(lo: nat, hi: nat)
    ensures Tracked(lo, lo) == {} && (hi <= lo ==> Tracked(lo, hi) == {})
  {
  }

  /** The frames freed are those that end after the start and no later than the end. */
  lemma FreedIff(start: nat, end: nat, f: nat)
    ensures f in FreedFrames(start, end) <==> f < MAX_FRAMES && start < (f + 1) * FRAME_SIZE <= end
  {
  }

  /** The frames reserved are those that end after the start and begin before the end. */
  lemma ReservedIff(start: nat, end: nat, f: nat)
    ensures f in ReservedFrames(start, end) <==> f < MAX_FRAMES && start < (f + 1) * FRAME_SIZE && f * FRAME_SIZE < end
  {
  }

  ghost predicate Inside(f: nat, start: nat, end: nat) {
    start <= f * FRAME_SIZE && (f + 1) * FRAME_SIZE <= end
  }

  /** Both ends of a freed region are rounded down, so its first frame may stick out below it: freeing stays inside
      the region exactly when the start is aligned, or no frame boundary lies between start and end, or the region
      is beyond the tracked frames. */
  lemma FreeingStaysInsideIff(start: nat, end: nat)
    ensures (forall f :: f in FreedFrames(start, end) ==> Inside(f, start, end))
       <==> start % FRAME_SIZE == 0 || FrameOf(end) <= FrameOf(start) || FrameOf(start) >= MAX_FRAMES
  {
    var first := FrameOf(start);
    if start % FRAME_SIZE != 0 && first < FrameOf(end) && first < MAX_FRAMES {
      assert first in FreedFrames(start, end) && !Inside(first, start, end);
    }
  }

  lemma FreeingSticksOut()
    ensures 0 in FreedFrames(100, 8192) && !Inside(0, 100, 8192)
  {
    assert 0 in FreedFrames(100, 8192);
  }

  /** Reserving, which rounds outwards, covers every byte of the region that the bitmap tracks. */
  lemma ReservingCovers(start: nat, end: nat, address: nat)
    requires start <= address < end && FrameOf(address) < MAX_FRAMES
    ensures FrameOf(address) in ReservedFrames(start, end)
  {
  }

  // ---------------------------------------------------------------------
  // Searches, as the naive scan defines them
  // ---------------------------------------------------------------------

  function FrameLimit(limit: nat): (l: nat)
    ensures l <= MAX_FRAMES && l * FRAME_SIZE <= limit
  {
    Min(limit / FRAME_SIZE, MAX_FRAMES)
  }

  /** It counts exactly the tracked frames that lie wholly below the limit. */
  lemma FrameLimitIff(limit: nat, f: nat)
    ensures f < FrameLimit(limit) <==> f < MAX_FRAMES && (f + 1) * FRAME_SIZE <= limit
  {
  }

  /** `f` is the lowest free frame wholly below the limit. */
  ghost predicate LowestFree(free: set<nat>, limit: nat, f: nat) {
    f in free && f < FrameLimit(limit) && forall g: nat :: g < f ==> g !in free
  }

  ghost predicate NoneFree(free: set<nat>, limit: nat) {
    forall g: nat :: g < FrameLimit(limit) ==> g !in free
  }

  predicate PowerOfTwo(n: nat) {
    n == 1 || (n > 1 && n % 2 == 0 && PowerOfTwo(n / 2))
  }

  /** An aligned run of `count` free frames below the limit may start here. */
  ghost predicate RunFits(free: set<nat>, count: nat, limit: nat, alignment: nat, start: nat)
    requires alignment > 0
  {
    start % alignment == 0 && start + count <= FrameLimit(limit) && Range(start, start + count) <= free
  }

  // What each operation does to the set of free frames.

  ghost predicate AllocatesBelow(free: set<nat>, limit: nat, address: Option<nat>, free': set<nat>) {
    match address
    case None => NoneFree(free, limit) && free' == free
    case Some(a) => a % FRAME_SIZE == 0 && LowestFree(free, limit, FrameOf(a)) && free' == free - {FrameOf(a)}
  }

  /** The lowest aligned free run, or nothing exactly when there is none to be had. */
  ghost predicate AllocatesRun(
    free: set<nat>, count: nat, limit: nat, alignment: nat, address: Option<nat>, free': set<nat>)
  {
    && (count == 0 || !PowerOfTwo(alignment) ==> address == None)
    && match address
       case None =>
         && free' == free
         && (count > 0 && PowerOfTwo(alignment) ==> forall s: nat :: !RunFits(free, count, limit, alignment, s))
       case Some(a) =>
         && alignment > 0 && a % FRAME_SIZE == 0
         && RunFits(free, count, limit, alignment, FrameOf(a))
         && (forall s: nat :: s < FrameOf(a) ==> !RunFits(free, count, limit, alignment, s))
         && free' == free - Range(FrameOf(a), FrameOf(a) + count)
  }

  ghost predicate Deallocates(free: set<nat>, address: nat, free': set<nat>) {
    free' == if FrameOf(address) < MAX_FRAMES then free + {FrameOf(address)} else free
  }

  // ---------------------------------------------------------------------
  // The allocator
  // ---------------------------------------------------------------------

  class BitmapFrameAllocator {
    const bitmap: array<bv8>
    var freeFrames: nat
    ghost var free: set<nat>

    /** The clear bits are the free frames. */
    ghost predicate Stored()
      reads `free, bitmap
    {
      bitmap.Length == BITMAP_SIZE && free == FreeSet(bitmap[..])
    }

    ghost predicate Valid()
      reads this, bitmap
    {
      Stored() && freeFrames == |free|
    }

    constructor ()
      ensures Valid() && free == {} && fresh(bitmap)
    {
      bitmap := new bv8[BITMAP_SIZE](_ => 0xFF);
      freeFrames, free := 0, {};
      new;
      forall f: nat | f < MAX_FRAMES ensures Used(bitmap[..], f) { FullByte(0xFF); }
      assert FreeSet(bitmap[..]) == {};
    }

    method IsUsed(frame: nat) returns (used: bool)
      requires Stored() && frame < MAX_FRAMES
      ensures used <==> frame !in free
    {
      used := bitmap[frame / 8] & Mask(frame % 8) != 0;
    }

    method SetUsed(frame: nat)
      requires Stored() && frame < MAX_FRAMES
      modifies bitmap, `free
      ensures Stored() && free == old(free) - {frame}
    {
      SettingBit(bitmap[..], frame);
      bitmap[frame / 8] := bitmap[frame / 8] | Mask(frame % 8);
      assert bitmap[..] == old(bitmap[..])[frame / 8 := bitmap[frame / 8]];
      free := free - {frame};
    }

    method SetFree(frame: nat)
      requires Stored() && frame < MAX_FRAMES
      modifies bitmap, `free
      ensures Stored() && free == old(free) + {frame}
    {
      ClearingBit(bitmap[..], frame);
      bitmap[frame / 8] := bitmap[frame / 8] & !Mask(frame % 8);
      assert bitmap[..] == old(bitmap[..])[frame / 8 := bitmap[frame / 8]];
      free := free + {frame};
    }

    /** Free one frame, counting it only if it was used. */
    method Release(frame: nat)
      requires Valid() && frame < MAX_FRAMES
      modifies this, bitmap
      ensures Valid() && free == old(free) + {frame}
    {
      hide FreeSet;
      var used := IsUsed(frame);
      if used {
        SetFree(frame);
        freeFrames := freeFrames + 1;
      }
    }

    method Reserve(frame: nat)
      requires Valid() && frame < MAX_FRAMES
      modifies this, bitmap
      ensures Valid() && free == old(free) - {frame}
    {
      hide FreeSet;
      var used := IsUsed(frame);
      if !used {
        SetUsed(frame);
        freeFrames := freeFrames - 1;
      }
    }

    method MarkRegionFree(start: nat, end: nat)
      requires Valid()
      modifies this, bitmap
      ensures Valid() && free == old(free) + FreedFrames(start, end)
    {
      hide FrameOf, Tracked, BitmapFrameAllocator.Valid, BitmapFrameAllocator.Stored;
      var frame, endFrame := FrameOf(start), FrameOf(end);
      TrackedEmpty(frame, endFrame);
      ghost var first := frame;
      while frame < endFrame
        invariant first <= frame && (frame > first ==> frame <= endFrame)
        invariant Valid() && free == old(free) + Tracked(first, frame)
      {
        TrackedGrows(first, frame);
        if frame < MAX_FRAMES { Release(frame); }
        frame := frame + 1;
      }
    }

    method MarkRegionUsed(start: nat, end: nat)
      requires Valid()
      modifies this, bitmap
      ensures Valid() && free == old(free) - ReservedFrames(start, end)
    {
      hide FrameOf, FrameCeil, Tracked, BitmapFrameAllocator.Valid, BitmapFrameAllocator.Stored;
      var frame, endFrame := FrameOf(start), FrameCeil(end);
      TrackedEmpty(frame, endFrame);
      ghost var first := frame;
      while frame < endFrame
        invariant first <= frame && (frame > first ==> frame <= endFrame)
        invariant Valid() && free == old(free) - Tracked(first, frame)
      {
        TrackedGrows(first, frame);
        if frame < MAX_FRAMES { Reserve(frame); }
        frame := frame + 1;
      }
    }

    /** Does this byte of the bitmap hold a free frame? */
    method ByteHasFree(byte: nat) returns (some: bool)
      requires Stored() && byte < BITMAP_SIZE
      ensures !some ==> forall g: nat :: 8 * byte <= g < 8 * byte + 8 ==> g !in free
    {
      some := bitmap[byte] != 0xFF;
      if !some {
        forall g: nat | 8 * byte <= g < 8 * byte + 8 ensures g !in free {
          FullByte(bitmap[byte]);
          assert g / 8 == byte && Used(bitmap[..], g);
        }
      }
    }

    /** The byte-skipping search finds what a frame-by-frame scan would. */
    method AllocateBelow(limit: nat) returns (address: Option<nat>)
      requires Valid()
      modifies this, bitmap
      ensures Valid()
      ensures AllocatesBelow(old(free), limit, address, free)
    {
      hide FreeSet;
      var frames := FrameLimit(limit);
      var byte := 0;
      while byte < (frames + 7) / 8
        invariant Valid() && free == old(free)
        invariant forall g: nat :: g < frames && g < 8 * byte ==> g !in free
      {
        var some := ByteHasFree(byte);
        if some {
          for bit := 0 to 8
            invariant Valid() && free == old(free)
            invariant forall g: nat :: g < frames && g < 8 * byte + bit ==> g !in free
          {
            var frame := byte * 8 + bit;
            if frame < frames {
              var used := IsUsed(frame);
              if !used {
                SetUsed(frame);
                freeFrames := SaturatingSub(freeFrames, 1);
                return Some(frame * FRAME_SIZE);
              }
            }
          }
        }
        byte := byte + 1;
      }
      address := None;
    }

    method Allocate() returns (address: Option<nat>)
      requires Valid()
      modifies this, bitmap
      ensures Valid()
      ensures AllocatesBelow(old(free), MAX_FRAMES * FRAME_SIZE, address, free)
    {
      address := AllocateBelow(MAX_FRAMES * FRAME_SIZE);
    }

    method RunIsFree(start: nat, count: nat) returns (yes: bool)
      requires Stored() && start + count <= MAX_FRAMES
      ensures yes <==> Range(start, start + count) <= free
    {
      hide FreeSet;
      for frame := start to start + count
        invariant forall f :: start <= f < frame ==> f in free
      {
        var used := IsUsed(frame);
        if used { return false; }
      }
      yes := true;
    }

    method MarkRun(start: nat, count: nat)
      requires Stored() && start + count <= MAX_FRAMES
      modifies bitmap, `free
      ensures Stored() && free == old(free) - Range(start, start + count)
    {
      hide Range, BitmapFrameAllocator.Stored;
      for frame := start to start + count
        invariant Stored() && free == old(free) - Range(start, frame)
      {
        RangeGrows(start, frame);
        SetUsed(frame);
      }
    }

    method TakeRun(start: nat, count: nat)
      requires Valid() && start + count <= MAX_FRAMES && Range(start, start + count) <= free
      modifies this, bitmap
      ensures Valid() && free == old(free) - Range(start, start + count)
    {
      hide BitmapFrameAllocator.Stored;
      SubsetDifference(free, Range(start, start + count));
      MarkRun(start, count);
      freeFrames := SaturatingSub(freeFrames, count);
    }

    method AllocateContiguousBelow(count: nat, limit: nat, alignment: nat) returns (address: Option<nat>)
      requires Valid()
      modifies this, bitmap
      ensures Valid()
      ensures AllocatesRun(old(free), count, limit, alignment, address, free)
    {
      hide FreeSet, Range;
      if count == 0 || !PowerOfTwo(alignment) { return None; }
      var frames := FrameLimit(limit);
      if count > frames { return None; }
      for start := 0 to frames - count + 1
        invariant Valid() && free == old(free)
        invariant forall s: nat :: s < start ==> !RunFits(old(free), count, limit, alignment, s)
      {
        if start % alignment != 0 { continue; }
        var fits := RunIsFree(start, count);
        if !fits { continue; }
        TakeRun(start, count);
        return Some(start * FRAME_SIZE);
      }
      address := None;
    }

    method Deallocate(address: nat)
      requires Valid()
      modifies this, bitmap
      ensures Valid()
      ensures Deallocates(old(free), address, free)
    {
      hide FreeSet;
      var frame := FrameOf(address);
      if frame < MAX_FRAMES { Release(frame); }
    }
  }

  // ---------------------------------------------------------------------
  // Clients: live allocations never overlap, and no frame leaks
  // ---------------------------------------------------------------------

  /** What the allocator considers free and what its clients currently hold. */
  datatype Ownership = Ownership(free: set<nat>, live: set<nat>)

  datatype Call =
    | One(limit: nat, got: Option<nat>)
    | Run(count: nat, limit: nat, alignment: nat, got: Option<nat>)
    | Return(address: nat)

  /** Frames that a call puts into its caller's hands. */
  function Granted(call: Call): set<nat> {
    match call
    case One(_, Some(a)) => {FrameOf(a)}
    case Run(n, _, _, Some(a)) => Range(FrameOf(a), FrameOf(a) + n)
    case _ => {}
  }

  /** A call as the allocator answers it; clients give back only what they hold. */
  ghost predicate Step(o: Ownership, call: Call, o': Ownership) {
    match call
    case One(limit, got) => AllocatesBelow(o.free, limit, got, o'.free) && o'.live == o.live + Granted(call)
    case Run(n, limit, alignment, got) =>
      AllocatesRun(o.free, n, limit, alignment, got, o'.free) && o'.live == o.live + Granted(call)
    case Return(a) => FrameOf(a) in o.live && Deallocates(o.free, a, o'.free) && o'.live == o.live - {FrameOf(a)}
  }

  /** A sequence of states in which each follows from the one before by a call. */
  ghost predicate Trace(states: seq<Ownership>, calls: seq<Call>) {
    |states| == |calls| + 1 && forall i :: 0 <= i < |calls| ==> Step(states[i], calls[i], states[i + 1])
  }

  /** Nothing leaks and nothing is handed out twice. */
  ghost predicate Partitioned(o: Ownership, boot: set<nat>) {
    o.free !! o.live && o.free + o.live == boot
  }

  lemma StepPartitions(o: Ownership, call: Call, o': Ownership, boot: set<nat>)
    requires Partitioned(o, boot) && Step(o, call, o') && boot <= Range(0, MAX_FRAMES)
    ensures Partitioned(o', boot) && Granted(call) !! o.live
  {
    hide Range, PowerOfTwo, RunFits;
    if call.Run? && call.got.Some? {
      RunIsFree(o.free, call.count, call.limit, call.alignment, FrameOf(call.got.value));
    }
  }

  lemma RunIsFree(free: set<nat>, count: nat, limit: nat, alignment: nat, start: nat)
    requires alignment > 0 && RunFits(free, count, limit, alignment, start)
    ensures Range(start, start + count) <= free
  {
  }

  /** Over every history the free and the live frames partition those free at boot, and a grant never
      overlaps a live allocation. */
  lemma {:induction false} LiveNeverOverlaps(states: seq<Ownership>, calls: seq<Call>, k: nat)
    requires Trace(states, calls) && states[0].live == {} && states[0].free <= Range(0, MAX_FRAMES)
    requires k < |states|
    ensures Partitioned(states[k], states[0].free)
    ensures k < |calls| ==> Granted(calls[k]) !! states[k].live
  {
    hide Range, Step, Granted;
    if k > 0 {
      LiveNeverOverlaps(states, calls, k - 1);
      StepPartitions(states[k - 1], calls[k - 1], states[k], states[0].free);
    }
    if k < |calls| { StepPartitions(states[k], calls[k], states[k + 1], states[0].free); }
  }
}
