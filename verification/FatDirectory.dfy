/** Directory scans over the same chain view, and the cycle guard that bounds every walk. */
module FatDirectory {
  import opened Common
  import opened Block
  import opened FatGeometry
  import opened FatRead

  // ---------------------------------------------------------------------
  // The cycle guard
  // ---------------------------------------------------------------------

  /** The first `n + 1` clusters of a chain are linked and pairwise different. */
  ghost predicate Acyclic(v: Volume, first: nat, n: nat)
    requires Usable(v)
  {
    && (forall i: nat :: i <= n ==> ChainAt(v, first, i).Some?)
    && forall i: nat, j: nat :: i < j <= n ==> ChainAt(v, first, i) != ChainAt(v, first, j)
  }

  /** Pigeonhole: a chain that never revisits a cluster has no more clusters than the volume. */
  lemma AcyclicIsShort(v: Volume, first: nat, n: nat)
    requires Usable(v) && v.geo.clusterCount < U32 - 1
    requires ValidCluster(v.geo, first) && Acyclic(v, first, n)
    ensures n < v.geo.clusterCount
  {
    var clusters := seq(n + 1, i requires 0 <= i <= n => ChainAt(v, first, i).value);
    var all := Range(2, v.geo.clusterCount + 2);
    forall c | c in clusters ensures c in all {
      var i :| 0 <= i <= n && clusters[i] == c;
      assert ChainAt(v, first, i) == Some(c);
    }
    forall i, j | 0 <= i < j < |clusters| ensures clusters[i] != clusters[j] {
      assert ChainAt(v, first, i) != ChainAt(v, first, j);
    }
    DistinctFits(clusters, all);
  }

  /** So the guard costs nothing on sound files: there, readable means every byte is there. */
  lemma GuardSparesAcyclic(v: Volume, first: nat, offset: nat, wanted: nat)
    requires Usable(v) && v.geo.clusterCount < U32 - 1 && wanted > 0
    requires ValidCluster(v.geo, first) && Acyclic(v, first, PosCluster(v, offset + wanted - 1))
    ensures Readable(v, first, offset, wanted)
       <==> forall p :: offset <= p < offset + wanted ==> ByteAt(v, first, p).Some?
  {
    AcyclicIsShort(v, first, PosCluster(v, offset + wanted - 1));
  }

  // ---------------------------------------------------------------------
  // Directory records
  // ---------------------------------------------------------------------

  function Sanitise(b: Byte): Byte {
    if 32 <= b < 127 then b else 95
  }

  function SanitiseAll(s: seq<Byte>): seq<Byte> {
    seq(|s|, i requires 0 <= i < |s| => Sanitise(if s[i] == 0x05 then 0xE5 else s[i]))
  }

  function UpToSpace(s: seq<Byte>): (r: seq<Byte>)
    ensures r <= s && 32 !in r && (|r| < |s| ==> s[|r|] == 32)
  {
    if s == [] || s[0] == 32 then [] else [s[0]] + UpToSpace(s[1..])
  }

  function ShownExtension(extension: seq<Byte>): (s: seq<Byte>)
    ensures |s| <= |extension|
  {
    var visible := UpToSpace(extension);
    seq(|visible|, i requires 0 <= i < |visible| => Sanitise(visible[i]))
  }

  predicate DirectoryBit(attributes: Byte) { attributes / 16 % 2 == 1 }

  /** `DirectoryRecord::parse`: deleted, long-name, label and nameless entries yield nothing. */
  function ParseRecord(raw: seq<Byte>): (r: Option<Record>)
    requires |raw| == 32
    ensures r.Some? ==> 1 <= |r.value.name| <= 12 && r.value.firstCluster < U32 && r.value.size < U32
  {
    var attributes := raw[11];
    if raw[0] == 0 || raw[0] == 0xE5 || attributes % 16 == 15 || attributes / 8 % 2 == 1 then None
    else
      var base := SanitiseAll(UpToSpace(raw[..8]));
      if base == [] then None
      else
        var extension := raw[8..11];
        var name := if !DirectoryBit(attributes) && extension != [32, 32, 32]
                    then base + [46] + ShownExtension(extension) else base;
        Some(Record(name, DirectoryBit(attributes), Le16(raw, 20) * U16 + Le16(raw, 26), Le32(raw, 28)))
  }

  // ---------------------------------------------------------------------
  // A directory as an array of 32-byte slots along its chain
  // ---------------------------------------------------------------------

  datatype Slot = Entry(raw: seq<Byte>) | EndOfChain | Broken

  function SlotsPerCluster(v: Volume): nat {
    v.geo.sectorsPerCluster * 16
  }

  function SlotCluster(v: Volume, n: nat): nat
    requires Usable(v)
  {
    Quotient(n, SlotsPerCluster(v))
  }

  function SlotOffset(v: Volume, n: nat): (o: nat)
    requires Usable(v)
    ensures o < SlotsPerCluster(v)
  {
    n % SlotsPerCluster(v)
  }

  /** Slot `o` of a cluster. */
  function ClusterSlot(v: Volume, c: nat, o: nat): (s: Slot)
    requires Usable(v) && o < SlotsPerCluster(v)
    ensures s.Entry? ==> |s.raw| == 32
  {
    match SectorOf(v, c, o / 16)
    case None => Broken
    case Some(sector) => Entry(sector[32 * (o % 16)..32 * (o % 16) + 32])
  }

  /** Slot `n` of the directory whose chain starts at `start`. */
  function SlotAt(v: Volume, start: nat, n: nat): (s: Slot)
    requires Usable(v)
    ensures s.Entry? ==> |s.raw| == 32 && SlotCluster(v, n) <= v.geo.clusterCount
  {
    var t, o := SlotCluster(v, n), SlotOffset(v, n);
    if t > v.geo.clusterCount then Broken
    else
      match ChainAt(v, start, t)
      case Some(c) => ClusterSlot(v, c, o)
      case None => if o == 0 && t > 0 && ProperEnd(v, start, t - 1) then EndOfChain else Broken
  }

  /** Cluster `t` is the last of its chain and says so. */
  predicate ProperEnd(v: Volume, start: nat, t: nat)
    requires Usable(v)
  {
    ChainAt(v, start, t).Some? && NextCluster(v, ChainAt(v, start, t).value) == Ok(None)
  }

  /** The visitor sees the records of slots `n`, `n + 1`, ... until it declines, a slot starts with
      zero, or the chain ends; a slot that cannot be reached is an error. */
  function Scan<S>(v: Volume, start: nat, visit: (S, Record) -> (S, bool), s: S, n: nat): (S, bool)
    requires Usable(v)
    decreases (v.geo.clusterCount + 1) * SlotsPerCluster(v) - n
  {
    match SlotAt(v, start, n)
    case Broken => (s, false)
    case EndOfChain => (s, true)
    case Entry(raw) =>
      SlotsAreFinite(v, n);
      if raw[0] == 0 then (s, true)
      else
        match ParseRecord(raw)
        case None => Scan(v, start, visit, s, n + 1)
        case Some(record) =>
          var (s', more) := visit(s, record);
          if more then Scan(v, start, visit, s', n + 1) else (s', true)
  }

  lemma SlotsAreFinite(v: Volume, n: nat)
    requires Usable(v) && SlotCluster(v, n) <= v.geo.clusterCount
    ensures n < (v.geo.clusterCount + 1) * SlotsPerCluster(v)
  {
    WithinGroups(SlotCluster(v, n), v.geo.clusterCount + 1, SlotsPerCluster(v), SlotOffset(v, n));
  }

  lemma SlotInCluster(v: Volume, start: nat, t: nat, o: nat)
    requires Usable(v) && o < SlotsPerCluster(v) && t <= v.geo.clusterCount && ChainAt(v, start, t).Some?
    ensures SlotAt(v, start, t * SlotsPerCluster(v) + o) == ClusterSlot(v, ChainAt(v, start, t).value, o)
  {
    DivModOf(t, SlotsPerCluster(v), o);
  }

  lemma SlotAfterCluster(v: Volume, start: nat, t: nat)
    requires Usable(v) && ChainAt(v, start, t).Some?
    requires t + 1 > v.geo.clusterCount || ChainAt(v, start, t + 1) == None
    ensures SlotAt(v, start, (t + 1) * SlotsPerCluster(v))
         == if t + 1 <= v.geo.clusterCount && ProperEnd(v, start, t) then EndOfChain else Broken
  {
    DivModOf(t + 1, SlotsPerCluster(v), 0);
  }

  /** One step of the scan through a readable slot. */
  lemma ScanEntry<S>(v: Volume, start: nat, visit: (S, Record) -> (S, bool), s: S, n: nat)
    requires Usable(v) && SlotAt(v, start, n).Entry?
    ensures Scan(v, start, visit, s, n)
         == var raw := SlotAt(v, start, n).raw;
            if raw[0] == 0 then (s, true)
            else
              match ParseRecord(raw)
              case None => Scan(v, start, visit, s, n + 1)
              case Some(record) =>
                var (s', more) := visit(s, record);
                if more then Scan(v, start, visit, s', n + 1) else (s', true)
  {
  }

  /** The 16 slots of one sector; `done` when the scan ends inside it. */
  method ScanSector<S>(v: Volume, start: nat, sector: seq<Byte>, visit: (S, Record) -> (S, bool), init: S, ghost n: nat)
    returns (s: S, done: bool)
    requires Usable(v) && |sector| == SECTOR_SIZE
    requires forall e :: n <= e < n + 16 ==> SlotAt(v, start, e) == Entry(sector[32 * (e - n)..32 * (e - n) + 32])
    ensures Scan(v, start, visit, init, n) == if done then (s, true) else Scan(v, start, visit, s, n + 16)
  {
    hide SlotAt, Scan, ParseRecord;
    s := init;
    for i := 0 to 16
      invariant Scan(v, start, visit, init, n) == Scan(v, start, visit, s, n + i)
    {
      var raw := sector[32 * i..32 * i + 32];
      assert SlotAt(v, start, n + i) == Entry(raw);
      ScanEntry(v, start, visit, s, n + i);
      if raw[0] == 0 { return s, true; }
      var record := ParseRecord(raw);
      if record.Some? {
        var (s', more) := visit(s, record.value);
        s := s';
        if !more { return s, true; }
      }
    }
    done := false;
  }

  /** `scan_directory`: exactly the records the slot view lists, on any contents of the FAT. */
  method ScanDirectory<S>(v: Volume, start: nat, visit: (S, Record) -> (S, bool), init: S) returns (s: S, ok: bool)
    requires Usable(v)
    ensures (s, ok) == Scan(v, start, visit, init, 0)
  {
    hide SlotAt, Scan, SlotsPerCluster, ClusterSlot;
    var cluster, traversed := start, 0;
    s := init;
    while true
      invariant traversed <= v.geo.clusterCount && ChainAt(v, start, traversed) == Some(cluster)
      invariant Scan(v, start, visit, init, 0) == Scan(v, start, visit, s, traversed * SlotsPerCluster(v))
      decreases v.geo.clusterCount - traversed
    {
      var done;
      s, ok, done := ScanCluster(v, start, traversed, cluster, visit, s);
      if done { return; }
      NextInChain(v, start, traversed, cluster);
      var next := NextCluster(v, cluster);
      if traversed + 1 > v.geo.clusterCount || next.Err? || next.value == None {
        SlotAfterCluster(v, start, traversed);
        ScanEnd(v, start, visit, s, (traversed + 1) * SlotsPerCluster(v));
        return s, traversed + 1 <= v.geo.clusterCount && next == Ok(None);
      }
      cluster, traversed := next.value.value, traversed + 1;
    }
  }

  lemma ScanEnd<S>(v: Volume, start: nat, visit: (S, Record) -> (S, bool), s: S, n: nat)
    requires Usable(v) && !SlotAt(v, start, n).Entry?
    ensures Scan(v, start, visit, s, n) == (s, SlotAt(v, start, n).EndOfChain?)
  {
  }

  /** The slots of sector `k` of cluster `t` of the chain. */
  lemma SectorSlots(v: Volume, start: nat, t: nat, c: nat, k: nat)
    requires Usable(v) && t <= v.geo.clusterCount && ChainAt(v, start, t) == Some(c) && k < v.geo.sectorsPerCluster
    ensures var n := t * SlotsPerCluster(v) + 16 * k;
            match SectorOf(v, c, k)
            case None => SlotAt(v, start, n) == Broken
            case Some(sector) =>
              forall e :: n <= e < n + 16 ==> SlotAt(v, start, e) == Entry(sector[32 * (e - n)..32 * (e - n) + 32])
  {
    hide SlotAt, SectorOf, SlotsPerCluster;
    var n := t * SlotsPerCluster(v) + 16 * k;
    SlotOfChain(v, start, t, c, k, 0);
    if SectorOf(v, c, k).Some? {
      forall e | n <= e < n + 16
        ensures SlotAt(v, start, e) == Entry(SectorOf(v, c, k).value[32 * (e - n)..32 * (e - n) + 32])
      {
        SlotOfChain(v, start, t, c, k, e - n);
      }
    }
  }

  lemma SlotOfChain(v: Volume, start: nat, t: nat, c: nat, k: nat, e: nat)
    requires Usable(v) && t <= v.geo.clusterCount && ChainAt(v, start, t) == Some(c)
    requires k < v.geo.sectorsPerCluster && e < 16
    ensures SlotAt(v, start, t * SlotsPerCluster(v) + 16 * k + e)
         == match SectorOf(v, c, k)
            case None => Broken
            case Some(sector) => Entry(sector[32 * e..32 * e + 32])
  {
    hide SlotAt, ClusterSlot;
    SlotInCluster(v, start, t, 16 * k + e);
    SlotOfSector(v, c, k, e);
  }

  lemma SlotOfSector(v: Volume, c: nat, k: nat, e: nat)
    requires Usable(v) && k < v.geo.sectorsPerCluster && e < 16
    ensures ClusterSlot(v, c, 16 * k + e)
         == match SectorOf(v, c, k)
            case None => Broken
            case Some(sector) => Entry(sector[32 * e..32 * e + 32])
  {
  }

  method ScanCluster<S>(v: Volume, start: nat, t: nat, c: nat, visit: (S, Record) -> (S, bool), init: S)
    returns (s: S, ok: bool, done: bool)
    requires Usable(v) && t <= v.geo.clusterCount && ChainAt(v, start, t) == Some(c)
    ensures Scan(v, start, visit, init, t * SlotsPerCluster(v))
         == if done then (s, ok) else Scan(v, start, visit, s, (t + 1) * SlotsPerCluster(v))
  {
    hide SlotAt, Scan, SectorOf;
    s, ok, done := init, true, false;
    ghost var base := t * SlotsPerCluster(v);
    for k := 0 to v.geo.sectorsPerCluster
      invariant Scan(v, start, visit, init, base) == Scan(v, start, visit, s, base + 16 * k)
      invariant ok && !done
    {
      var sector := SectorOf(v, c, k);
      SectorSlots(v, start, t, c, k);
      if sector == None {
        ScanEnd(v, start, visit, s, base + 16 * k);
        return s, false, true;
      }
      s, done := ScanSector(v, start, sector.value, visit, s, base + 16 * k);
      if done { return; }
    }
    assert (t + 1) * SlotsPerCluster(v) == base + SlotsPerCluster(v);
  }

  /** A directory whose chain ends properly without revisiting a cluster is scanned to its end: the
      guard breaks no slot of it. */
  lemma SoundDirectoryScans(v: Volume, start: nat, last: nat, t: nat, o: nat)
    requires Usable(v) && v.geo.clusterCount < U32 - 1 && ValidCluster(v.geo, start)
    requires Acyclic(v, start, last) && ProperEnd(v, start, last) && t <= last && o < SlotsPerCluster(v)
    ensures SlotAt(v, start, t * SlotsPerCluster(v) + o) == ClusterSlot(v, ChainAt(v, start, t).value, o)
    ensures SlotAt(v, start, (last + 1) * SlotsPerCluster(v)) == EndOfChain
  {
    hide SlotAt, ClusterSlot, SlotsPerCluster;
    AcyclicIsShort(v, start, last);
    SlotInCluster(v, start, t, o);
    NextInChain(v, start, last, ChainAt(v, start, last).value);
    SlotAfterCluster(v, start, last);
  }

  // ---------------------------------------------------------------------
  // Finding a name
  // ---------------------------------------------------------------------

  function Lower(b: Byte): Byte {
    if 65 <= b <= 90 then b + 32 else b
  }

  predicate NamesEqual(a: seq<Byte>, b: seq<Byte>) {
    |a| == |b| && forall i :: 0 <= i < |a| ==> Lower(a[i]) == Lower(b[i])
  }

  function Finder(component: seq<Byte>): (Option<Record>, Record) -> (Option<Record>, bool) {
    (found: Option<Record>, record: Record) =>
      if NamesEqual(record.name, component) then (Some(record), false) else (found, true)
  }

  /** Slot `n` holds a record with the wanted name. */
  predicate Matches(v: Volume, dir: nat, component: seq<Byte>, n: nat)
    requires Usable(v)
  {
    var slot := SlotAt(v, dir, n);
    slot.Entry? && ParseRecord(slot.raw).Some? && NamesEqual(ParseRecord(slot.raw).value.name, component)
  }

  /** Slot `n` lets the search go on. */
  predicate Passes(v: Volume, dir: nat, component: seq<Byte>, n: nat)
    requires Usable(v)
  {
    var slot := SlotAt(v, dir, n);
    slot.Entry? && slot.raw[0] != 0 && !Matches(v, dir, component, n)
  }

  /** `n` is where the search stops. */
  ghost predicate StopsAt(v: Volume, dir: nat, component: seq<Byte>, n: nat)
    requires Usable(v)
  {
    (forall m: nat :: m < n ==> Passes(v, dir, component, m)) && !Passes(v, dir, component, n)
  }

  lemma {:induction false} FinderStops(v: Volume, dir: nat, component: seq<Byte>, n: nat) returns (stop: nat)
    requires Usable(v) && forall m: nat :: m < n ==> Passes(v, dir, component, m)
    ensures StopsAt(v, dir, component, stop)
    ensures Scan(v, dir, Finder(component), None, n)
         == (if Matches(v, dir, component, stop) then ParseRecord(SlotAt(v, dir, stop).raw) else None,
             SlotAt(v, dir, stop) != Broken)
    decreases (v.geo.clusterCount + 1) * SlotsPerCluster(v) - n
  {
    hide SlotAt, ParseRecord, SlotsPerCluster;
    if SlotAt(v, dir, n).Entry? {
      SlotsAreFinite(v, n);
      if Matches(v, dir, component, n) { FirstByteOfRecord(SlotAt(v, dir, n).raw); }
      ScanEntry(v, dir, Finder(component), None, n);
    }
    if Passes(v, dir, component, n) {
      stop := FinderStops(v, dir, component, n + 1);
    } else {
      stop := n;
    }
  }

  lemma FirstByteOfRecord(raw: seq<Byte>)
    requires |raw| == 32 && ParseRecord(raw).Some?
    ensures raw[0] != 0
  {
  }

  /** `find_entry`: the record of the first slot with that name, before any terminator or damage. */
  method FindEntry(v: Volume, dir: nat, component: seq<Byte>) returns (found: Option<Record>, ok: bool)
    requires Usable(v)
    ensures (found, ok) == Scan(v, dir, Finder(component), None, 0)
    ensures exists n: nat :: StopsAt(v, dir, component, n)
                             && ok == (SlotAt(v, dir, n) != Broken)
                             && found == if Matches(v, dir, component, n)
                                         then ParseRecord(SlotAt(v, dir, n).raw) else None
  {
    var visit := Finder(component);
    found, ok := ScanDirectory(v, dir, visit, None);
    ghost var stop := FinderStops(v, dir, component, 0);
  }
}
