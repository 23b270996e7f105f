/** The four-level x86-64 walk that decides what a user page may be used for (section 4.5 of the Intel SDM,
    volume 3A). */
module PageWalk {
  import opened Common
  import opened UserRange

  const PRESENT: bv64 := 1
  const WRITABLE: bv64 := 2
  const USER: bv64 := 4
  const HUGE: bv64 := 0x80

  /** A page table: the mapper's root, or the table in a physical frame. */
  datatype Table = Root | At(frame: bv64)

  /** The direct map's offset, and the 512 entries of each table. Frame `f` is seen at the offset plus `f`. */
  datatype Mapper = Mapper(physOffset: nat, entries: (Table, nat) -> bv64)

  predicate Has(flags: bv64, bit: bv64) { flags & bit == bit }

  function Intersect(left: bv64, right: bv64): bv64 { left & right }

  function FrameAddress(e: bv64): bv64 { e & 0x000F_FFFF_FFFF_F000 }

  predicate Canonical(address: nat) { address < 0x8000_0000_0000 || U64 - 0x8000_0000_0000 <= address < U64 }

  /** The direct map has an address for the frame of an entry. */
  predicate Reachable(m: Mapper, e: bv64) {
    var address := m.physOffset + (FrameAddress(e) as nat);
    address < U64 && Canonical(address)
  }

  /** `child_table`: the table a non-leaf entry points to, if the direct map can reach it. */
  function ChildTable(m: Mapper, e: bv64): Option<Table> {
    if !Has(e, PRESENT) || Has(e, HUGE) then None
    else if Reachable(m, e) then Some(At(FrameAddress(e))) else None
  }

  function Unmapped(): Permissions { Permissions(false, false, false) }

  function PermissionsOf(flags: bv64): Permissions {
    Permissions(Has(flags, PRESENT), Has(flags, USER), Has(flags, WRITABLE))
  }

  /** The table index that level `level` of the walk uses for an address. */
  function IndexAt(address: nat, level: nat): nat
    requires 1 <= level <= 4
  {
    var page := address / 4096;
    if level == 1 then page % 512
    else if level == 2 then page / 512 % 512
    else if level == 3 then page / 0x4_0000 % 512
    else page / 0x800_0000 % 512
  }

  /** The four indices and the offset are the digits of the address, most significant first. */
  lemma IndicesAreDigits(address: nat) returns (high: nat)
    ensures address == ((((high * 512 + IndexAt(address, 4)) * 512 + IndexAt(address, 3)) * 512
                         + IndexAt(address, 2)) * 512 + IndexAt(address, 1)) * 4096 + address % 4096
    ensures forall level :: 1 <= level <= 4 ==> IndexAt(address, level) < 512
  {
    var page := address / 4096;
    assert page / 512 / 512 == page / 0x4_0000 && page / 0x4_0000 / 512 == page / 0x800_0000;
    high := page / 0x800_0000 / 512;
    assert page / 0x800_0000 == high * 512 + IndexAt(address, 4);
    assert page / 0x4_0000 == (page / 0x800_0000) * 512 + IndexAt(address, 3);
    assert page / 512 == (page / 0x4_0000) * 512 + IndexAt(address, 2);
    assert page == (page / 512) * 512 + IndexAt(address, 1);
  }

  /** A large page's frame is aligned to its size, apart from the PAT bit. */
  predicate Aligned(e: bv64, level: nat) {
    match level
    case 3 => FrameAddress(e) & 0x3FFF_EFFF == 0
    case 2 => FrameAddress(e) & 0x1F_EFFF == 0
    case _ => true
  }

  /** The unrolled walk for one page, intersecting the flags of the entries it passes. */
  function Effective(m: Mapper, page: nat): Permissions {
    var e := m.entries(Root, IndexAt(page, 4));
    var child := ChildTable(m, e);
    if !Has(e, PRESENT) || child == None then Unmapped() else BelowP4(m, child.value, page, e)
  }

  function BelowP4(m: Mapper, p3: Table, page: nat, flags: bv64): Permissions {
    var e := m.entries(p3, IndexAt(page, 3));
    var child := ChildTable(m, e);
    if !Has(e, PRESENT) then Unmapped()
    else if Has(e, HUGE) then
      if !Aligned(e, 3) then Unmapped() else PermissionsOf(Intersect(flags, e))
    else if child == None then Unmapped() else BelowP3(m, child.value, page, Intersect(flags, e))
  }

  function BelowP3(m: Mapper, p2: Table, page: nat, flags: bv64): Permissions {
    var e := m.entries(p2, IndexAt(page, 2));
    var child := ChildTable(m, e);
    if !Has(e, PRESENT) then Unmapped()
    else if Has(e, HUGE) then
      if !Aligned(e, 2) then Unmapped() else PermissionsOf(Intersect(flags, e))
    else if child == None then Unmapped() else BelowP2(m, child.value, page, Intersect(flags, e))
  }

  function BelowP2(m: Mapper, p1: Table, page: nat, flags: bv64): Permissions {
    var e := m.entries(p1, IndexAt(page, 1));
    if !Has(e, PRESENT) then Unmapped() else PermissionsOf(Intersect(flags, e))
  }

  // ---------------------------------------------------------------------
  // The architecture's walk, level by level
  // ---------------------------------------------------------------------

  /** A leaf: a 4 KiB entry, or a 2 MiB or 1 GiB page. */
  predicate Leaf(e: bv64, level: nat) { level == 1 || (level <= 3 && Has(e, HUGE)) }

  /** `es` are the entries the processor reads for `address`, from `table` down to a leaf, frame by frame. */
  predicate IsWalk(m: Mapper, table: Table, level: nat, address: nat, es: seq<bv64>)
    requires 1 <= level <= 4
    decreases level
  {
    && es != [] && es[0] == m.entries(table, IndexAt(address, level)) && Has(es[0], PRESENT)
    && if Leaf(es[0], level) then |es| == 1 && Aligned(es[0], level)
       else !Has(es[0], HUGE) && IsWalk(m, At(FrameAddress(es[0])), level - 1, address, es[1..])
  }

  /** The direct map reaches every table that the entries before the last point to. */
  predicate Reached(m: Mapper, es: seq<bv64>) {
    forall i :: 0 <= i < |es| - 1 ==> Reachable(m, es[i])
  }

  predicate Grants(e: bv64, access: Access) { Has(e, USER) && (access == Write ==> Has(e, WRITABLE)) }

  /** The byte at `address` may be accessed: its walk ends at a leaf and every entry on it grants the access. */
  ghost predicate ByteAllowed(m: Mapper, address: nat, access: Access) {
    exists es :: IsWalk(m, Root, 4, address, es) && AllGrant(es, access)
  }

  /** The direct map reaches the tables of the walk for `address`. */
  ghost predicate Reaches(m: Mapper, address: nat) {
    forall es :: IsWalk(m, Root, 4, address, es) ==> Reached(m, es)
  }

  /** The processor's walk is the only one. */
  lemma {:induction false} OneWalk(m: Mapper, table: Table, level: nat, address: nat, es: seq<bv64>, fs: seq<bv64>)
    requires 1 <= level <= 4 && IsWalk(m, table, level, address, es) && IsWalk(m, table, level, address, fs)
    ensures es == fs
    decreases level
  {
    hide Has, IndexAt, Aligned, FrameAddress;
    if !Leaf(es[0], level) {
      OneWalk(m, At(FrameAddress(es[0])), level - 1, address, es[1..], fs[1..]);
      assert es == [es[0]] + es[1..];
      assert fs == [fs[0]] + fs[1..];
    }
  }

  lemma MeetPresent(x: bv64, y: bv64)
    ensures x & y & 1 == 1 <==> x & 1 == 1 && y & 1 == 1
  {
  }

  lemma MeetWritable(x: bv64, y: bv64)
    ensures x & y & 2 == 2 <==> x & 2 == 2 && y & 2 == 2
  {
  }

  lemma MeetUser(x: bv64, y: bv64)
    ensures x & y & 4 == 4 <==> x & 4 == 4 && y & 4 == 4
  {
  }

  predicate Allowed(flags: bv64, access: Access) { Has(flags, PRESENT) && Grants(flags, access) }

  lemma MeetAllows(x: bv64, y: bv64, access: Access)
    ensures Allowed(Intersect(x, y), access) <==> Allowed(x, access) && Allowed(y, access)
  {
    MeetPresent(x, y);
    MeetUser(x, y);
    MeetWritable(x, y);
  }

  /** Only the page number of an address selects entries. */
  lemma SamePage(address: nat, level: nat)
    requires 1 <= level <= 4
    ensures IndexAt(PageStart(PageOf(address)), level) == IndexAt(address, level)
  {
    DivModOf(PageOf(address), PAGE, 0);
  }

  /** The kernel's walk, level by level, as a decision. */
  predicate Decide(m: Mapper, table: Table, level: nat, address: nat, access: Access)
    requires 1 <= level <= 4
    decreases level
  {
    var e := m.entries(table, IndexAt(address, level));
    && Allowed(e, access)
    && if Leaf(e, level) then Aligned(e, level)
       else ChildTable(m, e).Some? && Decide(m, ChildTable(m, e).value, level - 1, address, access)
  }

  predicate AllGrant(es: seq<bv64>, access: Access) {
    forall i :: 0 <= i < |es| ==> Grants(es[i], access)
  }

  lemma {:induction false} WalkIfDecided(m: Mapper, table: Table, level: nat, address: nat, access: Access)
    returns (es: seq<bv64>)
    requires 1 <= level <= 4 && Decide(m, table, level, address, access)
    ensures IsWalk(m, table, level, address, es) && AllGrant(es, access) && Reached(m, es)
    decreases level
  {
    hide Has, IndexAt, Aligned, Reachable, Grants;
    var e := m.entries(table, IndexAt(address, level));
    if Leaf(e, level) {
      es := [e];
    } else {
      var rest := WalkIfDecided(m, ChildTable(m, e).value, level - 1, address, access);
      es := [e] + rest;
      assert es[1..] == rest;
    }
  }

  lemma {:induction false} DecidedIfWalk(
    m: Mapper, table: Table, level: nat, address: nat, access: Access, es: seq<bv64>)
    requires 1 <= level <= 4 && IsWalk(m, table, level, address, es) && AllGrant(es, access) && Reached(m, es)
    ensures Decide(m, table, level, address, access)
    decreases level
  {
    hide Has, IndexAt, Aligned, Reachable, Grants;
    if !Leaf(es[0], level) {
      DecidedIfWalk(m, ChildTable(m, es[0]).value, level - 1, address, access, es[1..]);
    }
  }

  lemma PermitsIsAllowed(flags: bv64, access: Access)
    ensures Permits(PermissionsOf(flags), access) <==> Allowed(flags, access)
  {
  }

  lemma BelowP2Decides(m: Mapper, table: Table, address: nat, flags: bv64, access: Access)
    ensures Permits(BelowP2(m, table, PageStart(PageOf(address)), flags), access)
            <==> Allowed(flags, access) && Decide(m, table, 1, address, access)
  {
    SamePage(address, 1);
    hide Has, IndexAt, ChildTable, PermissionsOf, PageStart, PageOf, Aligned, Grants, Intersect;
    var e := m.entries(table, IndexAt(address, 1));
    MeetAllows(flags, e, access);
    PermitsIsAllowed(Intersect(flags, e), access);
  }

  lemma BelowP3Decides(m: Mapper, table: Table, address: nat, flags: bv64, access: Access)
    ensures Permits(BelowP3(m, table, PageStart(PageOf(address)), flags), access)
            <==> Allowed(flags, access) && Decide(m, table, 2, address, access)
  {
    SamePage(address, 2);
    hide Has, IndexAt, ChildTable, PermissionsOf, PageStart, PageOf, Aligned, Grants, Intersect, BelowP2;
    var e := m.entries(table, IndexAt(address, 2));
    MeetAllows(flags, e, access);
    PermitsIsAllowed(Intersect(flags, e), access);
    if ChildTable(m, e).Some? { BelowP2Decides(m, ChildTable(m, e).value, address, Intersect(flags, e), access); }
  }

  lemma BelowP4Decides(m: Mapper, table: Table, address: nat, flags: bv64, access: Access)
    ensures Permits(BelowP4(m, table, PageStart(PageOf(address)), flags), access)
            <==> Allowed(flags, access) && Decide(m, table, 3, address, access)
  {
    SamePage(address, 3);
    hide Has, IndexAt, ChildTable, PermissionsOf, PageStart, PageOf, Aligned, Grants, Intersect, BelowP3;
    var e := m.entries(table, IndexAt(address, 3));
    MeetAllows(flags, e, access);
    PermitsIsAllowed(Intersect(flags, e), access);
    if ChildTable(m, e).Some? { BelowP3Decides(m, ChildTable(m, e).value, address, Intersect(flags, e), access); }
  }

  /** The unrolled walk is the level-by-level one. */
  lemma EffectiveDecides(m: Mapper, address: nat, access: Access)
    ensures Permits(Effective(m, PageStart(PageOf(address))), access) <==> Decide(m, Root, 4, address, access)
  {
    SamePage(address, 4);
    hide Has, IndexAt, ChildTable, PageStart, PageOf, BelowP4, Aligned;
    var e := m.entries(Root, IndexAt(address, 4));
    if ChildTable(m, e).Some? { BelowP4Decides(m, ChildTable(m, e).value, address, e, access); }
  }

  /** The permissions the kernel computes for a page allow an access exactly when the processor allows it to every
      byte of the page and the direct map reaches the tables on the way; the kernel never allows more. */
  lemma EffectiveIsWalk(m: Mapper, address: nat, access: Access)
    ensures Permits(Effective(m, PageStart(PageOf(address))), access)
            <==> ByteAllowed(m, address, access) && Reaches(m, address)
  {
    EffectiveDecides(m, address, access);
    hide Effective, Decide, AllGrant, Reached, IsWalk;
    if Decide(m, Root, 4, address, access) {
      var es := WalkIfDecided(m, Root, 4, address, access);
      forall fs | IsWalk(m, Root, 4, address, fs) ensures Reached(m, fs) { OneWalk(m, Root, 4, address, es, fs); }
    }
    if Reaches(m, address) {
      if es :| IsWalk(m, Root, 4, address, es) && AllGrant(es, access) {
        DecidedIfWalk(m, Root, 4, address, access, es);
      }
    }
  }
}
