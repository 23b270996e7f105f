/** The registers of MSI and MSI-X entries where they are: words of configuration space and an MSI-X table entry. */
module InterruptRegisters {
  datatype Register = Control | AddressLow | AddressHigh | Data | Mask

  /** The values of a mechanism's registers; those it does not have read as zero. */
  datatype Regs = Regs(control: bv32, low: bv32, high: bv32, data: bv32, mask: bv32)

  function Get(s: Regs, r: Register): bv32 {
    match r
    case Control => s.control case AddressLow => s.low case AddressHigh => s.high
    case Data => s.data case Mask => s.mask
  }

  function Set(s: Regs, r: Register, v: bv32): Regs {
    match r
    case Control => s.(control := v) case AddressLow => s.(low := v) case AddressHigh => s.(high := v)
    case Data => s.(data := v) case Mask => s.(mask := v)
  }

  datatype Layout = Layout(msix: bool, addressHigh: bool, masking: bool)

  predicate Has(l: Layout, r: Register) {
    (r == AddressHigh ==> l.addressHigh) && (r == Mask ==> l.masking)
  }

  // ---------------------------------------------------------------------
  // Words
  // ---------------------------------------------------------------------

  function Extend(w: bv16): bv32 { w as bv32 }
  function Join(lo: bv16, hi: bv16): bv32 { (lo as bv32) | ((hi as bv32) << 16) }
  function Low(x: bv32): bv16 { (x & 0xFFFF) as bv16 }
  function High(x: bv32): bv16 { (x >> 16) as bv16 }

  lemma Halves(lo: bv16, hi: bv16)
    ensures Low(Join(lo, hi)) == lo && High(Join(lo, hi)) == hi
  {
  }

  /** An entry of the capability list, by the index of its first 16-bit word. */
  datatype Kind = MsiEntry(at: nat, is64: bool, masking: bool) | MsixEntry(at: nat)

  function LayoutOf(k: Kind): Layout {
    match k
    case MsiEntry(_, is64, masking) => Layout(false, is64, masking)
    case MsixEntry(_) => Layout(true, true, true)
  }

  /** Words of the entry that hold registers, from its first. */
  function Words(k: Kind): nat {
    match k
    case MsiEntry(_, is64, masking) => (if is64 then 7 else 5) + if masking then 3 else 0
    case MsixEntry(_) => 2
  }

  predicate Fits(k: Kind, n: nat) { k.at + Words(k) <= n }

  function DataAt(k: Kind): nat
    requires k.MsiEntry?
  {
    k.at + if k.is64 then 6 else 4
  }

  function MaskAt(k: Kind): nat
    requires k.MsiEntry?
  {
    k.at + if k.is64 then 8 else 6
  }

  /** The words of configuration space that the entry's registers occupy. */
  predicate Owns(k: Kind, i: nat) {
    match k
    case MsixEntry(at) => i == at + 1
    case MsiEntry(at, is64, masking) =>
      || i == at + 1 || i == at + 2 || i == at + 3 || (is64 && (i == at + 4 || i == at + 5))
      || i == DataAt(k) || (masking && (i == MaskAt(k) || i == MaskAt(k) + 1))
  }

  /** Entry zero of the MSI-X table, in the mapped aperture. */
  datatype TableEntry = TableEntry(low: bv32, high: bv32, data: bv32, mask: bv32)

  function ViewOf(k: Kind, words: seq<bv16>, entry: TableEntry): Regs
    requires Fits(k, |words|)
  {
    match k
    case MsixEntry(at) => Regs(Extend(words[at + 1]), entry.low, entry.high, entry.data, entry.mask)
    case MsiEntry(at, is64, masking) =>
      Regs(Extend(words[at + 1]), Join(words[at + 2], words[at + 3]),
           if is64 then Join(words[at + 4], words[at + 5]) else 0, Extend(words[DataAt(k)]),
           if masking then Join(words[MaskAt(k)], words[MaskAt(k) + 1]) else 0)
  }

  /** Nothing but the entry's own registers changed. */
  predicate Framed(k: Kind, before: seq<bv16>, after: seq<bv16>, entry: TableEntry, entry': TableEntry) {
    && |after| == |before| && (forall i :: 0 <= i < |before| && !Owns(k, i) ==> after[i] == before[i])
    && (k.MsiEntry? ==> entry' == entry)
  }

  lemma FramedTwice(k: Kind, a: seq<bv16>, b: seq<bv16>, c: seq<bv16>, x: TableEntry, y: TableEntry, z: TableEntry)
    requires Framed(k, a, b, x, y) && Framed(k, b, c, y, z)
    ensures Framed(k, a, c, x, z)
  {
    forall i | 0 <= i < |a| && !Owns(k, i) ensures c[i] == a[i] { assert b[i] == a[i]; }
  }

  /** All registers of MSI-X but its control word are in the table. */
  predicate InTable(k: Kind, r: Register) { k.MsixEntry? && r != Control }

  /** The first word of a register in configuration space, and whether it has two. */
  function Place(k: Kind, r: Register): nat
    requires !InTable(k, r)
  {
    match r
    case Control => k.at + 1
    case AddressLow => k.at + 2
    case AddressHigh => k.at + 4
    case Data => DataAt(k)
    case Mask => MaskAt(k)
  }

  predicate Wide(r: Register) { r != Control && r != Data }

  lemma PlaceFits(k: Kind, r: Register, n: nat)
    requires Fits(k, n) && Has(LayoutOf(k), r) && !InTable(k, r)
    ensures Place(k, r) + (if Wide(r) then 1 else 0) < n
  {
  }

  /** Writing the words of one register changes no other register of the entry and nothing outside it. */
  lemma OnlyRegisterChanges(k: Kind, r: Register, before: seq<bv16>, after: seq<bv16>, entry: TableEntry)
    requires Fits(k, |before|) && |after| == |before| && Has(LayoutOf(k), r) && !InTable(k, r)
    requires forall i :: 0 <= i < |before| && i != Place(k, r) && !(Wide(r) && i == Place(k, r) + 1) ==>
               after[i] == before[i]
    ensures ViewOf(k, after, entry) == Set(ViewOf(k, before, entry), r, Get(ViewOf(k, after, entry), r))
    ensures Framed(k, before, after, entry, entry)
  {
    hide Join, Extend;
    match r
    case Control =>
    case AddressLow =>
    case AddressHigh =>
    case Data =>
    case Mask =>
  }

  /** A function's configuration space. `clock` counts the register writes it has taken, its MSI-X table included, and
      `honest` says which of them it keeps as sent; of the others it keeps anything. */
  class ConfigSpace {
    var words: seq<bv16>
    var clock: nat
    const honest: nat -> bool

    constructor (words: seq<bv16>, honest: nat -> bool)
      ensures this.words == words && this.honest == honest && clock == 0
    {
      this.words, this.honest, clock := words, honest, 0;
    }
  }

  class MsixTable {
    var entry: TableEntry
  }

  /** One write as the device saw it: the registers before, the value sent, and the value it kept. */
  datatype Event = Event(before: Regs, register: Register, value: bv32, stored: bv32)

  /** How many writes were not kept as sent. */
  function Faults(events: seq<Event>): nat {
    if events == [] then 0
    else Faults(events[..|events| - 1]) + if events[|events| - 1].stored != events[|events| - 1].value then 1 else 0
  }

  /** Control and data of an entry in configuration space are 16 bits wide. */
  predicate Narrow(k: Kind, r: Register) { r == Control || (k.MsiEntry? && r == Data) }

  predicate Fits16(x: bv32) { x & 0xFFFF_0000 == 0 }

  lemma ExtendFits(w: bv16)
    ensures Fits16(Extend(w))
  {
  }

  lemma FitsRoundTrip(x: bv32)
    requires Fits16(x)
    ensures Extend(Low(x)) == x
  {
  }

  lemma JoinHalves(x: bv32)
    ensures Join(Low(x), High(x)) == x
  {
  }

  /** What an honest device keeps of a value: all of it, or what 16 bits hold. */
  function Kept(k: Kind, r: Register, v: bv32): bv32 { if Narrow(k, r) then Extend(Low(v)) else v }

  /** The writes from `from` on went as the device's honesty says. */
  predicate AsHonest(k: Kind, honest: nat -> bool, from: nat, events: seq<Event>) {
    forall i :: 0 <= i < |events| && honest(from + i) ==>
      events[i].stored == Kept(k, events[i].register, events[i].value)
  }

  /** No value sent is wider than its register. */
  predicate Untruncated(k: Kind, events: seq<Event>) {
    forall e :: e in events && Narrow(k, e.register) ==> Fits16(e.value)
  }

  predicate Honest(honest: nat -> bool, from: nat, to: nat) { forall n :: from <= n < to ==> honest(n) }

  /** Of the writes from `from` to `to`, one or two at least were not honest. */
  ghost predicate Lost(honest: nat -> bool, from: nat, to: nat) { exists n :: from <= n < to && !honest(n) }
  ghost predicate LostTwo(honest: nat -> bool, from: nat, to: nat) {
    exists n, m :: from <= n < m < to && !honest(n) && !honest(m)
  }

  /** Faults come from dishonest writes, one each. */
  lemma {:induction false} FaultsAreLost(k: Kind, honest: nat -> bool, from: nat, events: seq<Event>)
    requires AsHonest(k, honest, from, events) && Untruncated(k, events)
    ensures Faults(events) >= 1 ==> Lost(honest, from, from + |events|)
    ensures Faults(events) >= 2 ==> LostTwo(honest, from, from + |events|)
  {
    if events != [] {
      var last := |events| - 1;
      var e := events[last];
      assert e in events;
      assert forall d :: d in events[..last] ==> d in events;
      FaultsAreLost(k, honest, from, events[..last]);
      if Narrow(k, e.register) { FitsRoundTrip(e.value); }
      hide Fits16, Extend, Low;
      if e.stored != e.value { assert !honest(from + last); }
    }
  }

  /** `HardwareInterruptIo`: reads are faithful, and a write changes the register it names, to the value sent if the
      device is honest about it. */
  class InterruptIo {
    const kind: Kind
    const space: ConfigSpace
    const table: MsixTable
    ghost var regs: Regs
    ghost var log: seq<Event>
    // The words, the table entry and the clock when this access began.
    ghost const words: seq<bv16>
    ghost const entry: TableEntry
    ghost const start: nat

    /** `regs` are the registers as they read now, and nothing else has changed since the access began. */
    ghost predicate Valid()
      reads this, space, table
    {
      && Fits(kind, |space.words|) && regs == ViewOf(kind, space.words, table.entry)
      && Framed(kind, words, space.words, entry, table.entry)
      && space.clock == start + |log| && AsHonest(kind, space.honest, start, log)
    }

    constructor (kind: Kind, space: ConfigSpace, table: MsixTable)
      requires Fits(kind, |space.words|)
      ensures Valid() && this.kind == kind && this.space == space && this.table == table && log == []
      ensures words == space.words && entry == table.entry && start == space.clock
    {
      this.kind := kind;
      this.space := space;
      this.table := table;
      words := space.words;
      entry := table.entry;
      start := space.clock;
      regs := ViewOf(kind, space.words, table.entry);
      log := [];
    }

    method Read(r: Register) returns (v: bv32)
      requires Valid() && Has(LayoutOf(kind), r)
      ensures v == Get(regs, r)
    {
      if kind.MsixEntry? {
        match r
        case Control => v := Extend(space.words[kind.at + 1]);
        case AddressLow => v := table.entry.low;
        case AddressHigh => v := table.entry.high;
        case Data => v := table.entry.data;
        case Mask => v := table.entry.mask;
      } else {
        match r
        case Control => v := Extend(space.words[kind.at + 1]);
        case AddressLow => v := Join(space.words[kind.at + 2], space.words[kind.at + 3]);
        case AddressHigh => v := Join(space.words[kind.at + 4], space.words[kind.at + 5]);
        case Data => v := Extend(space.words[DataAt(kind)]);
        case Mask => v := Join(space.words[MaskAt(kind)], space.words[MaskAt(kind) + 1]);
      }
    }

    method Write(r: Register, v: bv32)
      requires Valid() && Has(LayoutOf(kind), r)
      modifies this, space, table
      ensures Valid() && regs == Set(old(regs), r, Get(regs, r))
      ensures log == old(log) + [Event(old(regs), r, v, Get(regs, r))]
    {
      hide ViewOf, Framed, Kept;
      ghost var before := regs;
      if InTable(kind, r) { StoreEntry(r, v); } else { StoreWords(r, v); }
      space.clock := space.clock + 1;
      FramedTwice(kind, words, old(space.words), space.words, entry, old(table.entry), table.entry);
      regs := ViewOf(kind, space.words, table.entry);
      log := log + [Event(before, r, v, Get(regs, r))];
    }

    /** The device keeps the value in a register of the table entry, or any other if it is not honest. */
    method StoreEntry(r: Register, v: bv32)
      requires Fits(kind, |space.words|) && InTable(kind, r)
      modifies table
      ensures var now := ViewOf(kind, space.words, table.entry);
              && now == Set(old(ViewOf(kind, space.words, table.entry)), r, Get(now, r))
              && (space.honest(space.clock) ==> Get(now, r) == Kept(kind, r, v))
      ensures Framed(kind, space.words, space.words, old(table.entry), table.entry)
    {
      var kept: bv32 := *;
      if space.honest(space.clock) { kept := v; }
      match r
      case AddressLow => table.entry := table.entry.(low := kept);
      case AddressHigh => table.entry := table.entry.(high := kept);
      case Data => table.entry := table.entry.(data := kept);
      case Mask => table.entry := table.entry.(mask := kept);
    }

    /** The same in the words of a register in configuration space. */
    method StoreWords(r: Register, v: bv32)
      requires Fits(kind, |space.words|) && !InTable(kind, r) && Has(LayoutOf(kind), r)
      modifies space`words
      ensures Fits(kind, |space.words|)
      ensures var now := ViewOf(kind, space.words, table.entry);
              && now == Set(old(ViewOf(kind, space.words, table.entry)), r, Get(now, r))
              && (space.honest(space.clock) ==> Get(now, r) == Kept(kind, r, v))
      ensures Framed(kind, old(space.words), space.words, table.entry, table.entry)
    {
      ghost var before := space.words;
      PlaceFits(kind, r, |before|);
      hide ViewOf, Framed, Place, Fits, Kept, Join, Extend, Low, High;
      var low: bv16 := *;
      var high: bv16 := *;
      if space.honest(space.clock) { low, high := Low(v), High(v); }
      space.words := space.words[Place(kind, r) := low];
      if Wide(r) { space.words := space.words[Place(kind, r) + 1 := high]; }
      OnlyRegisterChanges(kind, r, before, space.words, table.entry);
      if space.honest(space.clock) { StoredIsKept(kind, r, v, space.words, table.entry); }
    }

    /** `checked_write`: true exactly when the device kept the value. */
    method CheckedWrite(r: Register, v: bv32) returns (ok: bool)
      requires Valid() && Has(LayoutOf(kind), r)
      modifies this, space, table
      ensures Valid() && regs == Set(old(regs), r, Get(regs, r)) && (ok <==> Get(regs, r) == v)
      ensures log == old(log) + [Event(old(regs), r, v, Get(regs, r))]
      ensures Faults(log) == Faults(old(log)) + if ok then 0 else 1
    {
      hide InterruptIo.Valid;
      Write(r, v);
      assert log[..|log| - 1] == old(log);
      var back := Read(r);
      ok := back == v;
    }
  }

  lemma StoredIsKept(k: Kind, r: Register, v: bv32, words: seq<bv16>, entry: TableEntry)
    requires Fits(k, |words|) && Has(LayoutOf(k), r) && !InTable(k, r) && Place(k, r) < |words|
    requires words[Place(k, r)] == Low(v)
    requires Wide(r) ==> Place(k, r) + 1 < |words| && words[Place(k, r) + 1] == High(v)
    ensures Get(ViewOf(k, words, entry), r) == Kept(k, r, v)
  {
    JoinHalves(v);
    hide Join, Extend, Low, High;
  }

  // ---------------------------------------------------------------------
  // Two entries in one configuration space
  // ---------------------------------------------------------------------

  /** The MSI-X control word is one of the MSI registers' words exactly when the MSI-X entry starts at the second word
      pair of the MSI entry, at its upper address, or at its mask word. */
  lemma ControlMeetsIff(msi: Kind, x: nat)
    requires msi.MsiEntry? && msi.at % 2 == 0 && x % 2 == 0 && x != msi.at
    ensures Owns(msi, x + 1) <==> x == msi.at + 2 || (msi.is64 && x == msi.at + 4) || (msi.masking && x == MaskAt(msi))
  {
  }
}
