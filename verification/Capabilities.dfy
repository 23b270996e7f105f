/** The conventional capability list of a PCI function, and what its MSI and MSI-X entries say
    (sections 6.7 and 6.8 of the PCI Local Bus Specification 3.0). */
module Capabilities {
  import opened Common

  const MAX_PCI_CAPABILITIES := 16

  datatype CapabilityError = MissingStatus | MisalignedPointer | PointerOutOfRange | Truncated | Cycle | TooMany

  datatype Capability = Capability(id: Byte, offset: Byte)

  // ---------------------------------------------------------------------
  // The list
  // ---------------------------------------------------------------------

  predicate HasList(config: seq<Byte>)
    requires |config| >= 0x40
  {
    Le16(config, 6) / 16 % 2 == 1
  }

  /** A pointer to a whole entry of the list. */
  predicate GoodPointer(config: seq<Byte>, p: Byte) {
    0x40 <= p <= 0xFC && p % 4 == 0 && p + 2 <= |config|
  }

  /** The `k`-th pointer of the chain, as long as all before it are good. */
  function Pointer(config: seq<Byte>, k: nat): Option<Byte>
    requires |config| >= 0x40
  {
    if k == 0 then Some(config[0x34])
    else
      match Pointer(config, k - 1)
      case None => None
      case Some(p) => if GoodPointer(config, p) then Some(config[p + 1]) else None
  }

  /** The chain is `n` entries long and ends properly. */
  predicate EndsAfter(config: seq<Byte>, n: nat)
    requires |config| >= 0x40
  {
    Pointer(config, n) == Some(0)
  }

  /** The entries of the first `n` links. */
  function Entries(config: seq<Byte>, n: nat): (es: seq<Capability>)
    requires |config| >= 0x40 && Pointer(config, n).Some?
    ensures |es| == n
  {
    if n == 0 then []
    else Entries(config, n - 1) + [Capability(config[Pointer(config, n - 1).value], Pointer(config, n - 1).value)]
  }

  /** Equal links have equal continuations. */
  lemma {:induction false} Repeats(config: seq<Byte>, i: nat, j: nat, k: nat)
    requires |config| >= 0x40 && Pointer(config, i) == Pointer(config, j)
    ensures Pointer(config, i + k) == Pointer(config, j + k)
  {
    if k > 0 { Repeats(config, i, j, k - 1); }
  }

  /** A chain that comes back to a link never ends. */
  lemma {:induction false} CycleNeverEnds(config: seq<Byte>, i: nat, j: nat, n: nat)
    requires |config| >= 0x40 && i < j && Pointer(config, i) == Pointer(config, j) && Pointer(config, j).Some?
    ensures !EndsAfter(config, n)
    decreases n
  {
    if EndsAfter(config, n) {
      if n < j {
        NothingAfterEnd(config, n, j);
      } else {
        Repeats(config, i, j, n - j);
        CycleNeverEnds(config, i, j, n - (j - i));
      }
    }
  }

  /** Zero is no pointer, so nothing follows it. */
  lemma {:induction false} NothingAfterEnd(config: seq<Byte>, n: nat, m: nat)
    requires |config| >= 0x40 && n < m && Pointer(config, n).Some? && !GoodPointer(config, Pointer(config, n).value)
    ensures Pointer(config, m) == None
  {
    if m > n + 1 { NothingAfterEnd(config, n, m - 1); }
  }

  lemma NoOtherEnd(config: seq<Byte>, n: nat, m: nat)
    requires |config| >= 0x40 && Pointer(config, n).Some? && !GoodPointer(config, Pointer(config, n).value) && m != n
    requires forall k :: 0 <= k < n ==> Pointer(config, k).Some? && GoodPointer(config, Pointer(config, k).value)
    ensures !EndsAfter(config, m)
  {
    if m > n { NothingAfterEnd(config, n, m); }
  }

  /** `walk_capabilities`: accepted exactly when there is no list, or it ends properly within sixteen entries; then
      the entries are those of the chain. On any contents the walk stops. */
  method WalkCapabilities(config: seq<Byte>) returns (r: Result<seq<Capability>, CapabilityError>)
    ensures r.Ok? <==> |config| >= 0x40
                       && (!HasList(config) || exists n: nat :: n <= MAX_PCI_CAPABILITIES && EndsAfter(config, n))
    ensures r.Ok? ==> r.value == Listed(config)
  {
    if |config| < 0x40 { return Err(MissingStatus); }
    if !HasList(config) { return Ok([]); }
    r := Follow(config);
    if r.Ok? {
      forall n: nat | EndsAfter(config, n) ensures n == |r.value| { OneEnd(config, n, |r.value|); }
    }
  }

  /** The entries of an accepted list. */
  ghost function Listed(config: seq<Byte>): seq<Capability>
    requires |config| >= 0x40
    requires !HasList(config) || exists n: nat :: n <= MAX_PCI_CAPABILITIES && EndsAfter(config, n)
  {
    if !HasList(config) then []
    else
      var n: nat :| n <= MAX_PCI_CAPABILITIES && EndsAfter(config, n);
      Entries(config, n)
  }

  lemma OneEnd(config: seq<Byte>, n: nat, m: nat)
    requires |config| >= 0x40 && EndsAfter(config, n) && EndsAfter(config, m)
    ensures n == m
  {
    if n < m { NothingAfterEnd(config, n, m); }
    if m < n { NothingAfterEnd(config, m, n); }
  }

  /** `caps` is written in configuration space as a list: each entry starts with its id and the offset of the next one,
      the last with its id and zero. */
  predicate Chained(config: seq<Byte>, caps: seq<Capability>)
    requires |config| >= 0x40
  {
    && config[0x34] == (if caps == [] then 0 else caps[0].offset)
    && forall i :: 0 <= i < |caps| ==>
         && GoodPointer(config, caps[i].offset) && config[caps[i].offset] == caps[i].id
         && config[caps[i].offset + 1] == if i + 1 < |caps| then caps[i + 1].offset else 0
  }

  lemma {:induction false} ChainedPointers(config: seq<Byte>, caps: seq<Capability>, k: nat)
    requires |config| >= 0x40 && Chained(config, caps) && k <= |caps|
    ensures Pointer(config, k) == Some(if k < |caps| then caps[k].offset else 0)
    ensures Entries(config, k) == caps[..k]
  {
    if k > 0 {
      ChainedPointers(config, caps, k - 1);
      assert caps[..k] == caps[..k - 1] + [caps[k - 1]];
    }
  }

  lemma {:induction false} EntriesAreChained(config: seq<Byte>, n: nat, i: nat)
    requires |config| >= 0x40 && Pointer(config, n).Some? && i < n
    ensures Pointer(config, i).Some? && GoodPointer(config, Pointer(config, i).value)
    ensures Pointer(config, i + 1) == Some(config[Pointer(config, i).value + 1])
    ensures Entries(config, n)[i] == Capability(config[Pointer(config, i).value], Pointer(config, i).value)
  {
    if i < n - 1 { EntriesAreChained(config, n - 1, i); }
  }

  /** A function with a list has the entries `caps` exactly when they are written as one, sixteen at most. */
  lemma ListedIffChained(config: seq<Byte>, caps: seq<Capability>)
    requires |config| >= 0x40 && HasList(config)
    ensures (exists n: nat :: n <= MAX_PCI_CAPABILITIES && EndsAfter(config, n)) && Listed(config) == caps
       <==> Chained(config, caps) && |caps| <= MAX_PCI_CAPABILITIES
  {
    hide HasList;
    if Chained(config, caps) && |caps| <= MAX_PCI_CAPABILITIES {
      ChainedPointers(config, caps, |caps|);
      assert EndsAfter(config, |caps|) && caps[..|caps|] == caps;
      forall n: nat | EndsAfter(config, n) ensures n == |caps| { OneEnd(config, n, |caps|); }
    }
    if n: nat :| && n <= MAX_PCI_CAPABILITIES && EndsAfter(config, n)
                 && Listed(config) == caps && caps == Entries(config, n) {
      EndIsChained(config, n);
    }
  }

  lemma EndIsChained(config: seq<Byte>, n: nat)
    requires |config| >= 0x40 && EndsAfter(config, n)
    ensures Chained(config, Entries(config, n))
  {
    var caps := Entries(config, n);
    forall i | 0 <= i < n
      ensures && GoodPointer(config, caps[i].offset) && config[caps[i].offset] == caps[i].id
              && config[caps[i].offset + 1] == if i + 1 < |caps| then caps[i + 1].offset else 0
    {
      EntriesAreChained(config, n, i);
      if i + 1 < n { EntriesAreChained(config, n, i + 1); }
    }
    if n > 0 { EntriesAreChained(config, n, 0); }
  }

  method Follow(config: seq<Byte>) returns (r: Result<seq<Capability>, CapabilityError>)
    requires |config| >= 0x40
    ensures r.Ok? ==> && |r.value| <= MAX_PCI_CAPABILITIES && EndsAfter(config, |r.value|)
                      && r.value == Entries(config, |r.value|)
    ensures r.Err? ==> forall n: nat :: n <= MAX_PCI_CAPABILITIES ==> !EndsAfter(config, n)
  {
    var visited := new bool[64](_ => false);
    var found: seq<Capability> := [];
    var pointer := config[0x34];
    while pointer != 0
      modifies visited
      invariant |found| <= MAX_PCI_CAPABILITIES
      invariant Pointer(config, |found|) == Some(pointer) && found == Entries(config, |found|)
      invariant forall k :: 0 <= k < |found| ==>
                  Pointer(config, k).Some? && GoodPointer(config, Pointer(config, k).value)
      invariant forall s :: 0 <= s < 64 && visited[s] ==> Seen(config, |found|, s)
      decreases MAX_PCI_CAPABILITIES - |found|
    {
      if !(0x40 <= pointer <= 0xFC) || pointer % 4 != 0 {
        forall n: nat ensures !EndsAfter(config, n) { if n != |found| { NoOtherEnd(config, |found|, n); } }
        return Err(if pointer % 4 != 0 then MisalignedPointer else PointerOutOfRange);
      }
      var slot := (pointer - 0x40) / 4;
      if visited[slot] {
        var k :| 0 <= k < |found| && Pointer(config, k) == Some((0x40 + 4 * slot) as Byte);
        forall n: nat ensures !EndsAfter(config, n) { CycleNeverEnds(config, k, |found|, n); }
        return Err(Cycle);
      }
      visited[slot] := true;
      if pointer + 2 > |config| {
        forall n: nat ensures !EndsAfter(config, n) { if n != |found| { NoOtherEnd(config, |found|, n); } }
        return Err(Truncated);
      }
      if |found| == MAX_PCI_CAPABILITIES { return Err(TooMany); }
      found := found + [Capability(config[pointer], pointer)];
      pointer := config[pointer + 1];
    }
    r := Ok(found);
  }

  /** Some earlier pointer leads to this slot. */
  predicate Seen(config: seq<Byte>, n: nat, slot: nat)
    requires |config| >= 0x40
  {
    slot < 48 && exists k :: 0 <= k < n && Pointer(config, k) == Some((0x40 + 4 * slot) as Byte)
  }

  /** The first entry with this id. */
  function Find(caps: seq<Capability>, id: Byte): (r: Option<Capability>)
    ensures r.Some? ==> exists i :: 0 <= i < |caps| && caps[i] == r.value && r.value.id == id
                                    && forall j :: 0 <= j < i ==> caps[j].id != id
    ensures r == None ==> forall c :: c in caps ==> c.id != id
  {
    if caps == [] then None else if caps[0].id == id then Some(caps[0]) else Find(caps[1..], id)
  }

  // ---------------------------------------------------------------------
  // MSI and MSI-X entries
  // ---------------------------------------------------------------------

  const MSI_ID: Byte := 0x05
  const MSIX_ID: Byte := 0x11

  datatype Msi = Msi(offset: Byte, is64: bool, masking: bool, messages: nat)

  datatype Msix = Msix(offset: Byte, tableSize: nat, tableBir: nat, tableOffset: nat, pbaBir: nat, pbaOffset: nat)

  function DecodeMsi(config: seq<Byte>, cap: Capability): (r: Result<Msi, CapabilityError>)
    ensures r.Ok? ==> r.value.offset == cap.offset && cap.offset + MsiLength(r.value.is64, r.value.masking) <= |config|
  {
    if cap.id != MSI_ID || cap.offset + 4 > |config| then Err(Truncated)
    else
      var control := Le16(config, cap.offset + 2);
      var is64, masking := control / 128 % 2 == 1, control / 256 % 2 == 1;
      if cap.offset + MsiLength(is64, masking) > |config| then Err(Truncated)
      else Ok(Msi(cap.offset, is64, masking, control / 2 % 8))
  }

  /** The control word of an MSI entry, field by field: enable bit 0, messages offered bits 1-3, messages in use bits
      4-6, 64-bit bit 7, masking bit 8. */
  function MsiControl(enable: nat, messages: nat, inUse: nat, is64: bool, masking: bool, rest: nat): nat {
    enable + 2 * messages + 16 * inUse + (if is64 then 128 else 0) + (if masking then 256 else 0) + 512 * rest
  }

  /** An MSI entry decodes to what was written, whatever its other fields. */
  lemma MsiDecodes(config: seq<Byte>, cap: Capability, enable: nat, messages: nat, inUse: nat, is64: bool,
                   masking: bool, rest: nat)
    requires cap.id == 0x05 && cap.offset + 4 <= |config| && enable < 2 && messages < 8 && inUse < 8
    requires Le16(config, cap.offset + 2) == MsiControl(enable, messages, inUse, is64, masking, rest)
    ensures DecodeMsi(config, cap) == if cap.offset + MsiLength(is64, masking) <= |config|
                                      then Ok(Msi(cap.offset, is64, masking, messages)) else Err(Truncated)
  {
    MsiControlFields(enable, messages, inUse, is64, masking, rest);
    hide Le16, MsiControl;
  }

  lemma MsiControlFields(enable: nat, messages: nat, inUse: nat, is64: bool, masking: bool, rest: nat)
    requires enable < 2 && messages < 8 && inUse < 8
    ensures var control := MsiControl(enable, messages, inUse, is64, masking, rest);
            && control / 2 % 8 == messages
            && (control / 128 % 2 == 1 <==> is64) && (control / 256 % 2 == 1 <==> masking)
  {
    var b7, b8 := if is64 then 1 else 0, if masking then 1 else 0;
    Fields(enable, messages, inUse, b7, b8, rest);
  }

  lemma Fields(b0: nat, messages: nat, inUse: nat, b7: nat, b8: nat, rest: nat)
    requires b0 < 2 && messages < 8 && inUse < 8 && b7 < 2 && b8 < 2
    ensures var control := b0 + 2 * messages + 16 * inUse + 128 * b7 + 256 * b8 + 512 * rest;
            control / 2 % 8 == messages && control / 128 % 2 == b7 && control / 256 % 2 == b8
  {
    var high := b8 + 2 * rest;
    var middle := b7 + 2 * high;
    var low := inUse + 8 * middle;
    DivModOf(low * 8 + messages, 2, b0);
    DivModOf(low, 8, messages);
    DivModOf(middle, 128, b0 + 2 * messages + 16 * inUse);
    DivModOf(high, 2, b7);
    DivModOf(high, 256, b0 + 2 * messages + 16 * inUse + 128 * b7);
    DivModOf(rest, 2, b8);
  }

  /** An MSI-X entry decodes to what was written: table size less one in bits 0-10 of the control word; table and
      pending-bit offsets share their dwords with the number of their base address register. */
  lemma MsixDecodes(config: seq<Byte>, cap: Capability, c: Msix, rest: nat)
    requires cap.id == 0x11 && cap.offset + 12 <= |config| && c.offset == cap.offset
    requires 1 <= c.tableSize <= 2048 && c.tableBir < 8 && c.pbaBir < 8
    requires c.tableOffset % 8 == 0 && c.pbaOffset % 8 == 0
    requires Le16(config, cap.offset + 2) == c.tableSize - 1 + 2048 * rest
    requires Le32(config, cap.offset + 4) == c.tableOffset + c.tableBir
    requires Le32(config, cap.offset + 8) == c.pbaOffset + c.pbaBir
    ensures DecodeMsix(config, cap) == Ok(c)
  {
    hide Le16, Le32;
  }

  /** Bytes of an MSI entry: header, two or three message words, and mask and pending words if it has them. */
  function MsiLength(is64: bool, masking: bool): nat {
    4 + (if is64 then 12 else 8) + if masking then 8 else 0
  }

  function DecodeMsix(config: seq<Byte>, cap: Capability): (r: Result<Msix, CapabilityError>)
    ensures r.Ok? ==> && r.value.offset == cap.offset && cap.offset + 12 <= |config|
                      && 1 <= r.value.tableSize <= 2048 && r.value.tableBir < 8 && r.value.pbaBir < 8
                      && r.value.tableOffset % 8 == 0 && r.value.pbaOffset % 8 == 0
                      && r.value.tableOffset < U32 && r.value.pbaOffset < U32
  {
    if cap.id != MSIX_ID || cap.offset + 12 > |config| then Err(Truncated)
    else
      var control := Le16(config, cap.offset + 2);
      var table, pba := Le32(config, cap.offset + 4), Le32(config, cap.offset + 8);
      Ok(Msix(cap.offset, control % 2048 + 1, table % 8, table - table % 8, pba % 8, pba - pba % 8))
  }

  // ---------------------------------------------------------------------
  // The MSI-X table
  // ---------------------------------------------------------------------

  datatype Bar = Unused | IoBar(base: nat) | Memory32(base: nat) | Memory64(base: nat) | UpperHalf64 | ReservedBar

  predicate IsMemory(b: Bar) { b.Memory32? || b.Memory64? }

  /** The base address registers of a function and their measured sizes. */
  datatype Bars = Bars(bars: seq<Bar>, sizes: seq<nat>)

  predicate SixBars(d: Bars) { |d.bars| == |d.sizes| == 6 && forall i :: 0 <= i < 6 ==> d.sizes[i] < U64 }

  /** An assigned memory register with a size. */
  predicate MemoryAt(d: Bars, i: nat)
    requires SixBars(d)
  {
    i < 6 && IsMemory(d.bars[i]) && d.sizes[i] != 0
  }

  datatype Mapping = Mapping(physical: nat, virtual: nat, size: nat)

  datatype TableError = InvalidTable | InvalidBar | TableOutsideBar

  /** Bytes of the table and of its pending bits. */
  function TableBytes(c: Msix): nat { c.tableSize * 16 }
  function PbaBytes(c: Msix): nat { (c.tableSize + 63) / 64 * 8 }

  /** `entry_address`: accepted exactly when the table lies in the mapped register and the pending bits in theirs,
      aligned and apart; then every byte of the table is inside the mapping. */
  function EntryAddress(d: Bars, m: Mapping, c: Msix): (r: Result<nat, TableError>)
    requires SixBars(d) && m.virtual < U64 && m.size < U64 && c.tableOffset < U32 && c.pbaOffset < U32
    ensures r.Ok? <==> && 1 <= c.tableSize <= 2048 && MemoryAt(d, c.tableBir) && MemoryAt(d, c.pbaBir)
                       && d.bars[c.tableBir].base == m.physical && d.sizes[c.tableBir] == m.size
                       && c.tableOffset % 8 == 0 && c.pbaOffset % 8 == 0
                       && c.tableOffset + TableBytes(c) <= m.size && c.pbaOffset + PbaBytes(c) <= d.sizes[c.pbaBir]
                       && (c.tableBir == c.pbaBir ==> c.tableOffset + TableBytes(c) <= c.pbaOffset
                                                      || c.pbaOffset + PbaBytes(c) <= c.tableOffset)
                       && m.virtual + c.tableOffset < U64
    ensures r.Ok? ==> m.virtual <= r.value && r.value + TableBytes(c) <= m.virtual + m.size
                      && r.value == m.virtual + c.tableOffset
  {
    if !(1 <= c.tableSize <= 2048) then Err(InvalidTable)
    else if !MemoryAt(d, c.tableBir) || !MemoryAt(d, c.pbaBir) then Err(InvalidBar)
    else if d.bars[c.tableBir].base != m.physical || d.sizes[c.tableBir] != m.size then Err(InvalidBar)
    else
      var tableEnd, pbaEnd := c.tableOffset + TableBytes(c), c.pbaOffset + PbaBytes(c);
      if c.tableOffset % 8 != 0 || c.pbaOffset % 8 != 0 || tableEnd > d.sizes[c.tableBir] || pbaEnd > d.sizes[c.pbaBir]
         || (c.tableBir == c.pbaBir && c.tableOffset < pbaEnd && c.pbaOffset < tableEnd)
      then Err(TableOutsideBar)
      else if tableEnd > m.size || m.virtual + c.tableOffset >= U64 then Err(TableOutsideBar)
      else Ok(m.virtual + c.tableOffset)
  }
}
