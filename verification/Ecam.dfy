/** PCIe enhanced configuration access: parsing the ACPI MCFG table and addressing through its regions. */
module Ecam {
  import opened Common
  import opened Endian

  const MAX_ECAM_REGIONS := 8
  const BUS_WINDOW := 0x10_0000

  datatype McfgError = InvalidHeader | InvalidLength | InvalidChecksum
                     | UnsupportedRegionCount | InvalidRegion | OverlappingRegions

  type McfgResult<+T> = Result<T, McfgError>

  datatype Region = Region(base: nat, segment: nat, startBus: nat, endBus: nat)

  function ByteLen(r: Region): nat
    requires r.startBus <= r.endBus
  {
    (r.endBus - r.startBus + 1) * BUS_WINDOW
  }

  /** A megabyte-aligned window of whole buses that ends below 2^64. */
  predicate ValidRegion(r: Region) {
    r.base != 0 && r.base % BUS_WINDOW == 0 && r.startBus <= r.endBus < 256 && r.base + ByteLen(r) < U64
  }

  predicate Overlap(a: Region, b: Region)
    requires ValidRegion(a) && ValidRegion(b)
  {
    || (a.segment == b.segment && a.startBus <= b.endBus && b.startBus <= a.endBus)
    || (a.base < b.base + ByteLen(b) && b.base < a.base + ByteLen(a))
  }

  // ---------------------------------------------------------------------
  // The table
  // ---------------------------------------------------------------------

  function ByteSum(bytes: seq<Byte>): nat {
    if bytes == [] then 0 else (ByteSum(bytes[..|bytes| - 1]) + bytes[|bytes| - 1]) % 256
  }

  function Entry(table: seq<Byte>, i: nat): Region
    requires 44 + 16 * i + 16 <= |table|
  {
    var at := 44 + 16 * i;
    Region(Le32(table, at) + U32 * Le32(table, at + 4), Le16(table, at + 8), table[at + 10], table[at + 11])
  }

  predicate Framed(table: seq<Byte>) {
    && |table| >= 44 && table[..4] == [0x4D, 0x43, 0x46, 0x47]
    && 44 <= Le32(table, 4) <= 4096 && Le32(table, 4) <= |table| && (Le32(table, 4) - 44) % 16 == 0
  }

  function EntryCount(table: seq<Byte>): (n: nat)
    requires Framed(table)
    ensures 44 + 16 * n <= |table|
  {
    (Le32(table, 4) - 44) / 16
  }

  /** Every region is a valid window and no two overlap, in buses or in addresses. */
  predicate Disjoint(regions: seq<Region>) {
    && (forall i :: 0 <= i < |regions| ==> ValidRegion(regions[i]))
    && (forall i, j :: 0 <= i < j < |regions| ==> !Overlap(regions[i], regions[j]))
  }

  predicate Listed(table: seq<Byte>, regions: seq<Region>)
    requires Framed(table)
  {
    |regions| == EntryCount(table) && forall i :: 0 <= i < |regions| ==> regions[i] == Entry(table, i)
  }

  method Checksum(bytes: seq<Byte>) returns (sum: nat)
    ensures sum == ByteSum(bytes)
  {
    sum := 0;
    for i := 0 to |bytes|
      invariant sum == ByteSum(bytes[..i])
    {
      assert bytes[..i + 1][..i] == bytes[..i];
      sum := (sum + bytes[i]) % 256;
    }
    assert bytes[..|bytes|] == bytes;
  }

  /** `parse_mcfg`: accepts exactly the checksummed tables of one to eight disjoint regions, and lists them. */
  method ParseMcfg(table: seq<Byte>) returns (r: McfgResult<seq<Region>>)
    ensures r.Ok? ==> && Framed(table) && ByteSum(table[..Le32(table, 4)]) == 0
                      && Listed(table, r.value) && Disjoint(r.value) && 1 <= |r.value| <= MAX_ECAM_REGIONS
    ensures r.Err? ==> !(Framed(table) && ByteSum(table[..Le32(table, 4)]) == 0
                         && 1 <= EntryCount(table) <= MAX_ECAM_REGIONS
                         && exists regions :: Listed(table, regions) && Disjoint(regions))
  {
    if |table| < 44 || table[..4] != [0x4D, 0x43, 0x46, 0x47] { return Err(InvalidHeader); }
    var declared := Le32(table, 4);
    if declared < 44 || declared > 4096 || declared > |table| || (declared - 44) % 16 != 0 {
      return Err(InvalidLength);
    }
    var sum := Checksum(table[..declared]);
    if sum != 0 { return Err(InvalidChecksum); }
    var count := EntryCount(table);
    if count == 0 || count > MAX_ECAM_REGIONS { return Err(UnsupportedRegionCount); }
    r := ReadRegions(table, count);
  }

  /** The entries in order, until one is invalid or overlaps an earlier one. */
  method ReadRegions(table: seq<Byte>, count: nat) returns (r: McfgResult<seq<Region>>)
    requires Framed(table) && count == EntryCount(table)
    ensures r.Ok? ==> Listed(table, r.value) && Disjoint(r.value)
    ensures r.Err? ==> forall regions :: Listed(table, regions) ==> !Disjoint(regions)
  {
    hide Framed, EntryCount, Entry, Overlap, ValidRegion;
    var regions: seq<Region> := [];
    for index := 0 to count
      invariant |regions| == index && Disjoint(regions)
      invariant forall i :: 0 <= i < index ==> regions[i] == Entry(table, i)
    {
      var region := Entry(table, index);
      if !ValidRegion(region) {
        NotDisjoint(table, index, index);
        return Err(InvalidRegion);
      }
      for k := 0 to index
        invariant forall i :: 0 <= i < k ==> !Overlap(regions[i], region)
      {
        if Overlap(regions[k], region) {
          NotDisjoint(table, k, index);
          return Err(OverlappingRegions);
        }
      }
      regions := regions + [region];
    }
    r := Ok(regions);
  }

  /** An invalid entry, or two that overlap, rule the table out. */
  lemma NotDisjoint(table: seq<Byte>, i: nat, j: nat)
    requires Framed(table) && i <= j < EntryCount(table)
    requires || !ValidRegion(Entry(table, j))
             || (i < j && ValidRegion(Entry(table, i)) && Overlap(Entry(table, i), Entry(table, j)))
    ensures forall regions :: Listed(table, regions) ==> !Disjoint(regions)
  {
    forall regions | Listed(table, regions) ensures !Disjoint(regions) {
      assert regions[i] == Entry(table, i) && regions[j] == Entry(table, j);
    }
  }

  /** A region as an MCFG entry: base, segment, first and last bus, four reserved bytes. */
  function EntryBytes(r: Region): (b: seq<Byte>)
    requires r.startBus < 256 && r.endBus < 256
    ensures |b| == 16
  {
    LeBytes(r.base % U32, 4) + LeBytes(r.base / U32, 4) + LeBytes(r.segment, 2)
    + [r.startBus as Byte, r.endBus as Byte, 0, 0, 0, 0]
  }

  /** The table as firmware writes it: signature, length, bytes that sum to zero, and the entries. */
  predicate Written(table: seq<Byte>, regions: seq<Region>) {
    && |table| == 44 + 16 * |regions| && table[..4] == [0x4D, 0x43, 0x46, 0x47]
    && At(table, 4, LeBytes(|table|, 4)) && ByteSum(table) == 0
    && forall i :: 0 <= i < |regions| ==>
         && regions[i].startBus < 256 && regions[i].endBus < 256 && regions[i].segment < U16 && regions[i].base < U64
         && At(table, 44 + 16 * i, EntryBytes(regions[i]))
  }

  lemma EntryIsRead(table: seq<Byte>, i: nat, r: Region)
    requires 44 + 16 * i + 16 <= |table| && r.startBus < 256 && r.endBus < 256 && r.segment < U16 && r.base < U64
    requires At(table, 44 + 16 * i, EntryBytes(r))
    ensures Entry(table, i) == r
  {
    EntryFields(r);
    hide EntryBytes, LeBytes, Le32, Le16;
    var at, b := 44 + 16 * i, EntryBytes(r);
    forall k | 0 <= k < 16 ensures table[at + k] == b[k] { assert table[at..at + 16][k] == table[at + k]; }
    assert table[at..at + 4] == b[0..4] && table[at + 4..at + 8] == b[4..8] && table[at + 8..at + 10] == b[8..10];
    Reads32(table, at, r.base % U32);
    Reads32(table, at + 4, r.base / U32);
    Reads16(table, at + 8, r.segment);
  }

  lemma EntryFields(r: Region)
    requires r.startBus < 256 && r.endBus < 256
    ensures var b := EntryBytes(r);
            && b[0..4] == LeBytes(r.base % U32, 4) && b[4..8] == LeBytes(r.base / U32, 4)
            && b[8..10] == LeBytes(r.segment, 2) && b[10] == r.startBus && b[11] == r.endBus
  {
    hide LeBytes;
  }

  /** What firmware writes for one to eight disjoint regions is accepted, as those regions. */
  method ParseWritten(table: seq<Byte>, ghost regions: seq<Region>) returns (r: McfgResult<seq<Region>>)
    requires Written(table, regions) && Disjoint(regions) && 1 <= |regions| <= MAX_ECAM_REGIONS
    ensures r == Ok(regions)
  {
    Reads32(table, 4, |table|);
    assert table[..|table|] == table;
    forall i | 0 <= i < |regions| ensures Entry(table, i) == regions[i] { EntryIsRead(table, i, regions[i]); }
    assert Framed(table) && Listed(table, regions);
    hide Entry, EntryBytes, Disjoint;
    r := ParseMcfg(table);
    if r.Ok? { assert r.value == regions; }
  }

  // ---------------------------------------------------------------------
  // Addresses
  // ---------------------------------------------------------------------

  function CheckedAdd(a: Option<nat>, b: nat): Option<nat> {
    if a.Some? && a.value + b < U64 then Some(a.value + b) else None
  }

  predicate Contains(r: Region, bus: nat) {
    r.segment == 0 && r.startBus <= bus <= r.endBus
  }

  function RegionAddress(r: Region, bus: nat, device: nat, fn: nat, offset: nat): Option<nat> {
    if !Contains(r, bus) || offset > 0xFFC || offset % 4 != 0 then None
    else
      var atBus := CheckedAdd(Some(r.base), (bus - r.startBus) * 0x10_0000);
      var atDevice := CheckedAdd(atBus, device * 0x8000);
      CheckedAdd(CheckedAdd(atDevice, fn * 0x1000), offset)
  }

  /** `region_for(0, bus)`: the first region that covers the bus. */
  function RegionFor(regions: seq<Region>, bus: nat): (r: Option<Region>)
    ensures r.Some? ==> r.value in regions && Contains(r.value, bus)
    ensures r == None ==> forall x :: x in regions ==> !Contains(x, bus)
  {
    if regions == [] then None
    else if Contains(regions[0], bus) then Some(regions[0])
    else RegionFor(regions[1..], bus)
  }

  function ConfigAddress(regions: seq<Region>, bus: nat, device: nat, fn: nat, offset: nat): Option<nat> {
    match RegionFor(regions, bus)
    case None => None
    case Some(r) => RegionAddress(r, bus, device, fn, offset)
  }

  /** A bus, device, function and register, each in its own range (section 7.2.2 of the PCI Express Base
      Specification). */
  predicate Register(bus: nat, device: nat, fn: nat, offset: nat) {
    bus < 256 && device < 32 && fn < 8 && offset <= 0xFFC && offset % 4 == 0
  }

  /** Inside a region the sum never overflows: it is a mixed-radix number within the region. */
  lemma AddressInRegion(r: Region, bus: nat, device: nat, fn: nat, offset: nat)
    requires ValidRegion(r) && Contains(r, bus) && Register(bus, device, fn, offset)
    ensures RegionAddress(r, bus, device, fn, offset)
         == Some(r.base + (bus - r.startBus) * 0x10_0000 + device * 0x8000 + fn * 0x1000 + offset)
    ensures r.base + (bus - r.startBus) * 0x10_0000 + device * 0x8000 + fn * 0x1000 + offset + 4 <= r.base + ByteLen(r)
  {
  }

  /** The map is defined on every register of a covered bus, and only there. */
  lemma AddressDefinedIff(regions: seq<Region>, bus: nat, device: nat, fn: nat, offset: nat)
    requires Disjoint(regions) && Register(bus, device, fn, offset)
    ensures ConfigAddress(regions, bus, device, fn, offset).Some? <==> exists r :: r in regions && Contains(r, bus)
  {
    var r := RegionFor(regions, bus);
    if r.Some? { AddressInRegion(r.value, bus, device, fn, offset); }
  }

  /** The windows of different regions do not meet. */
  lemma WindowsApart(regions: seq<Region>, r: Region, r': Region)
    requires Disjoint(regions) && r in regions && r' in regions && r != r'
    ensures ValidRegion(r) && ValidRegion(r')
    ensures r.base + ByteLen(r) <= r'.base || r'.base + ByteLen(r') <= r.base
  {
    var i :| 0 <= i < |regions| && regions[i] == r;
    var j :| 0 <= j < |regions| && regions[j] == r';
    if i < j { assert !Overlap(regions[i], regions[j]); } else { assert !Overlap(regions[j], regions[i]); }
  }

  lemma DigitsAreUnique(bus: nat, device: nat, fn: nat, offset: nat, bus': nat, device': nat, fn': nat, offset': nat)
    requires Register(0, device, fn, offset) && Register(0, device', fn', offset')
    requires bus * 0x10_0000 + device * 0x8000 + fn * 0x1000 + offset
          == bus' * 0x10_0000 + device' * 0x8000 + fn' * 0x1000 + offset'
    ensures bus == bus' && device == device' && fn == fn' && offset == offset'
  {
  }

  /** Different registers have different addresses, also across regions. */
  lemma AddressesAreInjective(regions: seq<Region>, bus: nat, device: nat, fn: nat, offset: nat,
                              bus': nat, device': nat, fn': nat, offset': nat)
    requires Disjoint(regions) && Register(bus, device, fn, offset) && Register(bus', device', fn', offset')
    requires ConfigAddress(regions, bus, device, fn, offset).Some?
    requires ConfigAddress(regions, bus, device, fn, offset) == ConfigAddress(regions, bus', device', fn', offset')
    ensures bus == bus' && device == device' && fn == fn' && offset == offset'
  {
    var r, r' := RegionFor(regions, bus).value, RegionFor(regions, bus').value;
    AddressInRegion(r, bus, device, fn, offset);
    AddressInRegion(r', bus', device', fn', offset');
    hide RegionAddress, RegionFor;
    if r != r' { WindowsApart(regions, r, r'); }
    DigitsAreUnique(bus - r.startBus, device, fn, offset, bus' - r.startBus, device', fn', offset');
  }
}
