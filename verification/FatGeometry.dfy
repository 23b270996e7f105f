/** FAT32 volume discovery: the BIOS parameter block, its validation, and what acceptance guarantees. */
module FatGeometry {
  import opened Common
  import opened Block

  const FAT32_MIN_CLUSTERS := 65_525

  datatype FatError = IoError | NoFat32Volume | UnsupportedGeometry | CorruptFilesystem

  /** The boot-sector fields that the geometry depends on. */
  datatype BootSector = BootSector(
    bytesPerSector: nat, sectorsPerCluster: nat, reservedSectors: nat, fatCount: nat,
    rootDirEntries: nat, totalSectors16: nat, sectorsPerFat16: nat, totalSectors32: nat,
    sectorsPerFat32: nat, fsVersion: nat, rootCluster: nat)

  datatype Geometry = Geometry(
    partitionLba: nat, fatLba: nat, dataLba: nat, sectorsPerCluster: nat, clusterCount: nat, rootCluster: nat)

  /** Field widths of the on-disk layout. */
  predicate Widths(b: BootSector) {
    && b.bytesPerSector < U16 && b.sectorsPerCluster < 256 && b.reservedSectors < U16 && b.fatCount < 256
    && b.totalSectors16 < U16 && b.totalSectors32 < U32 && b.sectorsPerFat32 < U32 && b.rootCluster < U32
  }

  function ParseBoot(data: seq<Byte>): (r: Option<BootSector>)
    ensures r.Some? ==> Widths(r.value)
  {
    if |data| < SECTOR_SIZE || data[510] != 0x55 || data[511] != 0xAA then None
    else Some(BootSector(
      Le16(data, 11), data[13], Le16(data, 14), data[16], Le16(data, 17), Le16(data, 19),
      Le16(data, 22), Le32(data, 32), Le32(data, 36), Le16(data, 42), Le32(data, 44)))
  }

  function TotalSectors(b: BootSector): nat {
    if b.totalSectors16 != 0 then b.totalSectors16 else b.totalSectors32
  }

  function FirstDataSector(b: BootSector): nat {
    b.reservedSectors + b.fatCount * b.sectorsPerFat32
  }

  /** `saturating_add(1)` on a 32-bit count. */
  function LastCluster(clusterCount: nat): nat {
    if clusterCount + 1 < U32 then clusterCount + 1 else U32 - 1
  }

  function ParseGeometry(b: BootSector, partitionLba: nat, partitionSectors: Option<nat>, deviceBlocks: nat)
    : Result<Geometry, FatError>
  {
    if b.bytesPerSector != SECTOR_SIZE
       || b.sectorsPerCluster !in {1, 2, 4, 8, 16, 32, 64, 128}
       || b.reservedSectors == 0 || b.fatCount == 0 || b.rootDirEntries != 0
       || b.sectorsPerFat16 != 0 || b.sectorsPerFat32 == 0 || b.fsVersion != 0 || b.rootCluster < 2
    then Err(UnsupportedGeometry)
    else
      var total, first := TotalSectors(b), FirstDataSector(b);
      if first >= U64 then Err(CorruptFilesystem)
      else if total <= first
        || (partitionSectors.Some? && total > partitionSectors.value)
        || partitionLba + total >= U64 || partitionLba + total > deviceBlocks
      then Err(CorruptFilesystem)
      else
        var clusterCount := ((total - first) / b.sectorsPerCluster) % U32;
        if clusterCount < FAT32_MIN_CLUSTERS || b.rootCluster > LastCluster(clusterCount)
        then Err(UnsupportedGeometry)
        else if b.sectorsPerFat32 * (SECTOR_SIZE / 4) < clusterCount + 2 then Err(CorruptFilesystem)
        else Ok(Geometry(
          partitionLba, partitionLba + b.reservedSectors, partitionLba + first,
          b.sectorsPerCluster, clusterCount, b.rootCluster))
  }

  predicate ValidCluster(g: Geometry, c: nat) {
    2 <= c <= LastCluster(g.clusterCount)
  }

  /** `cluster_lba`, without its range check. */
  function ClusterStart(g: Geometry, c: nat): nat
    requires c >= 2
  {
    g.dataLba + (c - 2) * g.sectorsPerCluster
  }

  /** The FAT sector that holds a cluster's entry, and the entry's byte offset in it. */
  function FatSector(g: Geometry, c: nat): nat {
    g.fatLba + c * 4 / SECTOR_SIZE
  }

  function FatOffset(c: nat): (o: nat)
    ensures o + 4 <= SECTOR_SIZE && o % 4 == 0
  {
    c * 4 % SECTOR_SIZE
  }

  // ---------------------------------------------------------------------
  // What acceptance guarantees
  // ---------------------------------------------------------------------

  /** Every cluster's FAT entry comes before the data area and every cluster's sectors are in it, all of it inside
      the device and clear of 64-bit overflow. */
  predicate Legal(g: Geometry, blocks: nat) {
    && 1 <= g.sectorsPerCluster <= 128
    && FAT32_MIN_CLUSTERS <= g.clusterCount < U32 - 1
    && blocks < U64
    && g.partitionLba < g.fatLba < g.dataLba
    && ValidCluster(g, g.rootCluster)
    && (g.clusterCount + 1) / 128 < g.dataLba - g.fatLba
    && g.dataLba + g.clusterCount * g.sectorsPerCluster <= blocks
  }

  lemma AcceptedIsLegal(b: BootSector, partitionLba: nat, partitionSectors: Option<nat>, blocks: nat)
    requires Widths(b) && blocks < U64
    requires ParseGeometry(b, partitionLba, partitionSectors, blocks).Ok?
    ensures var g := ParseGeometry(b, partitionLba, partitionSectors, blocks).value;
            && Legal(g, blocks)
            && (g.clusterCount + 1) / 128 < b.sectorsPerFat32
            && g.dataLba + g.clusterCount * g.sectorsPerCluster <= partitionLba + TotalSectors(b)
            && (partitionSectors.Some? ==> TotalSectors(b) <= partitionSectors.value)
  {
    FirstCopyFits(b);
    hide FirstDataSector;
    var span := TotalSectors(b) - FirstDataSector(b);
    DataClustersFit(span, b.sectorsPerCluster);
  }

  /** How many whole clusters the sectors after the last FAT copy make. */
  predicate ClustersLeft(b: BootSector, n: nat) {
    var first := b.reservedSectors + b.fatCount * b.sectorsPerFat32;
    first + n * b.sectorsPerCluster <= TotalSectors(b) < first + (n + 1) * b.sectorsPerCluster
  }

  /** The boot sectors that are accepted: no wrap-around or saturation ever plays a part. */
  predicate Acceptable(b: BootSector, partitionLba: nat, partitionSectors: Option<nat>, blocks: nat, clusters: nat) {
    && b.bytesPerSector == 512 && b.sectorsPerCluster in {1, 2, 4, 8, 16, 32, 64, 128}
    && b.reservedSectors > 0 && b.fatCount > 0 && b.rootDirEntries == b.sectorsPerFat16 == b.fsVersion == 0
    && ClustersLeft(b, clusters) && 65_525 <= clusters && clusters + 2 <= 128 * b.sectorsPerFat32
    && 2 <= b.rootCluster < clusters + 2
    && partitionLba + TotalSectors(b) <= blocks
    && (partitionSectors.Some? ==> TotalSectors(b) <= partitionSectors.value)
  }

  lemma ClustersLeftIsQuotient(b: BootSector, n: nat)
    requires b.sectorsPerCluster > 0 && FirstDataSector(b) <= TotalSectors(b)
    ensures ClustersLeft(b, n) <==> n == (TotalSectors(b) - FirstDataSector(b)) / b.sectorsPerCluster
  {
    var span, per := TotalSectors(b) - FirstDataSector(b), b.sectorsPerCluster;
    MulSucc(n, per);
    if ClustersLeft(b, n) { DivModOf(n, per, span - n * per); }
  }

  /** A boot sector is accepted if and only if it is acceptable, and then the geometry says where things are. */
  lemma AcceptedIff(b: BootSector, partitionLba: nat, partitionSectors: Option<nat>, blocks: nat)
    requires Widths(b) && blocks < U64
    ensures var r := ParseGeometry(b, partitionLba, partitionSectors, blocks);
            && (r.Ok? ==> Acceptable(b, partitionLba, partitionSectors, blocks, r.value.clusterCount))
            && forall n: nat :: Acceptable(b, partitionLba, partitionSectors, blocks, n) ==>
                 r == Ok(Geometry(partitionLba, partitionLba + b.reservedSectors,
                                  partitionLba + b.reservedSectors + b.fatCount * b.sectorsPerFat32,
                                  b.sectorsPerCluster, n, b.rootCluster))
  {
    var r := ParseGeometry(b, partitionLba, partitionSectors, blocks);
    if r.Ok? { AcceptedIsAcceptable(b, partitionLba, partitionSectors, blocks); }
    forall n: nat | Acceptable(b, partitionLba, partitionSectors, blocks, n)
      ensures r == Ok(Geometry(partitionLba, partitionLba + b.reservedSectors,
                               partitionLba + b.reservedSectors + b.fatCount * b.sectorsPerFat32,
                               b.sectorsPerCluster, n, b.rootCluster))
    {
      AcceptableIsAccepted(b, partitionLba, partitionSectors, blocks, n);
    }
  }

  lemma AcceptedIsAcceptable(b: BootSector, partitionLba: nat, partitionSectors: Option<nat>, blocks: nat)
    requires Widths(b) && blocks < U64 && ParseGeometry(b, partitionLba, partitionSectors, blocks).Ok?
    ensures var g := ParseGeometry(b, partitionLba, partitionSectors, blocks).value;
            Acceptable(b, partitionLba, partitionSectors, blocks, g.clusterCount)
  {
    var span := TotalSectors(b) - FirstDataSector(b);
    DataClustersFit(span, b.sectorsPerCluster);
    ClustersLeftIsQuotient(b, span / b.sectorsPerCluster);
    hide FirstDataSector, ClustersLeft;
  }

  lemma AcceptableIsAccepted(
    b: BootSector, partitionLba: nat, partitionSectors: Option<nat>, blocks: nat, clusters: nat)
    requires Widths(b) && blocks < U64 && Acceptable(b, partitionLba, partitionSectors, blocks, clusters)
    ensures ParseGeometry(b, partitionLba, partitionSectors, blocks)
         == Ok(Geometry(partitionLba, partitionLba + b.reservedSectors,
                        partitionLba + b.reservedSectors + b.fatCount * b.sectorsPerFat32,
                        b.sectorsPerCluster, clusters, b.rootCluster))
  {
    MulMono(1, clusters, b.sectorsPerCluster);
    ClustersLeftIsQuotient(b, clusters);
    DataClustersFit(TotalSectors(b) - FirstDataSector(b), b.sectorsPerCluster);
  }

  /** On an accepted volume cluster 2 starts right after the last FAT copy, and no sector of any copy is a sector of a
      cluster. */
  lemma CopiesAreNoClusters(b: BootSector, partitionLba: nat, partitionSectors: Option<nat>, blocks: nat,
                            copy: nat, j: nat, c: nat, k: nat)
    requires Widths(b) && blocks < U64 && ParseGeometry(b, partitionLba, partitionSectors, blocks).Ok?
    requires copy < b.fatCount && j < b.sectorsPerFat32
    requires var g := ParseGeometry(b, partitionLba, partitionSectors, blocks).value;
             ValidCluster(g, c) && k < g.sectorsPerCluster
    ensures var g := ParseGeometry(b, partitionLba, partitionSectors, blocks).value;
            && g.fatLba == partitionLba + b.reservedSectors
            && ClusterStart(g, 2) == g.fatLba + b.fatCount * b.sectorsPerFat32
            && g.fatLba + copy * b.sectorsPerFat32 + j < ClusterStart(g, c) + k < partitionLba + TotalSectors(b)
  {
    var g := ParseGeometry(b, partitionLba, partitionSectors, blocks).value;
    AcceptedIff(b, partitionLba, partitionSectors, blocks);
    hide ParseGeometry;
    WithinGroups(copy, b.fatCount, b.sectorsPerFat32, j);
    AcceptedIsLegal(b, partitionLba, partitionSectors, blocks);
    SectorInDataArea(g, c, k);
  }

  lemma FirstCopyFits(b: BootSector)
    requires b.fatCount > 0
    ensures FirstDataSector(b) >= b.reservedSectors + b.sectorsPerFat32
  {
    MulMono(1, b.fatCount, b.sectorsPerFat32);
  }

  lemma DataClustersFit(span: nat, perCluster: nat)
    requires 0 < perCluster && span < U32
    ensures span / perCluster * perCluster <= span
    ensures span / perCluster <= span
    ensures (span / perCluster) % U32 == span / perCluster
  {
    var q := span / perCluster;
    assert span == q * perCluster + span % perCluster;
    MulMono(1, perCluster, q);
  }

  lemma FatEntryBeforeData(g: Geometry, blocks: nat, c: nat)
    requires Legal(g, blocks) && ValidCluster(g, c)
    ensures g.fatLba <= FatSector(g, c) < g.dataLba
  {
    FatSectorOfCluster(g, c);
  }

  /** A FAT sector holds 128 entries. */
  lemma FatSectorOfCluster(g: Geometry, c: nat)
    ensures FatSector(g, c) == g.fatLba + c / 128
  {
    assert c * 4 / SECTOR_SIZE == c / 128;
  }

  /** The entry of cluster `c` is the four bytes from byte `4 c` of the FAT on: entries neither meet nor leave gaps. */
  lemma EntryAddress(g: Geometry, c: nat)
    ensures 512 * FatSector(g, c) + FatOffset(c) == 512 * g.fatLba + 4 * c
  {
  }

  /** On every accepted volume the lookup for a valid cluster stays inside the first copy of the FAT. */
  lemma FatEntryInFirstCopy(b: BootSector, partitionLba: nat, partitionSectors: Option<nat>, blocks: nat, c: nat)
    requires Widths(b) && blocks < U64
    requires ParseGeometry(b, partitionLba, partitionSectors, blocks).Ok?
    requires ValidCluster(ParseGeometry(b, partitionLba, partitionSectors, blocks).value, c)
    ensures var g := ParseGeometry(b, partitionLba, partitionSectors, blocks).value;
            g.fatLba <= FatSector(g, c) < g.fatLba + b.sectorsPerFat32 <= g.dataLba
  {
    AcceptedIsLegal(b, partitionLba, partitionSectors, blocks);
    FirstCopyFits(b);
    hide FirstDataSector, FatSector;
    FatSectorOfCluster(ParseGeometry(b, partitionLba, partitionSectors, blocks).value, c);
  }

  lemma SectorInDataArea(g: Geometry, c: nat, k: nat)
    requires ValidCluster(g, c) && k < g.sectorsPerCluster
    ensures g.dataLba <= ClusterStart(g, c) + k < g.dataLba + g.clusterCount * g.sectorsPerCluster
  {
    WithinGroups(c - 2, g.clusterCount, g.sectorsPerCluster, k);
  }

  /** Legal geometry keeps every FAT lookup before the data area and every data sector inside the
      device, so the block layer's range check never refuses either. */
  lemma LegalAccesses(g: Geometry, d: Device, c: nat, k: nat)
    requires ValidDevice(d) && Legal(g, d.blockCount) && ValidCluster(g, c) && k < g.sectorsPerCluster
    ensures g.fatLba <= FatSector(g, c) < g.dataLba <= ClusterStart(g, c) + k < d.blockCount
    ensures ReadBlock(d, FatSector(g, c)) != Err(OutOfRange) && ReadBlock(d, FatSector(g, c)) != Err(InvalidBuffer)
    ensures ReadBlock(d, ClusterStart(g, c) + k) != Err(OutOfRange)
         && ReadBlock(d, ClusterStart(g, c) + k) != Err(InvalidBuffer)
  {
    FatEntryBeforeData(g, d.blockCount, c);
    SectorInDataArea(g, c, k);
    hide FatSector, ClusterStart;
    InRangeReadsReachDriver(d, FatSector(g, c));
    InRangeReadsReachDriver(d, ClusterStart(g, c) + k);
  }

  /** Distinct clusters share no sector. */
  lemma ClustersAreDisjoint(g: Geometry, c: nat, c': nat, k: nat, k': nat)
    requires 2 <= c && 2 <= c' && k < g.sectorsPerCluster && k' < g.sectorsPerCluster
    requires ClusterStart(g, c) + k == ClusterStart(g, c') + k'
    ensures c == c' && k == k'
  {
    QuotientUnique(c - 2, c' - 2, g.sectorsPerCluster, k, k');
  }

  // ---------------------------------------------------------------------
  // Mounting
  // ---------------------------------------------------------------------

  datatype Volume = Volume(device: Device, geo: Geometry)

  /** A volume whose geometry was accepted for the device under it. */
  predicate Mounted(v: Volume) {
    ValidDevice(v.device) && v.device.blockSize == SECTOR_SIZE && Legal(v.geo, v.device.blockCount)
  }

  /** The volume in a boot sector read from `lba`, if its geometry is accepted. */
  function VolumeAt(d: Device, boot: seq<Byte>, lba: nat, limit: Option<nat>): (v: Option<Volume>)
    requires ValidDevice(d) && d.blockSize == SECTOR_SIZE
    ensures v.Some? ==> Mounted(v.value) && v.value.device == d && v.value.geo.partitionLba == lba
  {
    match ParseBoot(boot)
    case None => None
    case Some(b) =>
      var geo := ParseGeometry(b, lba, limit, d.blockCount);
      if geo.Err? then None
      else
        AcceptedIsLegal(b, lba, limit, d.blockCount);
        Some(Volume(d, geo.value))
  }

  /** What MBR entry `i` offers: a volume, nothing, or a boot sector that cannot be read. */
  function PartitionVolume(d: Device, mbr: seq<Byte>, i: nat): (r: Result<Option<Volume>, FatError>)
    requires ValidDevice(d) && d.blockSize == SECTOR_SIZE && |mbr| == SECTOR_SIZE && i < 4
    ensures r.Ok? && r.value.Some? ==> Mounted(r.value.value) && r.value.value.device == d
  {
    var at := 446 + i * 16;
    var kind, start, count := mbr[at + 4], Le32(mbr, at + 8), Le32(mbr, at + 12);
    if kind !in {0x0B, 0x0C, 0x1B, 0x1C} || start == 0 || count == 0 || start >= d.blockCount then Ok(None)
    else
      var boot := ReadBlock(d, start);
      if boot.Err? then Err(IoError) else Ok(VolumeAt(d, boot.value, start, Some(count)))
  }

  /** `from_device`: a superfloppy wins; otherwise the first MBR entry that is not skipped decides. */
  method Mount(d: Device) returns (r: Result<Volume, FatError>)
    requires ValidDevice(d)
    ensures r.Ok? ==> Mounted(r.value) && r.value.device == d
    ensures d.blockSize != SECTOR_SIZE ==> r == Err(UnsupportedGeometry)
    ensures d.blockSize == SECTOR_SIZE && ReadBlock(d, 0).Err? ==> r == Err(IoError)
    ensures d.blockSize == SECTOR_SIZE && ReadBlock(d, 0).Ok? ==>
              var mbr := ReadBlock(d, 0).value;
              match VolumeAt(d, mbr, 0, None)
              case Some(v) => r == Ok(v)
              case None =>
                || (r == Err(NoFat32Volume) && forall i :: 0 <= i < 4 ==> PartitionVolume(d, mbr, i) == Ok(None))
                || exists i :: 0 <= i < 4 && (forall j :: 0 <= j < i ==> PartitionVolume(d, mbr, j) == Ok(None))
                               && match r
                                  case Ok(v) => PartitionVolume(d, mbr, i) == Ok(Some(v))
                                  case Err(e) => e == IoError && PartitionVolume(d, mbr, i).Err?
  {
    if d.blockSize != SECTOR_SIZE { return Err(UnsupportedGeometry); }
    var first := ReadBlock(d, 0);
    if first.Err? { return Err(IoError); }
    var sector := first.value;
    var whole := VolumeAt(d, sector, 0, None);
    if whole.Some? { return Ok(whole.value); }
    for index := 0 to 4
      invariant forall j :: 0 <= j < index ==> PartitionVolume(d, sector, j) == Ok(None)
    {
      var entry := PartitionVolume(d, sector, index);
      if entry.Err? { return Err(IoError); }
      if entry.value.Some? { return Ok(entry.value.value); }
    }
    r := Err(NoFat32Volume);
  }
}
