/** A FAT32 volume as a formatter lays it out, byte after byte, and what the reader makes of it. */
module FatVolume {
  import opened Common
  import opened Endian
  import opened Block
  import opened FatGeometry
  import opened FatRead

  // ---------------------------------------------------------------------
  // Parts of equal size, one after another
  // ---------------------------------------------------------------------

  predicate AllSized(parts: seq<seq<Byte>>, size: nat) {
    forall i :: 0 <= i < |parts| ==> |parts[i]| == size
  }

  function Joined(parts: seq<seq<Byte>>, size: nat): (all: seq<Byte>)
    requires AllSized(parts, size)
    ensures |all| == |parts| * size
  {
    if parts == [] then []
    else
      MulSucc(|parts| - 1, size);
      Joined(parts[..|parts| - 1], size) + parts[|parts| - 1]
  }

  lemma {:induction false} JoinedPart(parts: seq<seq<Byte>>, size: nat, i: nat)
    requires AllSized(parts, size) && i < |parts|
    ensures At(Joined(parts, size), i * size, parts[i])
  {
    var n := |parts| - 1;
    MulSucc(n, size);
    MulMono(i, n, size);
    if i < n {
      JoinedPart(parts[..n], size, i);
      StillAt(Joined(parts[..n], size), parts[n], i * size, parts[i]);
    }
  }

  lemma StillAt(all: seq<Byte>, more: seq<Byte>, at: nat, part: seq<Byte>)
    requires At(all, at, part)
    ensures At(all + more, at, part)
  {
  }

  lemma ShiftedAt(before: seq<Byte>, all: seq<Byte>, at: nat, part: seq<Byte>)
    requires At(all, at, part)
    ensures At(before + all, |before| + at, part)
  {
    assert (before + all)[|before| + at..|before| + at + |part|] == all[at..at + |part|];
  }

  /** A piece of a part is a piece of the whole. */
  lemma PieceAt(all: seq<Byte>, at: nat, part: seq<Byte>, o: nat, piece: seq<Byte>)
    requires At(all, at, part) && At(part, o, piece)
    ensures At(all, at + o, piece)
  {
    forall k | 0 <= k < |piece| ensures all[at + o + k] == piece[k] {
      assert part[o..o + |piece|][k] == part[o + k];
      assert all[at..at + |part|][o + k] == all[at + o + k];
    }
  }

  // ---------------------------------------------------------------------
  // The format
  // ---------------------------------------------------------------------

  /** What a FAT entry says of its cluster. */
  datatype Link = Free | Bad | End | Next(cluster: nat)

  /** The 28-bit value of an entry; the top four bits are reserved and may be anything. */
  function LinkValue(l: Link): nat {
    match l
    case Free => 0
    case Bad => 0x0FFF_FFF7
    case End => 0x0FFF_FFFF
    case Next(c) => c
  }

  datatype FatEntry = FatEntry(link: Link, reserved: nat)

  function EntryBytes(e: FatEntry): seq<Byte> { LeBytes(LinkValue(e.link) + 0x1000_0000 * e.reserved, 4) }

  /** Entries by cluster number, from 0 on, and the contents of the clusters, from cluster 2 on; `tail` sectors at the
      end make no whole cluster. */
  datatype Image = Image(
    sectorsPerCluster: nat, reservedSectors: nat, fatCount: nat, fatSectors: nat, root: nat,
    entries: seq<FatEntry>, clusters: seq<seq<Byte>>, tail: nat)

  function Sectors(m: Image): nat {
    m.reservedSectors + m.fatCount * m.fatSectors + |m.clusters| * m.sectorsPerCluster + m.tail
  }

  /** The limits of FAT32 (section 3 of the Microsoft FAT specification), with every link inside the volume. */
  predicate Formatted(m: Image) {
    && m.sectorsPerCluster in {1, 2, 4, 8, 16, 32, 64, 128} && m.tail < m.sectorsPerCluster
    && 1 <= m.reservedSectors < U16 && 1 <= m.fatCount < 256 && Sectors(m) < U32
    && 65_525 <= |m.clusters| && |m.clusters| + 2 <= 0x0FFF_FFF7
    && |m.clusters| + 2 <= 128 * m.fatSectors == |m.entries|
    && 2 <= m.root < |m.clusters| + 2 && m.fatSectors < U32
    && AllSized(m.clusters, 512 * m.sectorsPerCluster)
    && forall c :: 0 <= c < |m.entries| ==>
         m.entries[c].reserved < 16 && (m.entries[c].link.Next? ==> 2 <= m.entries[c].link.cluster < |m.clusters| + 2)
  }

  function BootBytes(m: Image): (b: seq<Byte>)
    requires Formatted(m)
    ensures |b| == 512
  {
    Zeros(11) + LeBytes(512, 2) + [m.sectorsPerCluster as Byte] + LeBytes(m.reservedSectors, 2) + [m.fatCount as Byte]
    + Zeros(15) + LeBytes(Sectors(m), 4) + LeBytes(m.fatSectors, 4) + Zeros(4) + LeBytes(m.root, 4)
    + Zeros(462) + [0x55, 0xAA]
  }

  function FatBytes(m: Image): (b: seq<Byte>)
    requires Formatted(m)
    ensures |b| == 512 * m.fatSectors
  {
    Joined(seq(|m.entries|, i requires 0 <= i < |m.entries| => EntryBytes(m.entries[i])), 4)
  }

  /** The whole volume: boot sector, the rest of the reserved area, the copies of the FAT, the clusters, and what is
      left over. */
  function VolumeBytes(m: Image): (b: seq<Byte>)
    requires Formatted(m)
    ensures |b| == 512 * Sectors(m)
  {
    Scaled(|m.clusters|, m.sectorsPerCluster);
    BootBytes(m) + Zeros(512 * (m.reservedSectors - 1)) + Copies(m)
    + Joined(m.clusters, 512 * m.sectorsPerCluster) + Zeros(512 * m.tail)
  }

  function Copies(m: Image): (b: seq<Byte>)
    requires Formatted(m)
    ensures |b| == 512 * (m.fatCount * m.fatSectors)
  {
    Scaled(m.fatCount, m.fatSectors);
    Joined(seq(m.fatCount, _ => FatBytes(m)), 512 * m.fatSectors)
  }

  lemma Scaled(n: nat, size: nat)
    ensures n * (512 * size) == 512 * (n * size)
  {
  }

  /** A disk of 512-byte blocks that reads without fail. */
  function Disk(bytes: seq<Byte>): (d: Device)
    requires |bytes| % 512 == 0 && |bytes| / 512 < U64
    ensures ValidDevice(d) && d.blockSize == 512
  {
    Device(512, |bytes| / 512, map n: nat | n < |bytes| / 512 :: bytes[512 * n..512 * n + 512])
  }

  /** The volume with other sectors before and after it. */
  predicate OnDisk(bytes: seq<Byte>, lba: nat, m: Image) {
    && Formatted(m) && |bytes| % 512 == 0 && |bytes| / 512 < U64
    && At(bytes, 512 * lba, VolumeBytes(m))
  }

  // ---------------------------------------------------------------------
  // Where everything is
  // ---------------------------------------------------------------------

  lemma BootAt(m: Image)
    requires Formatted(m)
    ensures At(VolumeBytes(m), 0, BootBytes(m))
  {
    hide BootBytes, Copies, Joined;
  }

  lemma CopiesAt(m: Image)
    requires Formatted(m)
    ensures At(VolumeBytes(m), 512 * m.reservedSectors, Copies(m))
  {
    hide BootBytes, Copies, Joined;
    var front := BootBytes(m) + Zeros(512 * (m.reservedSectors - 1));
    ShiftedAt(front, Copies(m), 0, Copies(m));
    StillAt(front + Copies(m), Joined(m.clusters, 512 * m.sectorsPerCluster), |front|, Copies(m));
    StillAt(front + Copies(m) + Joined(m.clusters, 512 * m.sectorsPerCluster), Zeros(512 * m.tail), |front|, Copies(m));
  }

  /** Entry `c` of the first copy of the FAT. */
  lemma EntryAt(m: Image, c: nat)
    requires Formatted(m) && c < |m.entries|
    ensures At(VolumeBytes(m), 512 * m.reservedSectors + 4 * c, EntryBytes(m.entries[c]))
  {
    hide Formatted, FatBytes, Copies, VolumeBytes, EntryBytes, At;
    CopiesAt(m);
    EntryInFat(m, c);
    FatInCopies(m);
    PieceAt(VolumeBytes(m), 512 * m.reservedSectors, Copies(m), 0, FatBytes(m));
    PieceAt(VolumeBytes(m), 512 * m.reservedSectors, FatBytes(m), 4 * c, EntryBytes(m.entries[c]));
  }

  lemma EntryInFat(m: Image, c: nat)
    requires Formatted(m) && c < |m.entries|
    ensures At(FatBytes(m), 4 * c, EntryBytes(m.entries[c]))
  {
    JoinedPart(seq(|m.entries|, i requires 0 <= i < |m.entries| => EntryBytes(m.entries[i])), 4, c);
  }

  lemma FatInCopies(m: Image)
    requires Formatted(m)
    ensures At(Copies(m), 0, FatBytes(m))
  {
    JoinedPart(seq(m.fatCount, _ => FatBytes(m)), 512 * m.fatSectors, 0);
  }

  /** The sector, counted from the volume's first, at which cluster `c` starts. */
  function ClusterSector(m: Image, c: nat): nat
    requires c >= 2
  {
    m.reservedSectors + m.fatCount * m.fatSectors + (c - 2) * m.sectorsPerCluster
  }

  /** The contents of cluster `c`. */
  lemma ClusterAt(m: Image, c: nat)
    requires Formatted(m) && 2 <= c < |m.clusters| + 2
    ensures At(VolumeBytes(m), 512 * ClusterSector(m, c), m.clusters[c - 2])
  {
    hide BootBytes, Copies, Joined, At, ClusterSector, Sectors;
    var at := ClusterByteAt(m, c);
    JoinedPart(m.clusters, 512 * m.sectorsPerCluster, c - 2);
    hide Formatted, AllSized;
    var front := BootBytes(m) + Zeros(512 * (m.reservedSectors - 1)) + Copies(m);
    ShiftedAt(front, Joined(m.clusters, 512 * m.sectorsPerCluster), at, m.clusters[c - 2]);
    StillAt(front + Joined(m.clusters, 512 * m.sectorsPerCluster), Zeros(512 * m.tail), |front| + at,
            m.clusters[c - 2]);
  }

  lemma ClusterByteAt(m: Image, c: nat) returns (at: nat)
    requires Formatted(m) && c >= 2
    ensures at == (c - 2) * (512 * m.sectorsPerCluster)
    ensures 512 * m.reservedSectors + 512 * (m.fatCount * m.fatSectors) + at == 512 * ClusterSector(m, c)
  {
    Scaled(c - 2, m.sectorsPerCluster);
    at := 512 * ((c - 2) * m.sectorsPerCluster);
  }

  // ---------------------------------------------------------------------
  // Mounting what was formatted
  // ---------------------------------------------------------------------

  /** A block of the disk is its 512 bytes. */
  lemma BlockIsSlice(bytes: seq<Byte>, n: nat, o: nat, piece: seq<Byte>)
    requires |bytes| % 512 == 0 && |bytes| / 512 < U64 && o + |piece| <= 512 && At(bytes, 512 * n + o, piece)
    requires |piece| > 0
    ensures n < |bytes| / 512
    ensures ReadBlock(Disk(bytes), n).Ok? && At(ReadBlock(Disk(bytes), n).value, o, piece)
  {
    InRangeReadsReachDriver(Disk(bytes), n);
    var block := bytes[512 * n..512 * n + 512];
    assert block[o..o + |piece|] == bytes[512 * n + o..512 * n + o + |piece|];
  }

  function BootOf(m: Image): BootSector {
    BootSector(512, m.sectorsPerCluster, m.reservedSectors, m.fatCount, 0, 0, 0, Sectors(m), m.fatSectors, 0, m.root)
  }

  lemma BootFields(m: Image)
    requires Formatted(m)
    ensures var b := BootBytes(m);
            && At(b, 11, LeBytes(512, 2)) && b[13] == m.sectorsPerCluster && At(b, 14, LeBytes(m.reservedSectors, 2))
            && b[16] == m.fatCount && (forall i :: 17 <= i < 32 || 40 <= i < 44 ==> b[i] == 0)
            && At(b, 32, LeBytes(Sectors(m), 4)) && At(b, 36, LeBytes(m.fatSectors, 4))
            && At(b, 44, LeBytes(m.root, 4)) && b[510] == 0x55 && b[511] == 0xAA
  {
    hide LeBytes, Sectors;
    var b := BootBytes(m);
    assert b[11..13] == LeBytes(512, 2);
    assert b[14..16] == LeBytes(m.reservedSectors, 2);
    assert b[32..36] == LeBytes(Sectors(m), 4);
    assert b[36..40] == LeBytes(m.fatSectors, 4);
    assert b[44..48] == LeBytes(m.root, 4);
  }

  /** The boot sector reads back field by field. */
  lemma BootParses(m: Image)
    requires Formatted(m)
    ensures ParseBoot(BootBytes(m)) == Some(BootOf(m))
  {
    BootFields(m);
    hide BootBytes, LeBytes, Sectors, At, ParseBoot;
    FieldsParse(BootBytes(m), m.sectorsPerCluster, m.reservedSectors, m.fatCount, Sectors(m), m.fatSectors, m.root);
  }

  lemma FieldsParse(b: seq<Byte>, perCluster: nat, reserved: nat, copies: nat, total: nat, perFat: nat, root: nat)
    requires |b| == 512 && b[13] == perCluster && b[16] == copies && b[510] == 0x55 && b[511] == 0xAA
    requires forall i :: 17 <= i < 32 || 40 <= i < 44 ==> b[i] == 0
    requires At(b, 11, LeBytes(512, 2)) && At(b, 14, LeBytes(reserved, 2)) && reserved < U16
    requires At(b, 32, LeBytes(total, 4)) && At(b, 36, LeBytes(perFat, 4)) && At(b, 44, LeBytes(root, 4))
    requires total < U32 && perFat < U32 && root < U32
    ensures ParseBoot(b) == Some(BootSector(512, perCluster, reserved, copies, 0, 0, 0, total, perFat, 0, root))
  {
    Reads16(b, 11, 512);
    Reads16(b, 14, reserved);
    Reads32(b, 32, total);
    Reads32(b, 36, perFat);
    Reads32(b, 44, root);
    hide LeBytes, At;
  }

  function GeometryOf(m: Image, lba: nat): Geometry {
    Geometry(lba, lba + m.reservedSectors, lba + m.reservedSectors + m.fatCount * m.fatSectors,
             m.sectorsPerCluster, |m.clusters|, m.root)
  }

  function VolumeOf(bytes: seq<Byte>, lba: nat, m: Image): (v: Volume)
    requires OnDisk(bytes, lba, m)
    ensures Usable(v)
  {
    Volume(Disk(bytes), GeometryOf(m, lba))
  }

  lemma FormattedIsAcceptable(m: Image, lba: nat, limit: Option<nat>, blocks: nat)
    requires Formatted(m) && lba + Sectors(m) <= blocks < U64 && (limit.Some? ==> Sectors(m) <= limit.value)
    ensures ParseGeometry(BootOf(m), lba, limit, blocks) == Ok(GeometryOf(m, lba))
  {
    ClustersOfImage(m);
    hide ParseGeometry, ClustersLeft, Sectors, AllSized;
    AcceptableIsAccepted(BootOf(m), lba, limit, blocks, |m.clusters|);
  }

  lemma ClustersOfImage(m: Image)
    requires m.tail < m.sectorsPerCluster
    ensures ClustersLeft(BootOf(m), |m.clusters|) && TotalSectors(BootOf(m)) == Sectors(m)
  {
    MulSucc(|m.clusters|, m.sectorsPerCluster);
  }

  /** The boot sector is the first block of the volume. */
  lemma BootBlock(bytes: seq<Byte>, lba: nat, m: Image)
    requires OnDisk(bytes, lba, m)
    ensures ReadBlock(Disk(bytes), lba) == Ok(BootBytes(m)) && lba + Sectors(m) <= |bytes| / 512
  {
    BootAt(m);
    hide BootBytes, VolumeBytes, Formatted, Sectors;
    PieceAt(bytes, 512 * lba, VolumeBytes(m), 0, BootBytes(m));
    BlockIsSlice(bytes, lba, 0, BootBytes(m));
    hide Disk;
    WholeBlock(ReadBlock(Disk(bytes), lba).value, BootBytes(m));
  }

  /** Every formatted volume is recognised where it lies, unless its partition is said to be too small. */
  lemma FormattedIsFound(bytes: seq<Byte>, lba: nat, m: Image, limit: Option<nat>)
    requires OnDisk(bytes, lba, m) && (limit.Some? ==> Sectors(m) <= limit.value)
    ensures VolumeAt(Disk(bytes), BootBytes(m), lba, limit) == Some(VolumeOf(bytes, lba, m))
  {
    BootBlock(bytes, lba, m);
    BootParses(m);
    FormattedIsAcceptable(m, lba, limit, |bytes| / 512);
    hide BootBytes, VolumeBytes, ParseBoot, ParseGeometry, Formatted, Sectors;
  }

  // ---------------------------------------------------------------------
  // Reading what was formatted
  // ---------------------------------------------------------------------

  predicate IsCluster(m: Image, c: nat) { 2 <= c < |m.clusters| + 2 }

  /** What a link tells the reader. */
  function Followed(l: Link): Result<Option<nat>, FatError> {
    match l
    case Free => Err(CorruptFilesystem)
    case Bad => Err(CorruptFilesystem)
    case End => Ok(None)
    case Next(c) => Ok(Some(c))
  }

  /** The FAT lookup of a cluster reads the entry written for it, whatever its reserved bits. */
  lemma LinkIsRead(bytes: seq<Byte>, lba: nat, m: Image, c: nat)
    requires OnDisk(bytes, lba, m) && IsCluster(m, c)
    ensures NextCluster(VolumeOf(bytes, lba, m), c) == Followed(m.entries[c].link)
  {
    EntryIsFine(m, c);
    hide Formatted, At, Disk, ReadBlock, FatSector, FatOffset, Le32, NextCluster, Followed, LinkValue, VolumeBytes;
    EntryBlock(bytes, lba, m, c);
    EntryDecodes(VolumeOf(bytes, lba, m), c, m.entries[c]);
  }

  lemma EntryIsFine(m: Image, c: nat)
    requires Formatted(m) && IsCluster(m, c)
    ensures c < |m.entries| && m.entries[c].reserved < 16 && |m.clusters| + 2 <= 0x0FFF_FFF7
    ensures m.entries[c].link.Next? ==> IsCluster(m, m.entries[c].link.cluster)
  {
    hide Sectors, AllSized;
  }

  lemma LinkFits(m: Image, c: nat)
    requires Formatted(m) && IsCluster(m, c) && c < |m.entries|
    ensures LinkValue(m.entries[c].link) < 0x1000_0000
  {
    EntryIsFine(m, c);
    hide Formatted;
  }

  lemma EntryDecodes(v: Volume, c: nat, e: FatEntry)
    requires Usable(v) && ValidCluster(v.geo, c) && e.reserved < 16 && ReadBlock(v.device, FatSector(v.geo, c)).Ok?
    requires e.link.Next? ==> ValidCluster(v.geo, e.link.cluster) && e.link.cluster < 0x0FFF_FFF7
    requires Le32(ReadBlock(v.device, FatSector(v.geo, c)).value, FatOffset(c))
          == LinkValue(e.link) + 0x1000_0000 * e.reserved
    ensures NextCluster(v, c) == Followed(e.link)
  {
    Unreserved(LinkValue(e.link), e.reserved);
    hide ReadBlock, FatSector, FatOffset, Le32;
  }

  lemma Unreserved(value: nat, reserved: nat)
    requires value < 0x1000_0000 && reserved < 16
    ensures (value + 0x1000_0000 * reserved) % 0x1000_0000 == value && value + 0x1000_0000 * reserved < U32
  {
  }

  lemma EntryBlock(bytes: seq<Byte>, lba: nat, m: Image, c: nat)
    requires OnDisk(bytes, lba, m) && IsCluster(m, c) && c < |m.entries|
    ensures var e, r := m.entries[c], ReadBlock(Disk(bytes), FatSector(GeometryOf(m, lba), c));
            r.Ok? && Le32(r.value, FatOffset(c)) == LinkValue(e.link) + 0x1000_0000 * e.reserved
  {
    hide Formatted, At, VolumeBytes, FatSector, FatOffset, LinkValue, Le32, LeBytes, ReadBlock, Disk, EntryBytes;
    var g, e := GeometryOf(m, lba), m.entries[c];
    EntryOnDisk(bytes, lba, m, c);
    LinkFits(m, c);
    EntryAddress(g, c);
    BlockReads32(bytes, FatSector(g, c), FatOffset(c), LinkValue(e.link) + 0x1000_0000 * e.reserved);
  }

  lemma EntryOnDisk(bytes: seq<Byte>, lba: nat, m: Image, c: nat)
    requires OnDisk(bytes, lba, m) && IsCluster(m, c)
    ensures c < |m.entries| && m.entries[c].reserved < 16
    ensures At(bytes, 512 * (lba + m.reservedSectors) + 4 * c,
               LeBytes(LinkValue(m.entries[c].link) + 0x1000_0000 * m.entries[c].reserved, 4))
  {
    hide Formatted, At, VolumeBytes, LinkValue, LeBytes;
    EntryIsFine(m, c);
    EntryAt(m, c);
    PieceAt(bytes, 512 * lba, VolumeBytes(m), 512 * m.reservedSectors + 4 * c, EntryBytes(m.entries[c]));
  }

  lemma BlockReads32(bytes: seq<Byte>, n: nat, o: nat, value: nat)
    requires |bytes| % 512 == 0 && |bytes| / 512 < U64 && o + 4 <= 512 && At(bytes, 512 * n + o, LeBytes(value, 4))
    requires value < U32
    ensures ReadBlock(Disk(bytes), n).Ok? && Le32(ReadBlock(Disk(bytes), n).value, o) == value
  {
    hide At, LeBytes, Le32, Disk;
    BlockIsSlice(bytes, n, o, LeBytes(value, 4));
    Reads32(ReadBlock(Disk(bytes), n).value, o, value);
  }

  /** A sector of a cluster is the piece of its contents written there. */
  lemma SectorIsRead(bytes: seq<Byte>, lba: nat, m: Image, c: nat, k: nat)
    requires OnDisk(bytes, lba, m) && IsCluster(m, c) && k < m.sectorsPerCluster
    ensures |m.clusters[c - 2]| == 512 * m.sectorsPerCluster
    ensures SectorOf(VolumeOf(bytes, lba, m), c, k) == Some(m.clusters[c - 2][512 * k..512 * k + 512])
  {
    var g, piece := GeometryOf(m, lba), m.clusters[c - 2][512 * k..512 * k + 512];
    ClusterPiece(bytes, lba, m, c, k);
    hide Formatted, At, VolumeBytes, ClusterSector, Sectors;
    assert ClusterStart(g, c) == lba + ClusterSector(m, c) by { StartOfCluster(m, lba, c); }
    hide ClusterStart;
    BlockIsSlice(bytes, ClusterStart(g, c) + k, 0, piece);
    hide Disk;
    WholeBlock(ReadBlock(Disk(bytes), ClusterStart(g, c) + k).value, piece);
  }

  lemma StartOfCluster(m: Image, lba: nat, c: nat)
    requires c >= 2
    ensures ClusterStart(GeometryOf(m, lba), c) == lba + ClusterSector(m, c)
  {
  }

  lemma ClusterPiece(bytes: seq<Byte>, lba: nat, m: Image, c: nat, k: nat)
    requires OnDisk(bytes, lba, m) && IsCluster(m, c) && k < m.sectorsPerCluster
    ensures |m.clusters[c - 2]| == 512 * m.sectorsPerCluster
    ensures At(bytes, 512 * (lba + ClusterSector(m, c) + k), m.clusters[c - 2][512 * k..512 * k + 512])
  {
    var data := m.clusters[c - 2];
    var piece := data[512 * k..512 * k + 512];
    ClusterAt(m, c);
    assert At(data, 512 * k, piece);
    hide Formatted, At, VolumeBytes, ClusterSector, Sectors;
    PieceAt(bytes, 512 * lba, VolumeBytes(m), 512 * ClusterSector(m, c), data);
    PieceAt(bytes, 512 * (lba + ClusterSector(m, c)), data, 512 * k, piece);
  }

  lemma WholeBlock(block: seq<Byte>, piece: seq<Byte>)
    requires |block| == |piece| && At(block, 0, piece)
    ensures block == piece
  {
    assert block == block[0..|block|];
  }

  lemma ClusterSized(m: Image, c: nat)
    requires Formatted(m) && IsCluster(m, c)
    ensures |m.clusters[c - 2]| == 512 * m.sectorsPerCluster
  {
    hide Sectors;
  }

  /** The sectors of a cluster, one after another, are its contents. */
  lemma {:induction false} ClusterIsRead(bytes: seq<Byte>, lba: nat, m: Image, c: nat, k: nat)
    requires OnDisk(bytes, lba, m) && IsCluster(m, c) && k <= m.sectorsPerCluster
    ensures |m.clusters[c - 2]| == 512 * m.sectorsPerCluster
    ensures ClusterData(VolumeOf(bytes, lba, m), c, k) == Some(m.clusters[c - 2][..512 * k])
  {
    hide Formatted, SectorOf, VolumeBytes;
    ClusterSized(m, c);
    hide OnDisk;
    if k > 0 {
      ClusterIsRead(bytes, lba, m, c, k - 1);
      SectorIsRead(bytes, lba, m, c, k - 1);
      var data := m.clusters[c - 2];
      assert data[..512 * (k - 1)] + data[512 * (k - 1)..512 * (k - 1) + 512] == data[..512 * k];
    }
  }

  /** `path` is a file: different clusters, each linked to the next and the last one marked as the end. */
  predicate IsFile(m: Image, path: seq<nat>) {
    && path != [] && Distinct(path)
    && (forall i :: 0 <= i < |path| ==> IsCluster(m, path[i]) && path[i] < |m.entries|)
    && (forall i :: 0 <= i < |path| - 1 ==> m.entries[path[i]].link == Next(path[i + 1]))
    && m.entries[path[|path| - 1]].link == End
  }

  function Parts(m: Image, path: seq<nat>, n: nat): (parts: seq<seq<Byte>>)
    requires Formatted(m) && IsFile(m, path) && n <= |path|
    ensures AllSized(parts, 512 * m.sectorsPerCluster) && |parts| == n
  {
    seq(n, i requires 0 <= i < n => m.clusters[path[i] - 2])
  }

  /** What was written into the clusters of a file. */
  function Content(m: Image, path: seq<nat>): seq<Byte>
    requires Formatted(m) && IsFile(m, path)
  {
    Joined(Parts(m, path, |path|), 512 * m.sectorsPerCluster)
  }

  lemma {:induction false} ChainIsFollowed(bytes: seq<Byte>, lba: nat, m: Image, path: seq<nat>, i: nat)
    requires OnDisk(bytes, lba, m) && IsFile(m, path) && i <= |path|
    ensures ChainAt(VolumeOf(bytes, lba, m), path[0], i) == if i < |path| then Some(path[i]) else None
  {
    hide OnDisk, NextCluster;
    if i > 0 {
      ChainIsFollowed(bytes, lba, m, path, i - 1);
      LinkIsRead(bytes, lba, m, path[i - 1]);
    }
  }

  lemma {:induction false} ContentIsRead(bytes: seq<Byte>, lba: nat, m: Image, path: seq<nat>, n: nat)
    requires OnDisk(bytes, lba, m) && IsFile(m, path) && n <= |path|
    ensures ChainData(VolumeOf(bytes, lba, m), path[0], n)
         == Some(Joined(Parts(m, path, n), 512 * m.sectorsPerCluster))
  {
    hide Formatted, IsFile, ChainAt, ClusterData, VolumeBytes;
    if n > 0 {
      ContentIsRead(bytes, lba, m, path, n - 1);
      ChainIsFollowed(bytes, lba, m, path, n - 1);
      assert IsCluster(m, path[n - 1]) by { ClusterOfFile(m, path, n - 1); }
      ClusterIsRead(bytes, lba, m, path[n - 1], m.sectorsPerCluster);
      var data := m.clusters[path[n - 1] - 2];
      assert data[..512 * m.sectorsPerCluster] == data;
      assert Parts(m, path, n)[..n - 1] == Parts(m, path, n - 1);
    }
  }

  lemma ClusterOfFile(m: Image, path: seq<nat>, i: nat)
    requires IsFile(m, path) && i < |path|
    ensures IsCluster(m, path[i])
  {
  }

  /** Every byte of a file is where it was written. */
  lemma ByteIsRead(bytes: seq<Byte>, lba: nat, m: Image, path: seq<nat>, p: nat)
    requires OnDisk(bytes, lba, m) && IsFile(m, path) && p < |Content(m, path)|
    ensures ByteAt(VolumeOf(bytes, lba, m), path[0], p) == Some(Content(m, path)[p])
  {
    hide OnDisk, Formatted, IsFile, ByteAt, ChainData, Joined;
    var v := VolumeOf(bytes, lba, m);
    ContentIsRead(bytes, lba, m, path, |path|);
    assert ClusterSize(v) == 512 * m.sectorsPerCluster;
    ChainDataBytes(v, path[0], |path|, p);
  }

  /** A file has no more clusters than the volume. */
  lemma FileIsShort(m: Image, path: seq<nat>)
    requires IsFile(m, path)
    ensures 1 <= |path| <= |m.clusters|
  {
    DistinctFits(path, Range(2, |m.clusters| + 2));
  }

  lemma FileIsReadable(bytes: seq<Byte>, lba: nat, m: Image, path: seq<nat>, offset: nat, wanted: nat)
    requires OnDisk(bytes, lba, m) && IsFile(m, path) && wanted > 0 && offset + wanted <= |Content(m, path)|
    ensures Readable(VolumeOf(bytes, lba, m), path[0], offset, wanted)
  {
    hide Formatted, VolumeBytes, IsFile, ByteAt, PosCluster, Content;
    FileIsShort(m, path);
    var v := VolumeOf(bytes, lba, m);
    forall p | offset <= p < offset + wanted ensures ByteAt(v, path[0], p).Some? { ByteIsRead(bytes, lba, m, path, p); }
    ByteInFile(bytes, lba, m, path, offset + wanted - 1);
  }

  lemma ByteInFile(bytes: seq<Byte>, lba: nat, m: Image, path: seq<nat>, p: nat)
    requires OnDisk(bytes, lba, m) && IsFile(m, path) && p < |Content(m, path)|
    ensures PosCluster(VolumeOf(bytes, lba, m), p) < |path|
  {
    hide OnDisk, Formatted, IsFile;
    var v := VolumeOf(bytes, lba, m);
    PosSplits(v, p);
    if PosCluster(v, p) >= |path| { MulMono(|path|, PosCluster(v, p), ClusterSize(v)); }
  }
}
