/** From a formatted disk back to the files on it: partitions, directories, names and contents. */
module FatRoundTrip {
  import opened Common
  import opened Endian
  import opened Block
  import opened FatGeometry
  import opened FatRead
  import opened FatDirectory
  import opened FatVolume

  // ---------------------------------------------------------------------
  // Mounting
  // ---------------------------------------------------------------------

  /** A disk that is one volume from its first sector on mounts as that volume. */
  method MountWhole(d: Device, ghost bytes: seq<Byte>, ghost m: Image) returns (r: Result<Volume, FatError>)
    requires OnDisk(bytes, 0, m) && d == Disk(bytes)
    ensures r == Ok(VolumeOf(bytes, 0, m))
  {
    BootBlock(bytes, 0, m);
    FormattedIsFound(bytes, 0, m, None);
    hide OnDisk, VolumeAt, PartitionVolume, ReadBlock, BootBytes, Disk;
    r := Mount(d);
  }

  const FAT32_KINDS: set<int> := {0x0B, 0x0C, 0x1B, 0x1C}

  /** Entry `i` of a partition table. */
  predicate PartitionAt(mbr: seq<Byte>, i: nat, kind: Byte, start: nat, count: nat) {
    && At(mbr, 446 + 16 * i + 4, [kind]) && At(mbr, 446 + 16 * i + 8, LeBytes(start, 4))
    && At(mbr, 446 + 16 * i + 12, LeBytes(count, 4)) && start < U32 && count < U32
  }

  lemma FirstBlock(bytes: seq<Byte>)
    requires |bytes| % 512 == 0 && 512 <= |bytes| && |bytes| / 512 < U64
    ensures ReadBlock(Disk(bytes), 0) == Ok(bytes[..512])
  {
    InRangeReadsReachDriver(Disk(bytes), 0);
  }

  /** A partition of a FAT32 kind leads to the volume at its start. */
  lemma PartitionIsFound(bytes: seq<Byte>, lba: nat, m: Image, i: nat, kind: Byte, count: nat)
    requires OnDisk(bytes, lba, m) && lba > 0 && i < 4 && |bytes| >= 512
    requires PartitionAt(bytes[..512], i, kind, lba, count) && kind in FAT32_KINDS && Sectors(m) <= count
    ensures PartitionVolume(Disk(bytes), bytes[..512], i) == Ok(Some(VolumeOf(bytes, lba, m)))
  {
    hide Formatted, VolumeAt, ReadBlock, BootBytes, VolumeBytes, Sectors, PartitionAt, Disk, Le32;
    BootBlock(bytes, lba, m);
    FormattedIsFound(bytes, lba, m, Some(count));
    assert Sectors(m) > 0 by { SomeSectors(m); }
    PartitionFields(bytes[..512], i, kind, lba, count);
  }

  lemma SomeSectors(m: Image)
    requires Formatted(m)
    ensures Sectors(m) > 0
  {
    MulMono(0, m.fatCount, m.fatSectors);
    MulMono(0, |m.clusters|, m.sectorsPerCluster);
    assert m.reservedSectors > 0;
    hide Formatted;
  }

  lemma PartitionFields(mbr: seq<Byte>, i: nat, kind: Byte, start: nat, count: nat)
    requires |mbr| == 512 && i < 4 && PartitionAt(mbr, i, kind, start, count)
    ensures mbr[446 + i * 16 + 4] == kind && Le32(mbr, 446 + i * 16 + 8) == start
    ensures Le32(mbr, 446 + i * 16 + 12) == count
  {
    Reads32(mbr, 446 + 16 * i + 8, start);
    Reads32(mbr, 446 + 16 * i + 12, count);
    assert mbr[446 + 16 * i + 4..446 + 16 * i + 5] == [kind];
  }

  lemma OtherKindsAreSkipped(bytes: seq<Byte>, i: nat, kind: Byte, start: nat, count: nat)
    requires |bytes| % 512 == 0 && 512 <= |bytes| && |bytes| / 512 < U64 && i < 4
    requires PartitionAt(bytes[..512], i, kind, start, count) && kind !in FAT32_KINDS
    ensures PartitionVolume(Disk(bytes), bytes[..512], i) == Ok(None)
  {
    assert bytes[..512][446 + 16 * i + 4] == kind;
  }

  /** A partitioned disk mounts as the volume of its first FAT32 partition. */
  method MountPartition(d: Device, ghost bytes: seq<Byte>, ghost lba: nat, ghost m: Image, ghost i: nat,
                        ghost kinds: seq<Byte>, ghost starts: seq<nat>, ghost counts: seq<nat>)
    returns (r: Result<Volume, FatError>)
    requires OnDisk(bytes, lba, m) && d == Disk(bytes) && lba > 0 && i < 4 && |bytes| >= 512
    requires |kinds| == |starts| == |counts| == 4
    requires forall k :: 0 <= k < 4 ==> PartitionAt(bytes[..512], k, kinds[k], starts[k], counts[k])
    requires kinds[i] in FAT32_KINDS && starts[i] == lba && Sectors(m) <= counts[i]
    requires forall k :: 0 <= k < i ==> kinds[k] !in FAT32_KINDS
    requires Le16(bytes, 11) != 512
    ensures r == Ok(VolumeOf(bytes, lba, m))
  {
    hide Formatted, VolumeAt, PartitionVolume, ReadBlock, PartitionAt, Disk, VolumeBytes, Sectors, Le16;
    FirstBlock(bytes);
    PartitionIsFound(bytes, lba, m, i, kinds[i], counts[i]);
    forall k | 0 <= k < i ensures PartitionVolume(Disk(bytes), bytes[..512], k) == Ok(None) {
      OtherKindsAreSkipped(bytes, k, kinds[k], starts[k], counts[k]);
    }
    NoVolumeAtStart(bytes);
    r := Mount(d);
  }

  lemma NoVolumeAtStart(bytes: seq<Byte>)
    requires |bytes| % 512 == 0 && 512 <= |bytes| && |bytes| / 512 < U64 && Le16(bytes, 11) != 512
    ensures VolumeAt(Disk(bytes), bytes[..512], 0, None) == None
  {
    NoBootSector(bytes[..512], |bytes| / 512);
  }

  lemma NoBootSector(sector: seq<Byte>, blocks: nat)
    requires |sector| == 512 && Le16(sector, 11) != 512
    ensures match ParseBoot(sector) case None => true case Some(b) => ParseGeometry(b, 0, None, blocks).Err?
  {
  }

  // ---------------------------------------------------------------------
  // Directory entries
  // ---------------------------------------------------------------------

  /** A short-name entry: base and extension without padding. */
  datatype DirEntry = DirEntry(base: seq<Byte>, extension: seq<Byte>, attributes: Byte, cluster: nat, size: nat)

  predicate Plain(s: seq<Byte>) { forall i :: 0 <= i < |s| ==> 32 < s[i] < 127 }

  /** Printable, neither a volume label nor a piece of a long name. */
  predicate Writable(e: DirEntry) {
    && 1 <= |e.base| <= 8 && |e.extension| <= 3 && Plain(e.base) && Plain(e.extension)
    && e.attributes / 8 % 2 == 0 && e.cluster < U32 && e.size < U32
  }

  function Spaces(n: nat): (s: seq<Byte>)
    ensures |s| == n && forall i :: 0 <= i < n ==> s[i] == 32
  {
    seq(n, _ => 32)
  }

  // Both parts of the name are padded with spaces.

  function BaseField(e: DirEntry): (s: seq<Byte>)
    requires Writable(e)
    ensures |s| == 8 && s[0] == e.base[0]
  {
    e.base + Spaces(8 - |e.base|)
  }

  function ExtensionField(e: DirEntry): (s: seq<Byte>)
    requires Writable(e)
    ensures |s| == 3
  {
    e.extension + Spaces(3 - |e.extension|)
  }

  function DirEntryBytes(e: DirEntry): (raw: seq<Byte>)
    requires Writable(e)
    ensures |raw| == 32
  {
    BaseField(e) + ExtensionField(e) + [e.attributes] + Zeros(8)
    + LeBytes(e.cluster / U16, 2) + Zeros(4) + LeBytes(e.cluster % U16, 2) + LeBytes(e.size, 4)
  }

  predicate IsDirectory(e: DirEntry) { e.attributes / 16 % 2 == 1 }

  /** The name as a path spells it; a directory's extension is not shown. */
  function ShownName(e: DirEntry): seq<Byte> {
    if e.extension == [] || IsDirectory(e) then e.base else e.base + [46] + e.extension
  }

  function RecordOf(e: DirEntry): Record { Record(ShownName(e), IsDirectory(e), e.cluster, e.size) }

  lemma {:induction false} UpToPadding(s: seq<Byte>, n: nat)
    requires Plain(s)
    ensures UpToSpace(s + Spaces(n)) == s
  {
    if s == [] {
      assert s + Spaces(n) == Spaces(n);
    } else {
      assert (s + Spaces(n))[1..] == s[1..] + Spaces(n);
      UpToPadding(s[1..], n);
    }
  }

  lemma EntryFields(e: DirEntry)
    requires Writable(e)
    ensures var raw := DirEntryBytes(e);
            && raw[..8] == BaseField(e) && raw[8..11] == ExtensionField(e)
            && raw[11] == e.attributes && At(raw, 20, LeBytes(e.cluster / U16, 2))
            && At(raw, 26, LeBytes(e.cluster % U16, 2)) && At(raw, 28, LeBytes(e.size, 4)) && raw[0] == e.base[0]
  {
    hide LeBytes, BaseField, ExtensionField;
    var raw := DirEntryBytes(e);
    var named := BaseField(e) + ExtensionField(e) + [e.attributes] + Zeros(8);
    var high := named + LeBytes(e.cluster / U16, 2) + Zeros(4);
    var low := high + LeBytes(e.cluster % U16, 2);
    assert raw == low + LeBytes(e.size, 4) && |named| == 20 && |high| == 26 && |low| == 28;
    assert raw[20..22] == LeBytes(e.cluster / U16, 2);
    assert raw[26..28] == LeBytes(e.cluster % U16, 2);
    assert raw[28..] == LeBytes(e.size, 4) && raw[28..32] == raw[28..];
  }

  lemma ExtensionShown(e: DirEntry)
    requires Writable(e)
    ensures var x := ExtensionField(e);
            (e.extension == [] <==> x == [32, 32, 32]) && ShownExtension(x) == e.extension
  {
    UpToPadding(e.extension, 3 - |e.extension|);
    if e.extension != [] { assert ExtensionField(e)[0] != 32; }
  }

  lemma BaseShown(e: DirEntry)
    requires Writable(e)
    ensures UpToSpace(BaseField(e)) == e.base && SanitiseAll(e.base) == e.base
  {
    UpToPadding(e.base, 8 - |e.base|);
  }

  lemma RecordReads(e: DirEntry, raw: seq<Byte>)
    requires Writable(e) && |raw| == 32 && raw[0] == e.base[0] && raw[11] == e.attributes
    requires UpToSpace(raw[..8]) == e.base && SanitiseAll(e.base) == e.base
    requires (e.extension == [] <==> raw[8..11] == [32, 32, 32]) && ShownExtension(raw[8..11]) == e.extension
    requires Le16(raw, 20) == e.cluster / U16 && Le16(raw, 26) == e.cluster % U16 && Le32(raw, 28) == e.size
    ensures ParseRecord(raw) == Some(RecordOf(e))
  {
    assert 32 < e.base[0] < 127;
    LabelBits(e.attributes);
    hide UpToSpace, ShownExtension, SanitiseAll, Plain, Le16, Le32;
  }

  /** An entry written is the record read: its name, kind, first cluster and size. */
  lemma EntryRoundTrip(e: DirEntry)
    requires Writable(e)
    ensures ParseRecord(DirEntryBytes(e)) == Some(RecordOf(e))
  {
    hide DirEntryBytes, BaseField, ExtensionField, LeBytes, UpToSpace, ShownExtension, SanitiseAll, Plain, At;
    hide Le16, Le32, ParseRecord, RecordOf;
    var raw := DirEntryBytes(e);
    EntryFields(e);
    Reads16(raw, 20, e.cluster / U16);
    Reads16(raw, 26, e.cluster % U16);
    Reads32(raw, 28, e.size);
    BaseShown(e);
    ExtensionShown(e);
    RecordReads(e, raw);
  }

  /** An entry is passed over exactly when it is free, deleted, nameless or a volume label, pieces of long names
      included; every name shown is printable. */
  lemma SkippedIff(raw: seq<Byte>)
    requires |raw| == 32
    ensures ParseRecord(raw) == None <==> raw[0] in {0x00, 0xE5, 0x20} || raw[11] / 8 % 2 == 1
    ensures ParseRecord(raw).Some? ==> var name := ParseRecord(raw).value.name;
                                       forall i :: 0 <= i < |name| ==> 32 <= name[i] < 127
  {
    LabelBits(raw[11]);
    assert UpToSpace(raw[..8]) == [] <==> raw[0] == 32;
    hide UpToSpace, Le16, Le32;
  }

  lemma LabelBits(attributes: Byte)
    ensures attributes % 16 == 15 ==> attributes / 8 % 2 == 1
  {
  }

  /** Names are the same up to the case of ASCII letters. */
  lemma NamesEqualIff(a: seq<Byte>, b: seq<Byte>)
    ensures NamesEqual(a, b)
       <==> |a| == |b| && forall i :: 0 <= i < |a| ==>
              || a[i] == b[i]
              || (65 <= b[i] <= 90 && a[i] == b[i] + 32) || (65 <= a[i] <= 90 && b[i] == a[i] + 32)
  {
  }

  // ---------------------------------------------------------------------
  // Directories
  // ---------------------------------------------------------------------

  /** Slot `n` of a directory is 32 bytes of what was written into its clusters. */
  lemma SlotIsRead(bytes: seq<Byte>, lba: nat, m: Image, path: seq<nat>, n: nat)
    requires OnDisk(bytes, lba, m) && IsFile(m, path) && 32 * n + 32 <= |Content(m, path)|
    ensures SlotAt(VolumeOf(bytes, lba, m), path[0], n) == Entry(Content(m, path)[32 * n..32 * n + 32])
  {
    hide Formatted, IsFile, Content, SlotAt, VolumeBytes, At, Disk, VolumeOf;
    ContentLength(m, path);
    var t, k, e := SlotSplits(m, |path|, n);
    ClusterOfFile(m, path, t);
    var data := m.clusters[path[t] - 2];
    SectorIsRead(bytes, lba, m, path[t], k);
    SlotOfFile(bytes, lba, m, path, n, t, k, e);
    PartOfContent(m, path, t);
    SliceOfSlice(Content(m, path), t * (512 * m.sectorsPerCluster), data, 512 * k, 32 * e);
  }

  lemma SlotOfFile(bytes: seq<Byte>, lba: nat, m: Image, path: seq<nat>, n: nat, t: nat, k: nat, e: nat)
    requires OnDisk(bytes, lba, m) && IsFile(m, path) && t < |path| && k < m.sectorsPerCluster && e < 16
    requires n == t * (m.sectorsPerCluster * 16) + 16 * k + e
    requires SectorOf(VolumeOf(bytes, lba, m), path[t], k).Some?
    ensures SlotAt(VolumeOf(bytes, lba, m), path[0], n)
         == Entry(SectorOf(VolumeOf(bytes, lba, m), path[t], k).value[32 * e..32 * e + 32])
  {
    hide Formatted, IsFile, SlotAt, SectorOf, ChainAt, VolumeBytes, At, Disk, SlotsPerCluster;
    var v := VolumeOf(bytes, lba, m);
    FileIsShort(m, path);
    ChainIsFollowed(bytes, lba, m, path, t);
    SlotOfChain(v, path[0], t, path[t], k, e);
    SlotsInCluster(v);
  }

  lemma SlotsInCluster(v: Volume)
    ensures SlotsPerCluster(v) == v.geo.sectorsPerCluster * 16
  {
  }

  lemma ContentLength(m: Image, path: seq<nat>)
    requires Formatted(m) && IsFile(m, path)
    ensures |Content(m, path)| == |path| * (512 * m.sectorsPerCluster) && m.sectorsPerCluster > 0 && |path| > 0
  {
  }

  lemma PartOfContent(m: Image, path: seq<nat>, t: nat)
    requires Formatted(m) && IsFile(m, path) && t < |path|
    ensures At(Content(m, path), t * (512 * m.sectorsPerCluster), m.clusters[path[t] - 2])
  {
    JoinedPart(Parts(m, path, |path|), 512 * m.sectorsPerCluster, t);
  }

  lemma SliceOfSlice(all: seq<Byte>, at: nat, data: seq<Byte>, sector: nat, slot: nat)
    requires At(all, at, data) && sector + 512 <= |data| && slot + 32 <= 512
    ensures data[sector..sector + 512][slot..slot + 32] == all[at + sector + slot..at + sector + slot + 32]
  {
    var piece := data[sector + slot..sector + slot + 32];
    forall k | 0 <= k < 32 ensures data[sector..sector + 512][slot..slot + 32][k] == piece[k] {
      assert data[sector..sector + 512][slot + k] == data[sector + slot + k];
    }
    PieceAt(all, at, data, sector + slot, piece);
  }

  /** The cluster, sector and place in the sector of slot `n`. */
  lemma SlotSplits(m: Image, clusters: nat, n: nat) returns (t: nat, k: nat, e: nat)
    requires m.sectorsPerCluster > 0 && 32 * n + 32 <= clusters * (512 * m.sectorsPerCluster)
    ensures t < clusters && k < m.sectorsPerCluster && e < 16
    ensures n == t * (m.sectorsPerCluster * 16) + 16 * k + e
    ensures 32 * n == t * (512 * m.sectorsPerCluster) + 512 * k + 32 * e
  {
    e := n % 16;
    t, k := SectorSplits(n / 16, m.sectorsPerCluster);
    ThreeWays(t, m.sectorsPerCluster, k, e);
    if t >= clusters { MulMono(clusters, t, 512 * m.sectorsPerCluster); }
  }

  lemma SectorSplits(sector: nat, per: nat) returns (t: nat, k: nat)
    requires per > 0
    ensures k < per && sector == t * per + k
  {
    t, k := sector / per, sector % per;
  }

  lemma ThreeWays(t: nat, per: nat, k: nat, e: nat)
    ensures 16 * (t * per + k) + e == t * (per * 16) + 16 * k + e
    ensures 32 * (16 * (t * per + k) + e) == t * (512 * per) + 512 * k + 32 * e
  {
  }

  /** After its last cluster a directory ends. */
  lemma EndIsRead(bytes: seq<Byte>, lba: nat, m: Image, path: seq<nat>, n: nat)
    requires OnDisk(bytes, lba, m) && IsFile(m, path) && 32 * n == |Content(m, path)|
    ensures SlotAt(VolumeOf(bytes, lba, m), path[0], n) == EndOfChain
  {
    hide Formatted, Content, SlotAt, ChainAt, VolumeBytes, Joined, NextCluster;
    var v, last := VolumeOf(bytes, lba, m), |path| - 1;
    ContentLength(m, path);
    ThreeWays(|path|, m.sectorsPerCluster, 0, 0);
    FileIsShort(m, path);
    ChainIsFollowed(bytes, lba, m, path, last);
    ChainIsFollowed(bytes, lba, m, path, |path|);
    LinkIsRead(bytes, lba, m, path[last]);
    SlotAfterCluster(v, path[0], last);
  }

  /** The directory holds these entries, then a zero byte or nothing. */
  predicate Lists(content: seq<Byte>, entries: seq<DirEntry>) {
    && (forall i :: 0 <= i < |entries| ==> Writable(entries[i]) && At(content, 32 * i, DirEntryBytes(entries[i])))
    && |content| % 32 == 0 && 32 * |entries| <= |content|
    && (32 * |entries| == |content| || content[32 * |entries|] == 0)
  }

  predicate Named(e: DirEntry, component: seq<Byte>) { NamesEqual(ShownName(e), component) }

  /** Where the first entry with this name is, or the number of entries. */
  function FirstNamed(entries: seq<DirEntry>, component: seq<Byte>): (n: nat)
    ensures n <= |entries|
  {
    if entries == [] || Named(entries[0], component) then 0 else 1 + FirstNamed(entries[1..], component)
  }

  lemma {:induction false} FirstNamedIsFirst(entries: seq<DirEntry>, component: seq<Byte>)
    ensures var n := FirstNamed(entries, component);
            && (n < |entries| ==> Named(entries[n], component))
            && forall i :: 0 <= i < n ==> !Named(entries[i], component)
  {
    hide Named;
    if entries != [] && !Named(entries[0], component) { FirstNamedIsFirst(entries[1..], component); }
  }

  lemma ListedSlot(bytes: seq<Byte>, lba: nat, m: Image, path: seq<nat>, entries: seq<DirEntry>,
                   component: seq<Byte>, i: nat)
    requires OnDisk(bytes, lba, m) && IsFile(m, path) && Lists(Content(m, path), entries) && i < |entries|
    ensures var v, e := VolumeOf(bytes, lba, m), entries[i];
            && SlotAt(v, path[0], i) == Entry(DirEntryBytes(e))
            && (Matches(v, path[0], component, i) <==> Named(e, component))
            && (Passes(v, path[0], component, i) <==> !Named(e, component))
  {
    hide OnDisk, IsFile, SlotAt, Content, ParseRecord;
    SlotIsRead(bytes, lba, m, path, i);
    EntryRoundTrip(entries[i]);
    EntryFields(entries[i]);
    hide DirEntryBytes, NamesEqual;
  }

  lemma LastSlot(bytes: seq<Byte>, lba: nat, m: Image, path: seq<nat>, entries: seq<DirEntry>, component: seq<Byte>)
    requires OnDisk(bytes, lba, m) && IsFile(m, path) && Lists(Content(m, path), entries)
    ensures var v, n := VolumeOf(bytes, lba, m), |entries|;
            && SlotAt(v, path[0], n) != Broken && !Passes(v, path[0], component, n)
            && !Matches(v, path[0], component, n)
  {
    hide Formatted, VolumeBytes, IsFile, SlotAt, Content, DirEntryBytes;
    var n, content := |entries|, Content(m, path);
    if 32 * n == |content| {
      EndIsRead(bytes, lba, m, path, n);
    } else {
      SlotIsRead(bytes, lba, m, path, n);
    }
  }

  /** Looking a name up in a directory finds the first entry written under it. */
  lemma LookupFindsWritten(bytes: seq<Byte>, lba: nat, m: Image, path: seq<nat>, entries: seq<DirEntry>,
                           component: seq<Byte>)
    requires OnDisk(bytes, lba, m) && IsFile(m, path) && Lists(Content(m, path), entries)
    ensures var n := FirstNamed(entries, component);
            Scan(VolumeOf(bytes, lba, m), path[0], Finder(component), None, 0)
            == (if n == |entries| then None else Some(RecordOf(entries[n])), true)
  {
    hide Formatted, VolumeBytes, SlotAt, Content, Passes, Matches, Lists, Named, ParseRecord, Scan, Finder;
    var v, n := VolumeOf(bytes, lba, m), FirstNamed(entries, component);
    FirstNamedIsFirst(entries, component);
    if n < |entries| {
      ListedSlot(bytes, lba, m, path, entries, component, n);
      ListedIsWritable(Content(m, path), entries, n);
      EntryRoundTrip(entries[n]);
    } else {
      LastSlot(bytes, lba, m, path, entries, component);
    }
    var stop := FinderStops(v, path[0], component, 0);
    StopIsFirst(bytes, lba, m, path, entries, component, stop);
  }

  lemma ListedIsWritable(content: seq<Byte>, entries: seq<DirEntry>, i: nat)
    requires Lists(content, entries) && i < |entries|
    ensures Writable(entries[i])
  {
  }

  lemma StopIsFirst(bytes: seq<Byte>, lba: nat, m: Image, path: seq<nat>, entries: seq<DirEntry>,
                    component: seq<Byte>, stop: nat)
    requires OnDisk(bytes, lba, m) && IsFile(m, path) && Lists(Content(m, path), entries)
    requires StopsAt(VolumeOf(bytes, lba, m), path[0], component, stop)
    ensures stop == FirstNamed(entries, component)
  {
    hide OnDisk, IsFile, SlotAt, Content, Passes, Lists, Named, FirstNamed;
    var n := FirstNamed(entries, component);
    FirstNamedIsFirst(entries, component);
    if stop < n {
      ListedSlot(bytes, lba, m, path, entries, component, stop);
    } else if n < stop {
      if n < |entries| { ListedSlot(bytes, lba, m, path, entries, component, n); }
      else { LastSlot(bytes, lba, m, path, entries, component); }
    }
  }
}
