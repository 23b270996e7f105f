/** Following FAT chains and reading file ranges, against a byte-addressed view of the chain. */
module FatRead {
  import opened Common
  import opened Block
  import opened FatGeometry

  const FAT32_BAD_CLUSTER := 0x0FFF_FFF7
  const FAT32_END_OF_CHAIN := 0x0FFF_FFF8

  datatype VfsError = NotAFile | Io | NotFound | NotADirectory | InvalidPath

  /** All that reading relies on; every mounted volume has it. */
  predicate Usable(v: Volume) {
    ValidDevice(v.device) && v.device.blockSize == SECTOR_SIZE && v.geo.sectorsPerCluster >= 1
  }

  function ClusterSize(v: Volume): nat {
    v.geo.sectorsPerCluster * SECTOR_SIZE
  }

  /** Which cluster of a chain holds byte `pos`, and where in it. */
  function PosCluster(v: Volume, pos: nat): nat
    requires Usable(v)
  {
    Quotient(pos, ClusterSize(v))
  }

  function PosOffset(v: Volume, pos: nat): (o: nat)
    requires Usable(v)
    ensures o < ClusterSize(v)
  {
    pos % ClusterSize(v)
  }

  /** `next_cluster`: the FAT entry, or `None` at the end of the chain. */
  function NextCluster(v: Volume, c: nat): (r: Result<Option<nat>, FatError>)
    requires Usable(v)
    ensures r.Ok? && r.value.Some? ==> ValidCluster(v.geo, r.value.value)
  {
    if !ValidCluster(v.geo, c) then Err(CorruptFilesystem)
    else
      var sector := ReadBlock(v.device, FatSector(v.geo, c));
      if sector.Err? then Err(IoError)
      else
        var value := Le32(sector.value, FatOffset(c)) % 0x1000_0000;
        if value >= FAT32_END_OF_CHAIN then Ok(None)
        else if value < 2 || value == FAT32_BAD_CLUSTER || value > LastCluster(v.geo.clusterCount)
        then Err(CorruptFilesystem)
        else Ok(Some(value))
  }

  // ---------------------------------------------------------------------
  // The reference: a chain as an addressable run of bytes
  // ---------------------------------------------------------------------

  /** Cluster number `n` of the chain that starts at `first`. */
  function ChainAt(v: Volume, first: nat, n: nat): (c: Option<nat>)
    requires Usable(v)
    ensures c.Some? && n > 0 ==> ValidCluster(v.geo, c.value)
  {
    if n == 0 then Some(first)
    else
      match ChainAt(v, first, n - 1)
      case None => None
      case Some(c) => var next := NextCluster(v, c); if next.Ok? then next.value else None
  }

  function SectorOf(v: Volume, c: nat, k: nat): (s: Option<seq<Byte>>)
    requires Usable(v) && k < v.geo.sectorsPerCluster
    ensures s.Some? ==> |s.value| == SECTOR_SIZE
  {
    if !ValidCluster(v.geo, c) then None
    else
      var r := ReadBlock(v.device, ClusterStart(v.geo, c) + k);
      if r.Ok? then Some(r.value) else None
  }

  function ClusterByte(v: Volume, c: nat, o: nat): Option<Byte>
    requires Usable(v) && o < ClusterSize(v)
  {
    match SectorOf(v, c, o / SECTOR_SIZE)
    case None => None
    case Some(s) => Some(s[o % SECTOR_SIZE])
  }

  /** Byte `pos` of the chain, when its cluster is linked and its sector readable. */
  function ByteAt(v: Volume, first: nat, pos: nat): Option<Byte>
    requires Usable(v)
  {
    match ChainAt(v, first, PosCluster(v, pos))
    case None => None
    case Some(c) => ClusterByte(v, c, PosOffset(v, pos))
  }

  /** The clusters' contents one after another: the usual meaning of a FAT file. */
  function ClusterData(v: Volume, c: nat, k: nat): (d: Option<seq<Byte>>)
    requires Usable(v) && k <= v.geo.sectorsPerCluster
    ensures d.Some? ==> |d.value| == k * SECTOR_SIZE
  {
    if k == 0 then Some([])
    else
      match (ClusterData(v, c, k - 1), SectorOf(v, c, k - 1))
      case (Some(d), Some(s)) => Some(d + s)
      case _ => None
  }

  function ChainData(v: Volume, first: nat, n: nat): (d: Option<seq<Byte>>)
    requires Usable(v)
    ensures d.Some? ==> |d.value| == n * ClusterSize(v)
  {
    if n == 0 then Some([])
    else
      match (ChainData(v, first, n - 1), ChainAt(v, first, n - 1))
      case (Some(d), Some(c)) =>
        var last := ClusterData(v, c, v.geo.sectorsPerCluster);
        if last.Some? then Some(d + last.value) else None
      case _ => None
  }

  lemma {:induction false} ClusterDataBytes(v: Volume, c: nat, k: nat, o: nat)
    requires Usable(v) && k <= v.geo.sectorsPerCluster && o < k * SECTOR_SIZE
    requires ClusterData(v, c, k).Some?
    ensures ClusterByte(v, c, o) == Some(ClusterData(v, c, k).value[o])
  {
    if o < (k - 1) * SECTOR_SIZE { ClusterDataBytes(v, c, k - 1, o); }
  }

  /** `ByteAt` is indexing into the concatenated chain. */
  lemma {:induction false} ChainDataBytes(v: Volume, first: nat, n: nat, pos: nat)
    requires Usable(v) && ChainData(v, first, n).Some? && pos < n * ClusterSize(v)
    ensures ByteAt(v, first, pos) == Some(ChainData(v, first, n).value[pos])
  {
    var base := (n - 1) * ClusterSize(v);
    if pos < base {
      ChainDataBytes(v, first, n - 1, pos);
    } else {
      ByteInCluster(v, first, n - 1, pos - base);
      MulSucc(n - 1, ClusterSize(v));
      hide ByteAt, ClusterByte, ClusterSize;
      ClusterDataBytes(v, ChainAt(v, first, n - 1).value, v.geo.sectorsPerCluster, pos - base);
    }
  }

  /** Bytes that agree with `ByteAt` are a slice of the concatenated chain. */
  lemma ReadIsSlice(v: Volume, first: nat, n: nat, offset: nat, out: seq<Byte>)
    requires Usable(v) && ChainData(v, first, n).Some? && offset + |out| <= n * ClusterSize(v)
    requires forall p :: offset <= p < offset + |out| ==> ByteAt(v, first, p) == Some(out[p - offset])
    ensures out == ChainData(v, first, n).value[offset..offset + |out|]
  {
    hide ByteAt;
    forall i | 0 <= i < |out| ensures out[i] == ChainData(v, first, n).value[offset + i] {
      ChainDataBytes(v, first, n, offset + i);
    }
  }

  lemma ByteInCluster(v: Volume, first: nat, t: nat, o: nat)
    requires Usable(v) && o < ClusterSize(v)
    ensures ByteAt(v, first, t * ClusterSize(v) + o)
         == match ChainAt(v, first, t)
            case None => None
            case Some(c) => ClusterByte(v, c, o)
  {
    DivModOf(t, ClusterSize(v), o);
  }

  lemma {:induction false} ChainEnds(v: Volume, first: nat, n: nat, m: nat)
    requires Usable(v) && n <= m && ChainAt(v, first, n) == None
    ensures ChainAt(v, first, m) == None
  {
    if n < m { ChainEnds(v, first, n, m - 1); }
  }

  // ---------------------------------------------------------------------
  // Reading
  // ---------------------------------------------------------------------

  /** Copy what cluster `c` holds from offset `o` on, up to `wanted` bytes in all. */
  method CopyCluster(v: Volume, c: nat, o: nat, buffer: array<Byte>, start: nat, wanted: nat)
    returns (ok: bool, written: nat)
    requires Usable(v) && ValidCluster(v.geo, c) && o < ClusterSize(v)
    requires start < wanted <= buffer.Length
    modifies buffer
    ensures var n := Min(ClusterSize(v) - o, wanted - start);
            && (ok <==> forall p :: o <= p < o + n ==> ClusterByte(v, c, p).Some?)
            && (ok ==> written == start + n)
            && (ok ==> forall p :: o <= p < o + n ==> ClusterByte(v, c, p) == Some(buffer[start + p - o]))
            && forall j :: 0 <= j < buffer.Length && !(start <= j < start + n) ==> buffer[j] == old(buffer[j])
  {
    hide ClusterByte, SectorOf;
    var sectorIndex: nat := o / SECTOR_SIZE;
    var sectorOffset: nat := o % SECTOR_SIZE;
    written := start;
    while sectorIndex < v.geo.sectorsPerCluster
      invariant sectorIndex <= v.geo.sectorsPerCluster && start <= written < wanted && sectorOffset < SECTOR_SIZE
      invariant o + (written - start) == sectorIndex * SECTOR_SIZE + sectorOffset
      invariant sectorIndex == v.geo.sectorsPerCluster ==> sectorOffset == 0
      invariant forall p :: o <= p < o + written - start ==> ClusterByte(v, c, p) == Some(buffer[start + p - o])
      invariant forall j :: 0 <= j < buffer.Length && !(start <= j < written) ==> buffer[j] == old(buffer[j])
    {
      var from := o + written - start;
      var sector := SectorOf(v, c, sectorIndex);
      if sector == None {
        SectorByte(v, c, sectorIndex, sectorOffset);
        return false, written;
      }
      var count := Min(SECTOR_SIZE - sectorOffset, wanted - written);
      forall j | 0 <= j < count { buffer[written + j] := sector.value[sectorOffset + j]; }
      forall p | from <= p < from + count ensures ClusterByte(v, c, p) == Some(buffer[start + p - o]) {
        SectorByte(v, c, sectorIndex, sectorOffset + p - from);
      }
      written := written + count;
      sectorIndex, sectorOffset := sectorIndex + 1, 0;
      if written == wanted { return true, written; }
    }
    ok := true;
  }

  lemma SectorByte(v: Volume, c: nat, k: nat, o: nat)
    requires Usable(v) && k < v.geo.sectorsPerCluster && o < SECTOR_SIZE
    ensures ClusterByte(v, c, k * SECTOR_SIZE + o)
         == match SectorOf(v, c, k)
            case None => None
            case Some(s) => Some(s[o])
  {
  }

  datatype Record = Record(name: seq<Byte>, isDirectory: bool, firstCluster: nat, size: nat)

  /** Every wanted byte is linked and readable, and the last one lies no further along the chain
      than the volume has clusters. */
  predicate Readable(v: Volume, first: nat, offset: nat, wanted: nat)
    requires Usable(v) && wanted > 0
  {
    && PosCluster(v, offset + wanted - 1) <= v.geo.clusterCount
    && forall p :: offset <= p < offset + wanted ==> ByteAt(v, first, p).Some?
  }

  function Wanted(file: Record, offset: nat, room: nat): nat {
    if offset >= file.size then 0 else Min(room, file.size - offset)
  }

  /** Walk `skip` links from the first cluster, giving up past the volume's cluster count. */
  method SkipClusters(v: Volume, first: nat, skip: nat) returns (cluster: Option<nat>)
    requires Usable(v)
    ensures cluster == if skip <= v.geo.clusterCount then ChainAt(v, first, skip) else None
  {
    var current, traversed := first, 0;
    while traversed < skip
      invariant traversed <= skip && traversed <= v.geo.clusterCount
      invariant ChainAt(v, first, traversed) == Some(current)
    {
      var next := NextCluster(v, current);
      if next.Err? || next.value == None {
        ChainEnds(v, first, traversed + 1, skip);
        return None;
      }
      current := next.value.value;
      traversed := traversed + 1;
      if traversed > v.geo.clusterCount { return None; }
    }
    cluster := Some(current);
  }

  lemma PosBeyond(v: Volume, pos: nat, t: nat)
    requires Usable(v) && pos >= t * ClusterSize(v)
    ensures PosCluster(v, pos) >= t
  {
    var size := ClusterSize(v);
    if pos / size < t { MulMono(pos / size + 1, t, size); }
  }

  lemma PosSplits(v: Volume, pos: nat)
    requires Usable(v)
    ensures pos == PosCluster(v, pos) * ClusterSize(v) + PosOffset(v, pos)
  {
  }

  /** Past an unlinked cluster nothing is readable. */
  lemma NothingBeyond(v: Volume, first: nat, pos: nat, t: nat)
    requires Usable(v) && ChainAt(v, first, t) == None && pos >= t * ClusterSize(v)
    ensures ByteAt(v, first, pos) == None
  {
    PosBeyond(v, pos, t);
    ChainEnds(v, first, t, PosCluster(v, pos));
  }

  lemma BadFirstCluster(v: Volume, first: nat, pos: nat)
    requires Usable(v) && first < 2
    ensures ByteAt(v, first, pos) == None
  {
    var t := PosCluster(v, pos);
    if t > 0 {
      assert ChainAt(v, first, 0) == Some(first);
      ChainEnds(v, first, 1, t);
    }
  }

  /** The bytes of cluster `t` of the chain are the bytes of the cluster linked there. */
  lemma ClusterInChain(v: Volume, first: nat, t: nat, c: nat, o: nat, n: nat)
    requires Usable(v) && ChainAt(v, first, t) == Some(c) && o + n <= ClusterSize(v)
    ensures var base := t * ClusterSize(v);
            forall p :: base + o <= p < base + o + n ==> ByteAt(v, first, p) == ClusterByte(v, c, p - base)
  {
    var base := t * ClusterSize(v);
    forall p | base + o <= p < base + o + n ensures ByteAt(v, first, p) == ClusterByte(v, c, p - base) {
      ByteInCluster(v, first, t, p - base);
    }
  }

  lemma NextInChain(v: Volume, first: nat, t: nat, c: nat)
    requires Usable(v) && ChainAt(v, first, t) == Some(c)
    ensures ChainAt(v, first, t + 1) == (var next := NextCluster(v, c); if next.Ok? then next.value else None)
  {
  }

  /** Copy from cluster `t` of the chain at `pos` onwards; `pos` is the chain position of the next byte. */
  method ReadCluster(v: Volume, first: nat, t: nat, c: nat, pos: nat, buffer: array<Byte>, start: nat, wanted: nat)
    returns (ok: bool, written: nat)
    requires Usable(v) && ChainAt(v, first, t) == Some(c)
    requires t * ClusterSize(v) <= pos < t * ClusterSize(v) + ClusterSize(v) && start < wanted <= buffer.Length
    modifies buffer
    ensures var n := Min(t * ClusterSize(v) + ClusterSize(v) - pos, wanted - start);
            && (ok <==> forall p :: pos <= p < pos + n ==> ByteAt(v, first, p).Some?)
            && (ok ==> written == start + n)
            && (ok ==> forall p :: pos <= p < pos + n ==> ByteAt(v, first, p) == Some(buffer[start + p - pos]))
            && forall j :: 0 <= j < buffer.Length && !(start <= j < start + n) ==> buffer[j] == old(buffer[j])
  {
    hide ByteAt;
    var base := t * ClusterSize(v);
    var o := pos - base;
    var n := Min(ClusterSize(v) - o, wanted - start);
    ClusterInChain(v, first, t, c, o, n);
    if !ValidCluster(v.geo, c) {
      assert ByteAt(v, first, pos) == ClusterByte(v, c, o) == None;
      return false, start;
    }
    hide ClusterByte;
    ok, written := CopyCluster(v, c, o, buffer, start, wanted);
    if !ok {
      var q :| o <= q < o + n && ClusterByte(v, c, q) == None;
      assert ByteAt(v, first, base + q) == None;
    }
  }

  /** `read_file`: succeeds exactly on readable ranges, and then fills the buffer with them. */
  method ReadFile(v: Volume, file: Record, offset: nat, buffer: array<Byte>) returns (r: Result<nat, VfsError>)
    requires Usable(v)
    modifies buffer
    ensures file.isDirectory ==> r == Err(NotAFile)
    ensures !file.isDirectory ==>
              var wanted := Wanted(file, offset, buffer.Length);
              if wanted == 0 || Readable(v, file.firstCluster, offset, wanted)
              then && r == Ok(wanted)
                   && forall p :: offset <= p < offset + wanted ==>
                        ByteAt(v, file.firstCluster, p) == Some(buffer[p - offset])
              else r == Err(VfsError.Io)
    ensures forall j :: Wanted(file, offset, buffer.Length) <= j < buffer.Length ==> buffer[j] == old(buffer[j])
  {
    hide ByteAt, PosCluster, PosOffset, ClusterSize, ChainAt, NextCluster;
    if file.isDirectory { return Err(NotAFile); }
    if offset >= file.size || buffer.Length == 0 { return Ok(0); }
    var first, size := file.firstCluster, ClusterSize(v);
    var wanted := Wanted(file, offset, buffer.Length);
    if first < 2 {
      BadFirstCluster(v, first, offset);
      return Err(VfsError.Io);
    }
    PosSplits(v, offset);
    var traversed: nat := PosCluster(v, offset);
    PosBeyond(v, offset + wanted - 1, traversed);
    var skipped := SkipClusters(v, first, traversed);
    if skipped == None {
      if traversed <= v.geo.clusterCount { NothingBeyond(v, first, offset, traversed); }
      return Err(VfsError.Io);
    }
    var cluster, written := skipped.value, 0;
    while written < wanted
      invariant written <= wanted && traversed <= v.geo.clusterCount
      invariant ChainAt(v, first, traversed) == Some(cluster)
      invariant written < wanted ==> traversed * size <= offset + written < traversed * size + size
      invariant written == wanted ==> PosCluster(v, offset + wanted - 1) <= v.geo.clusterCount
      invariant forall p :: offset <= p < offset + written ==> ByteAt(v, first, p) == Some(buffer[p - offset])
      invariant forall j :: wanted <= j < buffer.Length ==> buffer[j] == old(buffer[j])
    {
      var ok, written' := ReadCluster(v, first, traversed, cluster, offset + written, buffer, written, wanted);
      if !ok { return Err(VfsError.Io); }
      written := written';
      if written == wanted {
        PosSplits(v, offset + wanted - 1);
        PosUnique(v, offset + wanted - 1, traversed);
      } else {
        NextInChain(v, first, traversed, cluster);
        MulSucc(traversed, size);
        traversed := traversed + 1;
        PosBeyond(v, offset + wanted - 1, traversed);
        if traversed > v.geo.clusterCount { return Err(VfsError.Io); }
        var next := NextCluster(v, cluster);
        if next.Err? || next.value == None {
          NothingBeyond(v, first, offset + written, traversed);
          return Err(VfsError.Io);
        }
        cluster := next.value.value;
      }
    }
    r := Ok(written);
  }

  lemma PosUnique(v: Volume, pos: nat, t: nat)
    requires Usable(v) && t * ClusterSize(v) <= pos < t * ClusterSize(v) + ClusterSize(v)
    ensures PosCluster(v, pos) == t
  {
    DivModOf(t, ClusterSize(v), pos - t * ClusterSize(v));
  }
}
