/** Files by their paths: component after component from the root directory, then the contents. */
module FatPath {
  import opened Common
  import opened Block
  import opened FatGeometry
  import opened FatRead
  import opened FatDirectory
  import opened FatVolume
  import opened FatRoundTrip

  /** Short names are at most twelve bytes, and the dot entries are not followed. */
  predicate Followable(component: seq<Byte>) { component != [46] && component != [46, 46] && |component| <= 12 }

  /** Where a path of one or more components leads from a directory: its record, or the first thing that stops it. */
  function ResolveOf(v: Volume, dir: nat, cs: seq<seq<Byte>>): Result<Record, VfsError>
    requires Usable(v) && cs != []
    decreases |cs|
  {
    if !Followable(cs[0]) then Err(InvalidPath)
    else
      var (found, ok) := Scan(v, dir, Finder(cs[0]), None, 0);
      if !ok then Err(VfsError.Io)
      else if found == None then Err(VfsError.NotFound)
      else if |cs| == 1 then Ok(found.value)
      else if !found.value.isDirectory then Err(NotADirectory)
      else ResolveOf(v, found.value.firstCluster, cs[1..])
  }

  /** `resolve_path` on the components of a path; the root itself has no record. */
  method ResolvePath(v: Volume, cs: seq<seq<Byte>>) returns (r: Result<Option<Record>, VfsError>)
    requires Usable(v)
    ensures cs == [] ==> r == Ok(None)
    ensures cs != [] ==> match ResolveOf(v, v.geo.rootCluster, cs)
                         case Ok(record) => r == Ok(Some(record))
                         case Err(e) => r == Err(e)
  {
    hide Scan, Finder;
    var dir, i := v.geo.rootCluster, 0;
    var current: Option<Record> := None;
    while i < |cs|
      invariant i <= |cs|
      invariant i < |cs| ==> ResolveOf(v, v.geo.rootCluster, cs) == ResolveOf(v, dir, cs[i..])
      invariant i == |cs| > 0 ==> current.Some? && ResolveOf(v, v.geo.rootCluster, cs) == Ok(current.value)
      invariant cs == [] ==> current == None
    {
      if !Followable(cs[i]) { return Err(InvalidPath); }
      var found, ok := FindEntry(v, dir, cs[i]);
      if !ok { return Err(VfsError.Io); }
      if found == None { return Err(VfsError.NotFound); }
      assert cs[i..][1..] == cs[i + 1..];
      i := i + 1;
      if i < |cs| {
        if !found.value.isDirectory { return Err(NotADirectory); }
        dir := found.value.firstCluster;
      }
      current := found;
    }
    r := Ok(current);
  }

  // ---------------------------------------------------------------------
  // A formatted volume
  // ---------------------------------------------------------------------

  /** The clusters and the entries of a directory. */
  datatype DirImage = DirImage(path: seq<nat>, entries: seq<DirEntry>)

  /** The directories of a volume by their first clusters: the root, and every directory that one of them lists other
      than by a dot entry. */
  predicate Tree(m: Image, dirs: map<nat, DirImage>) {
    && Formatted(m) && m.root in dirs
    && forall c :: c in dirs ==>
         && IsFile(m, dirs[c].path) && dirs[c].path[0] == c && Lists(Content(m, dirs[c].path), dirs[c].entries)
         && forall e :: e in dirs[c].entries && IsDirectory(e) && Followable(ShownName(e)) ==> e.cluster in dirs
  }

  lemma FollowableUpToCase(entries: seq<DirEntry>, component: seq<Byte>)
    requires Followable(component) && FirstNamed(entries, component) < |entries|
    ensures Followable(ShownName(entries[FirstNamed(entries, component)]))
  {
    hide ShownName;
    var n := FirstNamed(entries, component);
    FirstNamedIsFirst(entries, component);
    NamesEqualIff(ShownName(entries[n]), component);
  }

  /** Following a path in the directories as they were written. */
  function LookUp(m: Image, dirs: map<nat, DirImage>, dir: nat, cs: seq<seq<Byte>>): Result<DirEntry, VfsError>
    requires Tree(m, dirs) && dir in dirs && cs != []
    decreases |cs|
  {
    var entries := dirs[dir].entries;
    var n := FirstNamed(entries, cs[0]);
    if !Followable(cs[0]) then Err(InvalidPath)
    else if n == |entries| then Err(VfsError.NotFound)
    else if |cs| == 1 then Ok(entries[n])
    else if !IsDirectory(entries[n]) then Err(NotADirectory)
    else FollowableUpToCase(entries, cs[0]); LookUp(m, dirs, entries[n].cluster, cs[1..])
  }

  /** The reader goes where the formatter put things, errors included. */
  lemma {:induction false} ResolvesAsWritten(bytes: seq<Byte>, lba: nat, m: Image, dirs: map<nat, DirImage>, dir: nat,
                                             cs: seq<seq<Byte>>)
    requires OnDisk(bytes, lba, m) && Tree(m, dirs) && dir in dirs && cs != []
    ensures ResolveOf(VolumeOf(bytes, lba, m), dir, cs)
         == match LookUp(m, dirs, dir, cs)
            case Ok(e) => Ok(RecordOf(e))
            case Err(e) => Err(e)
    decreases |cs|
  {
    hide OnDisk, Formatted, IsFile, Content, Lists, Scan, Finder, Named, FirstNamed;
    var entries := dirs[dir].entries;
    LookupFindsWritten(bytes, lba, m, dirs[dir].path, entries, cs[0]);
    var n := FirstNamed(entries, cs[0]);
    if Followable(cs[0]) && n < |entries| && |cs| > 1 && IsDirectory(entries[n]) {
      FollowableUpToCase(entries, cs[0]);
      assert entries[n] in entries;
      ResolvesAsWritten(bytes, lba, m, dirs, entries[n].cluster, cs[1..]);
    }
  }

  /** `read`: resolve, then read the file. */
  method ReadPath(v: Volume, cs: seq<seq<Byte>>, offset: nat, buffer: array<Byte>) returns (r: Result<nat, VfsError>)
    requires Usable(v)
    modifies buffer
    ensures cs == [] ==> r == Err(NotAFile) && buffer[..] == old(buffer[..])
    ensures cs != [] && ResolveOf(v, v.geo.rootCluster, cs).Err? ==>
              r == Err(ResolveOf(v, v.geo.rootCluster, cs).error) && buffer[..] == old(buffer[..])
    ensures cs != [] && ResolveOf(v, v.geo.rootCluster, cs).Ok? ==>
              var file := ResolveOf(v, v.geo.rootCluster, cs).value;
              && (file.isDirectory ==> r == Err(NotAFile))
              && (!file.isDirectory ==>
                    var wanted := Wanted(file, offset, buffer.Length);
                    if wanted == 0 || Readable(v, file.firstCluster, offset, wanted)
                    then && r == Ok(wanted) && buffer[wanted..] == old(buffer[..])[wanted..]
                         && forall p :: offset <= p < offset + wanted ==>
                              ByteAt(v, file.firstCluster, p) == Some(buffer[p - offset])
                    else r == Err(VfsError.Io))
  {
    hide ResolveOf, ByteAt, Readable;
    var found := ResolvePath(v, cs);
    if found.Err? { return Err(found.error); }
    if found.value == None { return Err(NotAFile); }
    r := ReadFile(v, found.value.value, offset, buffer);
  }

  /** What reading a range of a file must give. */
  function Piece(content: seq<Byte>, size: nat, offset: nat, room: nat): seq<Byte>
    requires size <= |content|
  {
    if offset >= size then [] else content[offset..offset + Min(room, size - offset)]
  }

  /** What is in a file's clusters; an empty file may have none. */
  function Kept(m: Image, path: seq<nat>): seq<Byte>
    requires Formatted(m) && (path == [] || IsFile(m, path))
  {
    if path == [] then [] else Content(m, path)
  }

  /** The path leads to a file, and `path` are its clusters. */
  predicate Names(m: Image, dirs: map<nat, DirImage>, cs: seq<seq<Byte>>, path: seq<nat>)
    requires Tree(m, dirs) && cs != []
  {
    var r := LookUp(m, dirs, m.root, cs);
    && r.Ok? && !IsDirectory(r.value) && (path == [] || (IsFile(m, path) && r.value.cluster == path[0]))
    && r.value.size <= |Kept(m, path)|
  }

  /** On a formatted volume, wherever it lies, reading a file by its path gives a slice of what was written into its
      clusters. */
  method ReadWritten(v: Volume, cs: seq<seq<Byte>>, offset: nat, buffer: array<Byte>, ghost bytes: seq<Byte>,
                     ghost lba: nat, ghost m: Image, ghost dirs: map<nat, DirImage>, ghost path: seq<nat>)
    returns (r: Result<nat, VfsError>)
    requires OnDisk(bytes, lba, m) && v == VolumeOf(bytes, lba, m) && Tree(m, dirs) && cs != []
    requires Names(m, dirs, cs, path)
    modifies buffer
    ensures var piece := Piece(Kept(m, path), LookUp(m, dirs, m.root, cs).value.size, offset, buffer.Length);
            && r == Ok(|piece|) && |piece| <= buffer.Length && buffer[..|piece|] == piece
            && buffer[|piece|..] == old(buffer[..])[|piece|..]
  {
    hide Formatted, VolumeBytes, Content, Lists, IsFile, ResolveOf, LookUp, ByteAt, Readable;
    ResolvesAsWritten(bytes, lba, m, dirs, m.root, cs);
    ghost var size := LookUp(m, dirs, m.root, cs).value.size;
    ghost var wanted := if offset >= size then 0 else Min(buffer.Length, size - offset);
    if wanted > 0 { FileIsReadable(bytes, lba, m, path, offset, wanted); }
    r := ReadPath(v, cs, offset, buffer);
    forall i | 0 <= i < wanted ensures buffer[i] == Kept(m, path)[offset + i] {
      ByteIsRead(bytes, lba, m, path, offset + i);
    }
  }

  /** From the disk to the bytes: mount what was formatted, and read. */
  method LoadFile(d: Device, cs: seq<seq<Byte>>, offset: nat, buffer: array<Byte>, ghost bytes: seq<Byte>,
                  ghost m: Image, ghost dirs: map<nat, DirImage>, ghost path: seq<nat>)
    returns (r: Result<nat, VfsError>)
    requires OnDisk(bytes, 0, m) && d == Disk(bytes) && Tree(m, dirs) && cs != [] && Names(m, dirs, cs, path)
    modifies buffer
    ensures var piece := Piece(Kept(m, path), LookUp(m, dirs, m.root, cs).value.size, offset, buffer.Length);
            && r == Ok(|piece|) && |piece| <= buffer.Length && buffer[..|piece|] == piece
            && buffer[|piece|..] == old(buffer[..])[|piece|..]
  {
    hide Formatted, VolumeBytes, Content, Tree, Piece, LookUp;
    var mounted := MountWhole(d, bytes, m);
    r := ReadWritten(mounted.value, cs, offset, buffer, bytes, 0, m, dirs, path);
  }
}
