/** The in-memory filesystem on values: inode slots, path resolution and the operations as steps. */
module RamFsModel {
  import opened Common
  import opened Path

  const MAX_INODES := 256
  const MAX_FILE_SIZE := 4096
  const MAX_CHILDREN := 32
  const MAX_NAME := 64

  datatype NodeType = File | Directory

  datatype VfsError = NotFound | AlreadyExists | NotADirectory | NotAFile | NoSpace | InvalidPath | IoError

  type VfsResult<+T> = Result<T, VfsError>

  /** One slot. `children` are the occupied entries of the child table, `data` the whole content buffer. */
  datatype Inode = Inode(used: bool, nodeType: NodeType, name: string, parent: nat,
                         data: seq<Byte>, dataLen: nat, children: seq<nat>)

  datatype Fs = Fs(inodes: seq<Inode>, count: nat)

  function Empty(): Inode {
    Inode(false, File, "", 0, Zeros(MAX_FILE_SIZE), 0, [])
  }

  function Root(): Inode {
    Empty().(used := true, nodeType := Directory, name := "/")
  }

  function NewFs(): Fs {
    Fs([Root()] + seq(MAX_INODES - 1, _ => Empty()), 1)
  }

  /** `set_name`: at most 64 bytes are kept. */
  function Stored(name: string): (s: string)
    ensures |s| <= MAX_NAME && (|name| <= MAX_NAME <==> s == name)
  {
    if |name| <= MAX_NAME then name else name[..MAX_NAME]
  }

  // ---------------------------------------------------------------------
  // Operations
  // ---------------------------------------------------------------------

  /** The first of these children that is in use and has this name. */
  function Lookup(fs: Fs, children: seq<nat>, name: string): Option<nat> {
    if children == [] then None
    else
      var c := children[0];
      if c < |fs.inodes| && fs.inodes[c].used && fs.inodes[c].name == name then Some(c)
      else Lookup(fs, children[1..], name)
  }

  function Walk(fs: Fs, current: nat, components: seq<string>): VfsResult<nat>
    decreases |components|
  {
    if components == [] then Ok(current)
    else if current >= |fs.inodes| || fs.inodes[current].nodeType != Directory then Err(NotADirectory)
    else
      match Lookup(fs, fs.inodes[current].children, components[0])
      case None => Err(NotFound)
      case Some(c) => Walk(fs, c, components[1..])
  }

  function Resolve(fs: Fs, path: string): VfsResult<nat> {
    Walk(fs, 0, Components(path))
  }

  /** The lowest unused slot from `i` on. */
  function FirstUnused(fs: Fs, i: nat): (r: Option<nat>)
    ensures r.Some? ==> i <= r.value < |fs.inodes| && !fs.inodes[r.value].used
    ensures r == None ==> forall j :: i <= j < |fs.inodes| ==> fs.inodes[j].used
    decreases |fs.inodes| - i
  {
    if i >= |fs.inodes| then None
    else if !fs.inodes[i].used then Some(i)
    else FirstUnused(fs, i + 1)
  }

  /** Occupy slot `i` as a child of directory `p`. */
  function Attach(fs: Fs, p: nat, i: nat, name: string, nodeType: NodeType): Fs
    requires p < |fs.inodes| && i < |fs.inodes| && p != i
  {
    var node := Empty().(used := true, nodeType := nodeType, name := Stored(name), parent := p);
    var dir := fs.inodes[p];
    Fs(fs.inodes[i := node][p := dir.(children := dir.children + [i])], fs.count + 1)
  }

  function CreateStep(fs: Fs, path: string, nodeType: NodeType): (Fs, VfsResult<()>) {
    if Resolve(fs, path).Ok? then (fs, Err(AlreadyExists))
    else
      var (parentPath, name) := SplitPath(path);
      match Resolve(fs, parentPath)
      case Err(e) => (fs, Err(e))
      case Ok(p) =>
        if p >= |fs.inodes| || fs.inodes[p].nodeType != Directory then (fs, Err(NotADirectory))
        else if |fs.inodes[p].children| >= MAX_CHILDREN then (fs, Err(NoSpace))
        else
          match FirstUnused(fs, 1)
          case None => (fs, Err(NoSpace))
          case Some(i) => if i == p then (fs, Err(NoSpace)) else (Attach(fs, p, i, name, nodeType), Ok(()))
  }

  function Position(s: seq<nat>, x: nat): (i: nat)
    requires x in s
    ensures i < |s| && s[i] == x
  {
    if s[0] == x then 0 else 1 + Position(s[1..], x)
  }

  function Without(s: seq<nat>, x: nat): seq<nat> {
    if x in s then s[..Position(s, x)] + s[Position(s, x) + 1..] else s
  }

  /** Take slot `i` out of its parent's children and give it up. */
  function Detach(fs: Fs, i: nat): Fs
    requires i < |fs.inodes| && fs.inodes[i].parent < |fs.inodes|
  {
    var p := fs.inodes[i].parent;
    var unlinked := fs.inodes[p := fs.inodes[p].(children := Without(fs.inodes[p].children, i))];
    Fs(unlinked[i := unlinked[i].(used := false)], SaturatingSub(fs.count, 1))
  }

  function RemoveStep(fs: Fs, path: string): (Fs, VfsResult<()>) {
    if path == "/" || path == "" then (fs, Err(InvalidPath))
    else
      match Resolve(fs, path)
      case Err(e) => (fs, Err(e))
      case Ok(i) =>
        if i >= |fs.inodes| || fs.inodes[i].parent >= |fs.inodes| then (fs, Err(NotFound))
        else if fs.inodes[i].nodeType == Directory && fs.inodes[i].children != [] then (fs, Err(IoError))
        else (Detach(fs, i), Ok(()))
  }

  function WriteStep(fs: Fs, path: string, offset: nat, bytes: seq<Byte>): (Fs, VfsResult<nat>) {
    match Resolve(fs, path)
    case Err(e) => (fs, Err(e))
    case Ok(i) =>
      if i >= |fs.inodes| || fs.inodes[i].nodeType != File then (fs, Err(NotAFile))
      else
        var node, end := fs.inodes[i], offset + |bytes|;
        if end > MAX_FILE_SIZE || end > |node.data| then (fs, Err(NoSpace))
        else
          var data := node.data[..offset] + bytes + node.data[end..];
          var length := if end > node.dataLen then end else node.dataLen;
          (fs.(inodes := fs.inodes[i := node.(data := data, dataLen := length)]), Ok(|bytes|))
  }

  function ReadOf(fs: Fs, path: string, offset: nat, room: nat): VfsResult<seq<Byte>> {
    match Resolve(fs, path)
    case Err(e) => Err(e)
    case Ok(i) =>
      if i >= |fs.inodes| || fs.inodes[i].nodeType != File then Err(NotAFile)
      else
        var node := fs.inodes[i];
        if offset >= node.dataLen || node.dataLen > |node.data| then Ok([])
        else Ok(node.data[offset..offset + Min(room, node.dataLen - offset)])
  }

  // ---------------------------------------------------------------------
  // The tree
  // ---------------------------------------------------------------------

  predicate Node(fs: Fs, i: nat) {
    i < |fs.inodes| && fs.inodes[i].used
  }

  predicate IsChild(fs: Fs, d: nat, c: nat) {
    Node(fs, d) && c in fs.inodes[d].children
  }

  predicate WellFormedInode(n: Inode) {
    && Distinct(n.children) && |n.children| <= MAX_CHILDREN && (n.nodeType == File ==> n.children == [])
    && |n.name| <= MAX_NAME && |n.data| == MAX_FILE_SIZE && n.dataLen <= MAX_FILE_SIZE
  }

  /** The ancestor `k` links up, stopping at the root. */
  function Up(fs: Fs, i: nat, k: nat): nat
    decreases k
  {
    if k == 0 || i == 0 || i >= |fs.inodes| then i else Up(fs, fs.inodes[i].parent, k - 1)
  }

  ghost predicate Rooted(fs: Fs, i: nat) {
    exists k: nat :: Up(fs, i, k) == 0
  }

  ghost function UsedSet(fs: Fs): set<nat> {
    set i: nat | i < |fs.inodes| && Node(fs, i)
  }

  ghost predicate Layout(fs: Fs) {
    && |fs.inodes| == MAX_INODES
    && Node(fs, 0) && fs.inodes[0].nodeType == Directory && fs.inodes[0].parent == 0
    && forall i: nat :: Node(fs, i) ==> WellFormedInode(fs.inodes[i])
  }

  /** Children are nodes, and their parent link points back. */
  ghost predicate DownLinks(fs: Fs) {
    forall d: nat, c: nat :: IsChild(fs, d, c) ==> c != 0 && Node(fs, c) && fs.inodes[c].parent == d
  }

  /** The root, or listed by its parent. */
  predicate Linked(fs: Fs, i: nat) {
    i == 0 || (i < |fs.inodes| && IsChild(fs, fs.inodes[i].parent, i))
  }

  ghost predicate UpLinks(fs: Fs) {
    forall i: nat {:trigger Linked(fs, i)} :: Node(fs, i) ==> Linked(fs, i)
  }

  ghost predicate NamesDiffer(fs: Fs) {
    forall d: nat, c: nat, c': nat ::
      IsChild(fs, d, c) && IsChild(fs, d, c') && Node(fs, c) && Node(fs, c') && c != c' ==>
      fs.inodes[c].name != fs.inodes[c'].name
  }

  ghost predicate AllRooted(fs: Fs) {
    forall i: nat :: Node(fs, i) ==> Rooted(fs, i)
  }

  /** A tree: parent and child links agree, every node but the root is linked once, siblings have
      different names, every node leads up to the root, and the counter counts the nodes. */
  ghost predicate Tree(fs: Fs) {
    && Layout(fs) && DownLinks(fs) && UpLinks(fs) && NamesDiffer(fs) && AllRooted(fs)
    && fs.count == |UsedSet(fs)|
  }
}
