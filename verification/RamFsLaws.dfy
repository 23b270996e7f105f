/** The filesystem as its users see it: a map from paths to files and directories, which every call changes at one
    path and nowhere else. */
module RamFsLaws {
  import opened Common
  import opened Path
  import opened RamFsModel
  import opened RamFsTree
  import opened RamFsSafety

  datatype Entry = FileOf(content: seq<Byte>) | Dir

  /** What is at a path. */
  function View(fs: Fs, cs: seq<string>): Option<Entry> {
    match Walk(fs, 0, cs)
    case Err(_) => None
    case Ok(i) => if i < |fs.inodes| then Some(EntryOf(fs.inodes[i])) else None
  }

  function EntryOf(n: Inode): Entry {
    if n.nodeType == Directory then Dir
    else FileOf(if n.dataLen <= |n.data| then n.data[..n.dataLen] else [])
  }

  /** Reading is taking a slice of what is there. */
  lemma ReadIsView(fs: Fs, path: string, offset: nat, room: nat)
    requires Tree(fs)
    ensures var r := ReadOf(fs, path, offset, room);
            match View(fs, Components(path))
            case None => r.Err? && r.error in {NotFound, NotADirectory}
            case Some(Dir) => r == Err(NotAFile)
            case Some(FileOf(content)) =>
              r == Ok(if offset >= |content| then [] else content[offset..offset + Min(room, |content| - offset)])
  {
    if Resolve(fs, path).Ok? {
      WalkReachesNodes(fs, Components(path));
      var n := fs.inodes[Resolve(fs, path).value];
      assert n.dataLen <= |n.data|;
      if offset < n.dataLen {
        var end := offset + Min(room, n.dataLen - offset);
        SliceOfPrefix(n.data, n.dataLen, offset, end);
      }
    } else {
      MissingIsNotFound(fs, Components(path));
    }
    hide Components, Walk, Tree;
  }

  lemma SliceOfPrefix(data: seq<Byte>, length: nat, from: nat, end: nat)
    requires from <= end <= length <= |data|
    ensures data[..length][from..end] == data[from..end]
  {
    forall k | 0 <= k < end - from ensures data[..length][from..end][k] == data[from..end][k] {
      assert data[..length][from + k] == data[from + k];
    }
  }

  lemma {:induction false} MissingIsNotFound(fs: Fs, cs: seq<string>)
    requires Tree(fs) && Walk(fs, 0, cs).Err?
    ensures Walk(fs, 0, cs).error in {NotFound, NotADirectory}
  {
    if cs != [] {
      var a, n := cs[..|cs| - 1], cs[|cs| - 1];
      assert cs == a + [n];
      WalkSnoc(fs, 0, a, n);
      if Walk(fs, 0, a).Ok? {
        WalkReachesNodes(fs, a);
        StepInTree(fs, Walk(fs, 0, a).value, n);
      } else {
        MissingIsNotFound(fs, a);
      }
    }
  }

  /** Nothing is below a node without children. */
  lemma {:induction false} NothingBelow(fs: Fs, cs: seq<string>, c: seq<string>)
    requires Tree(fs) && Walk(fs, 0, cs).Ok? && cs < c
    requires Walk(fs, 0, cs).value < |fs.inodes| && fs.inodes[Walk(fs, 0, cs).value].children == []
    ensures View(fs, c) == None
    decreases |c|
  {
    var a, n := c[..|c| - 1], c[|c| - 1];
    assert c == a + [n];
    WalkSnoc(fs, 0, a, n);
    if a == cs {
      WalkReachesNodes(fs, cs);
      StepInTree(fs, Walk(fs, 0, cs).value, n);
    } else {
      assert cs < a;
      NothingBelow(fs, cs, a);
      if Walk(fs, 0, a).Ok? { WalkReachesNodes(fs, a); }
    }
  }

  lemma ViewOfNode(fs: Fs, cs: seq<string>)
    requires Tree(fs)
    ensures View(fs, cs) == None <==> Walk(fs, 0, cs).Err?
    ensures Walk(fs, 0, cs).Ok? ==> Node(fs, Walk(fs, 0, cs).value)
                                    && View(fs, cs) == Some(EntryOf(fs.inodes[Walk(fs, 0, cs).value]))
  {
    if Walk(fs, 0, cs).Ok? { WalkReachesNodes(fs, cs); }
  }

  // ---------------------------------------------------------------------
  // Create
  // ---------------------------------------------------------------------

  function NewEntry(t: NodeType): Entry { if t == Directory then Dir else FileOf([]) }

  /** Create succeeds exactly when nothing is at the path and there is room for it. */
  lemma CreateOkIff(fs: Fs, path: string, t: NodeType)
    requires Tree(fs)
    ensures var r := CreateStep(fs, path, t).1;
            && (r.Ok? <==> View(fs, Components(path)) == None && RoomFor(fs, path))
            && (View(fs, Components(path)).Some? ==> r == Err(AlreadyExists))
            && (r.Err? && View(fs, Components(path)) == None ==>
                  match View(fs, Components(SplitPath(path).0))
                  case None => r.error in {NotFound, NotADirectory}
                  case Some(FileOf(_)) => r.error == NotADirectory
                  case Some(Dir) => r.error == NoSpace)
  {
    var parent := Components(SplitPath(path).0);
    ViewOfNode(fs, Components(path));
    ViewOfNode(fs, parent);
    if Walk(fs, 0, parent).Err? { MissingIsNotFound(fs, parent); }
    hide Components, SplitPath, Tree, Walk, View, FirstUnused;
  }

  /** A create that breaks nothing adds one new empty entry, under the name as far as it is stored. */
  lemma CreateLaw(fs: Fs, path: string, t: NodeType, c: seq<string>)
    requires Tree(fs) && CreateStep(fs, path, t).1.Ok? && !Breaks(fs, Create(path, t))
    ensures var (parentPath, name) := SplitPath(path);
            View(CreateStep(fs, path, t).0, c)
            == if c == Components(parentPath) + [Stored(name)] then Some(NewEntry(t)) else View(fs, c)
  {
    CreateAttaches(fs, path, t);
    StepKeepsTreeIff(fs, Create(path, t));
    CreateKeepsTreeIff(fs, path, t);
    var (parentPath, name) := SplitPath(path);
    var p, i := Resolve(fs, parentPath).value, FirstUnused(fs, 1).value;
    hide SplitPath, Components, CreateStep, Tree, Breaks, Walk, View, FirstUnused;
    assert Attach(fs, p, i, name, t) == Attach(fs, p, i, Stored(name), t);
    AttachLaw(fs, p, i, Stored(name), t, Components(parentPath), c);
  }

  lemma AttachLaw(fs: Fs, p: nat, i: nat, name: string, t: NodeType, to: seq<string>, c: seq<string>)
    requires Tree(fs) && CanAttach(fs, p, i) && |name| <= MAX_NAME && !NameTaken(fs, p, name)
    requires Walk(fs, 0, to) == Ok(p)
    ensures View(Attach(fs, p, i, name, t), c) == if c == to + [name] then Some(NewEntry(t)) else View(fs, c)
  {
    var fs' := Attach(fs, p, i, name, t);
    AttachKeepsTree(fs, p, i, name, t);
    AttachReaches(fs, p, i, name, t, to);
    if c == to + [name] {
      assert EntryOf(fs'.inodes[i]) == NewEntry(t);
    } else if to + [name] <= c {
      assert fs'.inodes[i].children == [];
      hide Attach, Tree, Walk, View;
      NothingBelow(fs', to + [name], c);
      NothingAtFreeName(fs, p, name, to, c);
    } else {
      AttachKeepsPaths(fs, p, i, name, t, to, c);
      ViewOfNode(fs, c);
      AttachKeepsEntries(fs, p, i, name, t);
      hide Attach, Tree, Walk;
    }
  }

  lemma AttachKeepsEntries(fs: Fs, p: nat, i: nat, name: string, t: NodeType)
    requires Tree(fs) && CanAttach(fs, p, i)
    ensures var fs' := Attach(fs, p, i, name, t);
            && |fs'.inodes| == |fs.inodes|
            && forall j: nat :: Node(fs, j) ==> EntryOf(fs'.inodes[j]) == EntryOf(fs.inodes[j])
  {
  }

  lemma {:induction false} NothingAtFreeName(fs: Fs, p: nat, name: string, to: seq<string>, c: seq<string>)
    requires Tree(fs) && Node(fs, p) && !NameTaken(fs, p, name) && Walk(fs, 0, to) == Ok(p) && to + [name] <= c
    ensures View(fs, c) == None
    decreases |c|
  {
    var a, n := c[..|c| - 1], c[|c| - 1];
    assert c == a + [n];
    WalkSnoc(fs, 0, a, n);
    hide Tree, Walk;
    if c == to + [name] {
      StepInTree(fs, p, name);
    } else {
      NothingAtFreeName(fs, p, name, to, a);
      ViewOfNode(fs, a);
    }
  }

  // ---------------------------------------------------------------------
  // Remove
  // ---------------------------------------------------------------------

  /** Nothing is in the directory at a path. */
  ghost predicate NothingIn(fs: Fs, cs: seq<string>) {
    forall name :: View(fs, cs + [name]) == None
  }

  /** Remove succeeds exactly on a file or an empty directory that is not spelled as the root. */
  lemma RemoveOkIff(fs: Fs, path: string)
    requires Tree(fs)
    ensures var r, cs := RemoveStep(fs, path).1, Components(path);
            && (r.Ok? <==> && path != "/" && path != "" && View(fs, cs).Some?
                           && (View(fs, cs) == Some(Dir) ==> NothingIn(fs, cs)))
            && (path == "/" || path == "" ==> r == Err(InvalidPath))
            && (r.Err? && path != "/" && path != "" && View(fs, cs) == None ==> r.error in {NotFound, NotADirectory})
            && (r.Err? && path != "/" && path != "" && View(fs, cs).Some? ==> r.error == IoError)
  {
    var cs := Components(path);
    ViewOfNode(fs, cs);
    if Walk(fs, 0, cs).Err? {
      MissingIsNotFound(fs, cs);
    } else {
      ParentIsNode(fs, cs);
      EmptyIffNothingIn(fs, cs);
    }
    hide Components, Tree, Walk, View, NothingIn, Detach;
  }

  lemma ParentIsNode(fs: Fs, cs: seq<string>)
    requires Tree(fs) && Walk(fs, 0, cs).Ok?
    ensures var i := Walk(fs, 0, cs).value; i < |fs.inodes| && fs.inodes[i].parent < |fs.inodes|
  {
    WalkReachesNodes(fs, cs);
    hide DownLinks, UpLinks, NamesDiffer, AllRooted, UsedSet;
  }

  lemma EmptyIffNothingIn(fs: Fs, cs: seq<string>)
    requires Tree(fs) && Walk(fs, 0, cs).Ok? && Node(fs, Walk(fs, 0, cs).value)
    ensures var n := fs.inodes[Walk(fs, 0, cs).value];
            n.nodeType == Directory ==> (n.children == [] <==> NothingIn(fs, cs))
  {
    var i := Walk(fs, 0, cs).value;
    if fs.inodes[i].children == [] {
      forall name ensures View(fs, cs + [name]) == None { NothingBelow(fs, cs, cs + [name]); }
    } else if fs.inodes[i].nodeType == Directory {
      var c := fs.inodes[i].children[0];
      assert IsChild(fs, i, c);
      var name := fs.inodes[c].name;
      assert Named(fs, i, name, c) by { hide UpLinks, NamesDiffer, AllRooted, UsedSet; }
      WalkSnoc(fs, 0, cs, name);
      hide Tree, Walk;
      StepInTree(fs, i, name);
      ViewOfNode(fs, cs + [name]);
    }
  }

  /** Remove takes one entry away. */
  lemma RemoveLaw(fs: Fs, path: string, c: seq<string>)
    requires Tree(fs) && RemoveStep(fs, path).1.Ok? && Components(path) != []
    ensures View(RemoveStep(fs, path).0, c) == if c == Components(path) then None else View(fs, c)
  {
    RemoveDetaches(fs, path);
    var i, cs := Resolve(fs, path).value, Components(path);
    DetachPaths(fs, i, cs, c);
    ViewOfNode(fs, c);
    if cs < c { NothingBelow(fs, cs, c); }
    if Walk(fs, 0, c) == Ok(i) { PathIsUnique(fs, cs, c); }
    DetachKeepsEntries(fs, i);
    hide Tree, Walk, Detach, Components, RemoveStep;
  }

  lemma DetachKeepsEntries(fs: Fs, i: nat)
    requires Tree(fs) && CanDetach(fs, i)
    ensures var fs' := Detach(fs, i);
            && |fs'.inodes| == |fs.inodes|
            && forall j: nat :: j < |fs.inodes| ==> EntryOf(fs'.inodes[j]) == EntryOf(fs.inodes[j])
  {
  }

  // ---------------------------------------------------------------------
  // Write
  // ---------------------------------------------------------------------

  /** Everything past the end of a file is still zero, as its slot was when it was created. */
  predicate Clean(fs: Fs) {
    forall i, k :: 0 <= i < |fs.inodes| && fs.inodes[i].used && fs.inodes[i].dataLen <= k < |fs.inodes[i].data| ==>
      fs.inodes[i].data[k] == 0
  }

  /** `bytes` laid over a content at an offset; a gap before them reads as zeros. */
  function Overlay(content: seq<Byte>, offset: nat, bytes: seq<Byte>): seq<Byte> {
    var end := offset + |bytes|;
    seq(if end > |content| then end else |content|, k =>
      if offset <= k < end then bytes[k - offset] else if 0 <= k < |content| then content[k] else 0)
  }

  /** Write succeeds exactly on a file and inside 4096 bytes. */
  lemma WriteOkIff(fs: Fs, path: string, offset: nat, bytes: seq<Byte>)
    requires Tree(fs)
    ensures var r, v := WriteStep(fs, path, offset, bytes).1, View(fs, Components(path));
            && (r.Ok? <==> v.Some? && v.value.FileOf? && offset + |bytes| <= 4096) && (r.Ok? ==> r.value == |bytes|)
            && (r.Err? ==> match v
                           case None => r.error in {NotFound, NotADirectory}
                           case Some(Dir) => r.error == NotAFile
                           case Some(FileOf(_)) => r.error == NoSpace)
  {
    var cs := Components(path);
    ViewOfNode(fs, cs);
    if Walk(fs, 0, cs).Err? {
      MissingIsNotFound(fs, cs);
    } else {
      assert |fs.inodes[Walk(fs, 0, cs).value].data| == 4096;
    }
    hide Components, Tree, Walk;
  }

  /** Write lays its bytes over the one file's content. */
  lemma WriteLaw(fs: Fs, path: string, offset: nat, bytes: seq<Byte>, c: seq<string>)
    requires Tree(fs) && Clean(fs) && WriteStep(fs, path, offset, bytes).1.Ok?
    ensures var cs, fs' := Components(path), WriteStep(fs, path, offset, bytes).0;
            && View(fs, cs).Some? && View(fs, cs).value.FileOf?
            && View(fs', c) == if c == cs then Some(FileOf(Overlay(View(fs, cs).value.content, offset, bytes)))
                               else View(fs, c)
  {
    var cs, fs' := Components(path), WriteStep(fs, path, offset, bytes).0;
    WriteKeepsTree(fs, path, offset, bytes);
    WriteOkIff(fs, path, offset, bytes);
    ViewOfNode(fs, cs);
    ViewOfNode(fs, c);
    var i := Walk(fs, 0, cs).value;
    assert Walk(fs', 0, c) == Walk(fs, 0, c);
    if Walk(fs, 0, c) == Ok(i) { PathIsUnique(fs, cs, c); }
    WrittenContent(fs, fs.inodes[i], offset, bytes, i);
    hide Tree, Walk, Components, Clean, Overlay;
  }

  lemma WrittenContent(fs: Fs, n: Inode, offset: nat, bytes: seq<Byte>, i: nat)
    requires Tree(fs) && Clean(fs) && Node(fs, i) && n == fs.inodes[i] && n.nodeType == File
    requires offset + |bytes| <= |n.data|
    ensures var end := offset + |bytes|;
            var n' := n.(data := n.data[..offset] + bytes + n.data[end..],
                         dataLen := if end > n.dataLen then end else n.dataLen);
            EntryOf(n') == FileOf(Overlay(n.data[..n.dataLen], offset, bytes)) && n.dataLen <= |n.data|
  {
  }

  // ---------------------------------------------------------------------
  // Every run
  // ---------------------------------------------------------------------

  lemma StepKeepsClean(fs: Fs, op: Op)
    requires Tree(fs) && Clean(fs)
    ensures Clean(Apply(fs, op))
  {
    match op
    case Create(path, t) =>
      if CreateStep(fs, path, t).1.Ok? { CreateAttaches(fs, path, t); } else { CreateKeeps(fs, path, t); }
      hide Tree, CreateStep, SplitPath, Components, FirstUnused, Walk;
    case Remove(path) => hide Tree, Components, Walk;
    case Write(path, offset, bytes) => WriteKeepsClean(fs, path, offset, bytes);
  }

  lemma WriteKeepsClean(fs: Fs, path: string, offset: nat, bytes: seq<Byte>)
    requires Tree(fs) && Clean(fs)
    ensures Clean(WriteStep(fs, path, offset, bytes).0)
  {
    hide Tree, Components, Walk;
  }

  /** Where a create puts its entry: at the path itself if the name fits 64, else under the name cut off. */
  function Target(path: string): seq<string> {
    Components(SplitPath(path).0) + [Stored(SplitPath(path).1)]
  }

  lemma TargetIsPath(path: string)
    requires Components(path) != [] && |SplitPath(path).1| <= MAX_NAME
    ensures Target(path) == Components(path)
  {
    SplitPathComponents(path);
  }

  /** What a call does to the map, given whether it succeeded. */
  function Change(v: seq<string> -> Option<Entry>, op: Op, ok: bool): seq<string> -> Option<Entry> {
    if !ok then v
    else
      match op
      case Create(path, t) => (c: seq<string>) => if c == Target(path) then Some(NewEntry(t)) else v(c)
      case Remove(path) => (c: seq<string>) => if c == Components(path) then None else v(c)
      case Write(path, offset, bytes) =>
        (c: seq<string>) => if c == Components(path) then Written(v(c), offset, bytes) else v(c)
  }

  function Written(e: Option<Entry>, offset: nat, bytes: seq<Byte>): Option<Entry> {
    if e.Some? && e.value.FileOf? then Some(FileOf(Overlay(e.value.content, offset, bytes))) else e
  }

  predicate Succeeds(fs: Fs, op: Op) {
    match op
    case Create(path, t) => CreateStep(fs, path, t).1.Ok?
    case Remove(path) => RemoveStep(fs, path).1.Ok?
    case Write(path, offset, bytes) => WriteStep(fs, path, offset, bytes).1.Ok?
  }

  /** The map a user would keep who only watches which calls succeed: at first there is the root. */
  function Watched(ops: seq<Op>): seq<string> -> Option<Entry> {
    if ops == [] then (c: seq<string>) => if c == [] then Some(Dir) else None
    else Change(Watched(ops[..|ops| - 1]), ops[|ops| - 1], Succeeds(Run(ops[..|ops| - 1]), ops[|ops| - 1]))
  }

  lemma StepRefines(fs: Fs, op: Op, v: seq<string> -> Option<Entry>, c: seq<string>)
    requires Tree(fs) && Clean(fs) && !Breaks(fs, op) && v(c) == View(fs, c)
    ensures View(Apply(fs, op), c) == Change(v, op, Succeeds(fs, op))(c)
  {
    hide Tree, Clean, Walk, View, Overlay, CreateStep, RemoveStep, WriteStep;
    match op
    case Create(path, t) =>
      if CreateStep(fs, path, t).1.Ok? {
        CreateLaw(fs, path, t, c);
      } else {
        CreateKeeps(fs, path, t);
      }
    case Remove(path) =>
      if RemoveStep(fs, path).1.Ok? {
        RootStays(fs, path);
        RemoveLaw(fs, path, c);
      } else {
        RefusedRemove(fs, path);
      }
    case Write(path, offset, bytes) =>
      if WriteStep(fs, path, offset, bytes).1.Ok? { WriteLaw(fs, path, offset, bytes, c); }
      else { RefusedWrite(fs, path, offset, bytes); }
  }

  lemma RootStays(fs: Fs, path: string)
    requires Tree(fs) && RemoveStep(fs, path).1.Ok? && !Breaks(fs, Remove(path))
    ensures Components(path) != []
  {
  }

  lemma RefusedRemove(fs: Fs, path: string)
    ensures RemoveStep(fs, path).1.Err? ==> RemoveStep(fs, path).0 == fs
  {
  }

  lemma RefusedWrite(fs: Fs, path: string, offset: nat, bytes: seq<Byte>)
    ensures WriteStep(fs, path, offset, bytes).1.Err? ==> WriteStep(fs, path, offset, bytes).0 == fs
  {
  }

  lemma NewFsView(c: seq<string>)
    ensures Clean(NewFs()) && View(NewFs(), c) == if c == [] then Some(Dir) else None
  {
    NewFsIsTree();
    if c != [] { NothingBelow(NewFs(), [], c); }
  }

  /** After every run in which nothing breaks the tree, the filesystem shows exactly the map its successful calls
      built. */
  lemma {:induction false} EveryRunRefines(ops: seq<Op>, c: seq<string>)
    requires NothingBreaks(ops)
    ensures Clean(Run(ops)) && View(Run(ops), c) == Watched(ops)(c)
  {
    if ops == [] {
      NewFsView(c);
    } else {
      var front, op := ops[..|ops| - 1], ops[|ops| - 1];
      ThroughoutSnoc(ops);
      EveryRunRefines(front, c);
      EveryRunIsATreeIff(front);
      assert !Breaks(Run(front), op);
      hide Tree, Clean, View, Change, Succeeds, Apply, Breaks, NothingBreaks, TreeThroughout;
      StepKeepsClean(Run(front), op);
      StepRefines(Run(front), op, Watched(front), c);
    }
  }
}
