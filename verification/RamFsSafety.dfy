/** What create, remove and write do to the tree and to every path, and the tree over whole runs. */
module RamFsSafety {
  import opened Common
  import opened Path
  import opened RamFsModel
  import opened RamFsTree

  // ---------------------------------------------------------------------
  // Other paths resolve as before
  // ---------------------------------------------------------------------

  lemma NamedOnce(fs: Fs, d: nat, name: string, c: nat, c': nat)
    requires Tree(fs) && Named(fs, d, name, c) && Named(fs, d, name, c')
    ensures c == c'
  {
  }

  /** Two trees in which node `d` has the same kind and the same child called `name`. */
  lemma SameStep(fs: Fs, fs': Fs, d: nat, name: string)
    requires Tree(fs) && Tree(fs') && Node(fs, d) && Node(fs', d)
    requires fs'.inodes[d].nodeType == fs.inodes[d].nodeType
    requires forall c: nat :: Named(fs', d, name, c) <==> Named(fs, d, name, c)
    ensures Walk(fs', d, [name]) == Walk(fs, d, [name])
  {
    StepInTree(fs, d, name);
    StepInTree(fs', d, name);
    var r, r' := Walk(fs, d, [name]), Walk(fs', d, [name]);
    if r.Ok? && r'.Ok? { NamedOnce(fs, d, name, r.value, r'.value); }
    hide Tree, Walk;
  }

  lemma AttachNamed(fs: Fs, p: nat, i: nat, name: string, t: NodeType, d: nat, n: string)
    requires Tree(fs) && CanAttach(fs, p, i) && |name| <= MAX_NAME
    ensures forall c: nat :: Named(Attach(fs, p, i, name, t), d, n, c)
                        <==> Named(fs, d, n, c) || (d == p && c == i && n == name)
  {
    AttachLinks(fs, p, i, name, t);
    hide UpLinks, AllRooted, UsedSet, NamesDiffer;
  }

  lemma {:induction false} AttachKeepsPaths(
    fs: Fs, p: nat, i: nat, name: string, t: NodeType, to: seq<string>, cs: seq<string>)
    requires Tree(fs) && CanAttach(fs, p, i) && |name| <= MAX_NAME && !NameTaken(fs, p, name)
    requires Walk(fs, 0, to) == Ok(p) && !(to + [name] <= cs)
    ensures Walk(Attach(fs, p, i, name, t), 0, cs) == Walk(fs, 0, cs)
    decreases |cs|
  {
    var fs' := Attach(fs, p, i, name, t);
    if cs != [] {
      var a, n := cs[..|cs| - 1], cs[|cs| - 1];
      assert cs == a + [n];
      AttachKeepsPaths(fs, p, i, name, t, to, a);
      WalkSnoc(fs, 0, a, n);
      WalkSnoc(fs', 0, a, n);
      hide Walk;
      if Walk(fs, 0, a).Ok? {
        var d := Walk(fs, 0, a).value;
        assert !(d == p && n == name) by { if d == p { PathIsUnique(fs, a, to); } }
        AttachStep(fs, p, i, name, t, a, n);
      }
    }
  }

  lemma AttachStep(fs: Fs, p: nat, i: nat, name: string, t: NodeType, a: seq<string>, n: string)
    requires Tree(fs) && CanAttach(fs, p, i) && |name| <= MAX_NAME && !NameTaken(fs, p, name)
    requires Walk(fs, 0, a).Ok? && !(Walk(fs, 0, a).value == p && n == name)
    ensures var d := Walk(fs, 0, a).value; Walk(Attach(fs, p, i, name, t), d, [n]) == Walk(fs, d, [n])
  {
    var fs' := Attach(fs, p, i, name, t);
    WalkReachesNodes(fs, a);
    var d := Walk(fs, 0, a).value;
    AttachKeepsTree(fs, p, i, name, t);
    AttachLinks(fs, p, i, name, t);
    AttachNamed(fs, p, i, name, t, d, n);
    assert fs'.inodes[d].nodeType == fs.inodes[d].nodeType;
    hide Tree, Attach, Walk;
    SameStep(fs, fs', d, n);
  }

  lemma AttachReaches(fs: Fs, p: nat, i: nat, name: string, t: NodeType, to: seq<string>)
    requires Tree(fs) && CanAttach(fs, p, i) && |name| <= MAX_NAME && !NameTaken(fs, p, name)
    requires Walk(fs, 0, to) == Ok(p)
    ensures Walk(Attach(fs, p, i, name, t), 0, to + [name]) == Ok(i)
  {
    var fs' := Attach(fs, p, i, name, t);
    AttachKeepsPaths(fs, p, i, name, t, to, to);
    WalkSnoc(fs', 0, to, name);
    AttachKeepsTree(fs, p, i, name, t);
    AttachLinks(fs, p, i, name, t);
    AttachNamed(fs, p, i, name, t, p, name);
    hide Tree, Attach, Walk;
    StepInTree(fs', p, name);
    assert Named(fs', p, name, i);
    NamedOnce(fs', p, name, i, Walk(fs', p, [name]).value);
  }

  /** After a leaf is gone, its path leads nowhere and every other path leads where it did. */
  lemma {:induction false} DetachPaths(fs: Fs, i: nat, at: seq<string>, cs: seq<string>)
    requires Tree(fs) && CanDetach(fs, i) && Walk(fs, 0, at) == Ok(i)
    ensures Walk(Detach(fs, i), 0, cs) == if at <= cs then Err(NotFound) else Walk(fs, 0, cs)
    decreases |cs|
  {
    var fs' := Detach(fs, i);
    if cs == [] {
      assert at != [];
    } else {
      var a, n := cs[..|cs| - 1], cs[|cs| - 1];
      assert cs == a + [n];
      DetachPaths(fs, i, at, a);
      WalkSnoc(fs, 0, a, n);
      WalkSnoc(fs', 0, a, n);
      WalkReachesNodes(fs, at);
      hide Walk;
      if at <= cs && |at| == |cs| { assert at == cs; } else if at <= cs { assert at <= a; }
      if !(at <= a) && Walk(fs, 0, a).Ok? { DetachStep(fs, i, at, a, n); }
    }
  }

  lemma DetachStep(fs: Fs, i: nat, at: seq<string>, a: seq<string>, n: string)
    requires Tree(fs) && CanDetach(fs, i) && Walk(fs, 0, at) == Ok(i) && Walk(fs, 0, a).Ok? && !(at <= a)
    ensures var d := Walk(fs, 0, a).value;
            Walk(Detach(fs, i), d, [n]) == if at == a + [n] then Err(NotFound) else Walk(fs, d, [n])
  {
    var fs' := Detach(fs, i);
    var d := Walk(fs, 0, a).value;
    WalkReachesNodes(fs, a);
    WalkReachesNodes(fs, at);
    WalkSnoc(fs, 0, a, n);
    if d == i { PathIsUnique(fs, at, a); }
    if Walk(fs, 0, a + [n]) == Ok(i) { PathIsUnique(fs, at, a + [n]); }
    DetachKeepsTree(fs, i);
    DetachLinks(fs, i);
    DetachNamed(fs, i, d, n);
    assert fs'.inodes[d].nodeType == fs.inodes[d].nodeType;
    StepInTree(fs, d, n);
    hide Detach, Walk, Tree;
    if at == a + [n] {
      assert Walk(fs, d, [n]) == Ok(i);
      StepInTree(fs', d, n);
      LeafHasDirectoryParent(fs, d, n, i);
      if Walk(fs', d, [n]).Ok? {
        var c := Walk(fs', d, [n]).value;
        NamedOnce(fs, d, n, c, i);
      }
    } else {
      forall c: nat ensures Named(fs', d, n, c) <==> Named(fs, d, n, c) {
        if Named(fs, d, n, i) { NamedOnce(fs, d, n, i, Walk(fs, d, [n]).value); }
      }
      SameStep(fs, fs', d, n);
    }
  }

  lemma LeafHasDirectoryParent(fs: Fs, d: nat, n: string, i: nat)
    requires Tree(fs) && Named(fs, d, n, i)
    ensures fs.inodes[d].nodeType == Directory
  {
  }

  lemma DetachNamed(fs: Fs, i: nat, d: nat, n: string)
    requires Tree(fs) && CanDetach(fs, i)
    ensures forall c: nat :: Named(Detach(fs, i), d, n, c) <==> Named(fs, d, n, c) && c != i
  {
    DetachLinks(fs, i);
    DetachChildren(fs, i);
    hide UpLinks, AllRooted, UsedSet, NamesDiffer, Detach, Without;
  }

  // ---------------------------------------------------------------------
  // Create
  // ---------------------------------------------------------------------

  /** When a create goes through, what it attached where. */
  lemma CreateAttaches(fs: Fs, path: string, t: NodeType)
    requires Tree(fs) && CreateStep(fs, path, t).1.Ok?
    ensures var (parentPath, name) := SplitPath(path);
            var p, i := Resolve(fs, parentPath), FirstUnused(fs, 1);
            && Components(path) == Components(parentPath) + [name]
            && p.Ok? && i.Some? && CanAttach(fs, p.value, i.value) && !NameTaken(fs, p.value, name)
            && CreateStep(fs, path, t).0 == Attach(fs, p.value, i.value, name, t)
  {
    var (parentPath, name) := SplitPath(path);
    assert Components(path) == [] ==> Resolve(fs, path) == Ok(0);
    SplitPathComponents(path);
    hide Components, SplitPath;
    WalkReachesNodes(fs, Components(parentPath));
    WalkSnoc(fs, 0, Components(parentPath), name);
    StepInTree(fs, Resolve(fs, parentPath).value, name);
    hide Tree;
  }

  /** Creating a path leaves a tree unless the name, once cut to 64 characters, is a sibling's. */
  lemma CreateKeepsTreeIff(fs: Fs, path: string, t: NodeType)
    requires Tree(fs) && CreateStep(fs, path, t).1.Ok?
    ensures var (parentPath, name) := SplitPath(path);
            && Resolve(fs, parentPath).Ok?
            && (Tree(CreateStep(fs, path, t).0) <==> !NameTaken(fs, Resolve(fs, parentPath).value, Stored(name)))
  {
    CreateAttaches(fs, path, t);
    var (parentPath, name) := SplitPath(path);
    hide SplitPath, CreateStep, Tree, Resolve;
    AttachKeepsTree(fs, Resolve(fs, parentPath).value, FirstUnused(fs, 1).value, name, t);
  }

  /** The new node is found at its path exactly when its name was short enough to be stored whole. */
  lemma CreateKeeps(fs: Fs, path: string, t: NodeType)
    requires Tree(fs)
    ensures var (fs', r) := CreateStep(fs, path, t);
            && (r.Err? ==> fs' == fs)
            && (r.Ok? ==> !Resolve(fs, path).Ok?)
            && (r.Ok? && |SplitPath(path).1| <= MAX_NAME ==>
                  && Tree(fs')
                  && Resolve(fs', path).Ok?
                  && var i := Resolve(fs', path).value;
                     !Node(fs, i) && Node(fs', i) && fs'.inodes[i].nodeType == t && fs'.inodes[i].dataLen == 0)
            && (r.Ok? && |SplitPath(path).1| > MAX_NAME ==> !Resolve(fs', path).Ok?)
  {
    var (fs', r) := CreateStep(fs, path, t);
    if r.Ok? {
      CreateAttaches(fs, path, t);
      var (parentPath, name) := SplitPath(path);
      var p, i := Resolve(fs, parentPath).value, FirstUnused(fs, 1).value;
      hide SplitPath, Components, CreateStep;
      if |name| <= MAX_NAME {
        AttachKeepsTree(fs, p, i, name, t);
        AttachLinks(fs, p, i, name, t);
        AttachReaches(fs, p, i, name, t, Components(parentPath));
      } else {
        LongNameIsLost(fs, p, i, name, t, Components(parentPath));
      }
    }
  }

  lemma LongNameIsLost(fs: Fs, p: nat, i: nat, name: string, t: NodeType, to: seq<string>)
    requires Tree(fs) && CanAttach(fs, p, i) && !NameTaken(fs, p, name) && |name| > MAX_NAME
    requires Walk(fs, 0, to) == Ok(p)
    ensures Walk(Attach(fs, p, i, name, t), 0, to + [name]).Err?
  {
    var fs' := Attach(fs, p, i, name, t);
    WalkSnoc(fs', 0, to, name);
    AttachLinks(fs, p, i, name, t);
    if Walk(fs', 0, to).Ok? {
      var d := Walk(fs', 0, to).value;
      NoLongNames(fs', d, name);
    }
  }

  /** No stored name is longer than 64, so no longer component is ever found. */
  lemma NoLongNames(fs: Fs, d: nat, name: string)
    requires |name| > MAX_NAME && forall c: nat :: Node(fs, c) ==> |fs.inodes[c].name| <= MAX_NAME
    ensures Walk(fs, d, [name]).Err?
  {
    if d < |fs.inodes| {
      WalkOne(fs, d, name);
      LookupFinds(fs, fs.inodes[d].children, name);
    }
  }

  /** Below the root, a name that continues an existing 64-character name is created under that same name, which
      breaks the tree. */
  lemma LongNameCollides(fs: Fs, name: string, more: string, t: NodeType)
    requires Tree(fs) && FirstUnused(fs, 1).Some? && |fs.inodes[0].children| < MAX_CHILDREN
    requires |name| == MAX_NAME && more != "" && '/' !in name + more && Resolve(fs, "/" + name).Ok?
    ensures var (fs', r) := CreateStep(fs, "/" + (name + more), t); r.Ok? && !Tree(fs')
  {
    var long := name + more;
    RootName(name);
    RootName(long);
    StepInTree(fs, 0, name);
    assert Walk(fs, 0, []) == Ok(0);
    hide Components, SplitPath, CreateStep, Tree, Walk;
    LongCreateIff(fs, "/" + long, t);
    CreateKeepsTreeIff(fs, "/" + long, t);
    assert Stored(long) == name;
    assert Named(fs, 0, name, Walk(fs, 0, [name]).value);
  }

  /** The parent is a directory with room, and a slot is free. */
  predicate RoomFor(fs: Fs, path: string) {
    var p := Resolve(fs, SplitPath(path).0);
    && p.Ok? && p.value < |fs.inodes| && fs.inodes[p.value].nodeType == Directory
    && |fs.inodes[p.value].children| < MAX_CHILDREN
    && exists i :: 1 <= i < |fs.inodes| && !fs.inodes[i].used
  }

  /** A name over 64 is never found, so creating it takes no more than room. */
  lemma LongCreateIff(fs: Fs, path: string, t: NodeType)
    requires Tree(fs) && |SplitPath(path).1| > MAX_NAME
    ensures CreateStep(fs, path, t).1.Ok? <==> RoomFor(fs, path)
  {
    var (parentPath, name) := SplitPath(path);
    NameIsComponent(path);
    SplitPathComponents(path);
    LongIsNotFound(fs, Components(parentPath), name);
    hide Components, SplitPath, AllRooted, UsedSet, NamesDiffer, FirstUnused, Walk;
    if Resolve(fs, parentPath).Ok? { WalkReachesNodes(fs, Components(parentPath)); }
  }

  lemma LongIsNotFound(fs: Fs, to: seq<string>, name: string)
    requires Tree(fs) && |name| > MAX_NAME
    ensures Walk(fs, 0, to + [name]).Err?
  {
    WalkSnoc(fs, 0, to, name);
    if Walk(fs, 0, to).Ok? { NoLongNames(fs, Walk(fs, 0, to).value, name); }
  }

  /** Every path that does not run through the created one resolves to the same node, with the same content. */
  lemma CreateFrame(fs: Fs, path: string, t: NodeType, other: string)
    requires Tree(fs) && |SplitPath(path).1| <= MAX_NAME && !(Components(path) <= Components(other))
    ensures var fs' := CreateStep(fs, path, t).0;
            && Resolve(fs', other) == Resolve(fs, other)
            && (Resolve(fs, other).Ok? ==>
                  var i := Resolve(fs, other).value;
                  Node(fs, i) && Node(fs', i) && SameContent(fs.inodes[i], fs'.inodes[i]))
  {
    if Resolve(fs, other).Ok? { WalkReachesNodes(fs, Components(other)); }
    if CreateStep(fs, path, t).1.Ok? {
      CreateAttaches(fs, path, t);
      var (parentPath, name) := SplitPath(path);
      var p, i := Resolve(fs, parentPath).value, FirstUnused(fs, 1).value;
      hide SplitPath, Components, CreateStep, Walk;
      AttachKeepsPaths(fs, p, i, name, t, Components(parentPath), Components(other));
      AttachLinks(fs, p, i, name, t);
      hide Tree;
    }
  }

  predicate SameContent(a: Inode, b: Inode) {
    a.nodeType == b.nodeType && a.name == b.name && a.data == b.data && a.dataLen == b.dataLen
  }

  // ---------------------------------------------------------------------
  // Remove
  // ---------------------------------------------------------------------

  /** A path that resolves to the root without being spelled as the root, while the root is empty. */
  predicate RemovesRoot(fs: Fs, path: string)
    requires |fs.inodes| > 0
  {
    Components(path) == [] && path != "/" && path != "" && fs.inodes[0].children == []
  }

  lemma RemoveDetaches(fs: Fs, path: string)
    requires Tree(fs) && RemoveStep(fs, path).1.Ok? && Components(path) != []
    ensures Resolve(fs, path).Ok? && CanDetach(fs, Resolve(fs, path).value)
    ensures RemoveStep(fs, path).0 == Detach(fs, Resolve(fs, path).value)
  {
    WalkReachesNodes(fs, Components(path));
    var i := Resolve(fs, path).value;
    assert Linked(fs, i);
    hide DownLinks, UpLinks, AllRooted, NamesDiffer, UsedSet;
  }

  /** Removing keeps the tree, except that a path such as "//" removes an empty root. */
  lemma RemoveKeepsTreeIff(fs: Fs, path: string)
    requires Tree(fs)
    ensures Tree(RemoveStep(fs, path).0) <==> !RemovesRoot(fs, path)
  {
    if Components(path) == [] {
      assert Resolve(fs, path) == Ok(0);
      if RemovesRoot(fs, path) { assert !Node(RemoveStep(fs, path).0, 0); }
    } else if RemoveStep(fs, path).1.Ok? {
      RemoveDetaches(fs, path);
      DetachKeepsTree(fs, Resolve(fs, path).value);
      hide Tree, RemoveStep;
    }
  }

  lemma DoubleSlashRemovesRoot()
    ensures RemovesRoot(NewFs(), "//") && RemoveStep(NewFs(), "//").1 == Ok(()) && !Node(RemoveStep(NewFs(), "//").0, 0)
  {
    assert "//"[..1] == "/" && "/"[..0] == "";
    assert Split("") == ([], "") && Split("/") == ([], "") && Split("//") == ([], "");
  }

  /** The removed path is gone; every path not through it resolves to the same node, with the same content. */
  lemma RemoveFrame(fs: Fs, path: string, other: string)
    requires Tree(fs) && RemoveStep(fs, path).1.Ok? && Components(path) != []
    ensures var fs' := RemoveStep(fs, path).0;
            && (Components(path) <= Components(other) ==> Resolve(fs', other) == Err(NotFound))
            && (!(Components(path) <= Components(other)) ==>
                  && Resolve(fs', other) == Resolve(fs, other)
                  && (Resolve(fs, other).Ok? ==>
                        var i := Resolve(fs, other).value;
                        Node(fs, i) && Node(fs', i) && SameContent(fs.inodes[i], fs'.inodes[i])))
  {
    RemoveDetaches(fs, path);
    var i := Resolve(fs, path).value;
    DetachPaths(fs, i, Components(path), Components(other));
    DetachLinks(fs, i);
    if Resolve(fs, other).Ok? {
      WalkReachesNodes(fs, Components(other));
      if Resolve(fs, other) == Ok(i) { PathIsUnique(fs, Components(path), Components(other)); }
    }
    hide Tree, RemoveStep, Detach, Components;
  }

  // ---------------------------------------------------------------------
  // Write
  // ---------------------------------------------------------------------

  lemma ContentIsNoStructure(fs: Fs, fs': Fs)
    requires Tree(fs) && |fs'.inodes| == |fs.inodes| && fs'.count == fs.count
    requires forall j: nat :: j < |fs.inodes| ==> OnlyContentDiffers(fs.inodes[j], fs'.inodes[j])
    ensures Tree(fs')
  {
    assert forall j: nat :: Node(fs', j) <==> Node(fs, j);
    assert forall d: nat, c: nat :: IsChild(fs', d, c) <==> IsChild(fs, d, c);
    forall j: nat | Node(fs', j) ensures Rooted(fs', j) { RootedSame(fs, fs', j); }
    forall j: nat | Node(fs', j) ensures Linked(fs', j) { assert Linked(fs, j); }
    assert UsedSet(fs') == UsedSet(fs);
  }

  lemma WriteKeepsTree(fs: Fs, path: string, offset: nat, bytes: seq<Byte>)
    requires Tree(fs)
    ensures Tree(WriteStep(fs, path, offset, bytes).0)
    ensures forall cs :: Walk(WriteStep(fs, path, offset, bytes).0, 0, cs) == Walk(fs, 0, cs)
  {
    var (fs', r) := WriteStep(fs, path, offset, bytes);
    if r.Ok? {
      WriteLinks(fs, path, offset, bytes);
      hide WriteStep, Components, Tree;
      ContentIsNoStructure(fs, fs');
      forall cs ensures Walk(fs', 0, cs) == Walk(fs, 0, cs) { SameWalk(fs, fs', 0, cs); }
    }
  }

  /** A write changes only the content of one used file. */
  lemma WriteLinks(fs: Fs, path: string, offset: nat, bytes: seq<Byte>)
    requires Tree(fs) && WriteStep(fs, path, offset, bytes).1.Ok?
    ensures var fs' := WriteStep(fs, path, offset, bytes).0;
            && |fs'.inodes| == |fs.inodes| && fs'.count == fs.count
            && (forall j: nat :: j < |fs.inodes| ==> OnlyContentDiffers(fs.inodes[j], fs'.inodes[j]))
  {
    WalkReachesNodes(fs, Components(path));
  }

  predicate OnlyContentDiffers(a: Inode, b: Inode) {
    && b == a.(data := b.data, dataLen := b.dataLen) && |b.data| == |a.data|
    && (a.dataLen <= |a.data| ==> b.dataLen <= |b.data|)
  }

  lemma {:induction false} SameWalk(fs: Fs, fs': Fs, d: nat, cs: seq<string>)
    requires |fs'.inodes| == |fs.inodes|
    requires forall j: nat :: j < |fs.inodes| ==> OnlyContentDiffers(fs.inodes[j], fs'.inodes[j])
    ensures Walk(fs', d, cs) == Walk(fs, d, cs)
    decreases |cs|
  {
    if cs != [] && d < |fs.inodes| {
      SameLookup(fs, fs', fs.inodes[d].children, cs[0]);
      var next := Lookup(fs, fs.inodes[d].children, cs[0]);
      if next.Some? { SameWalk(fs, fs', next.value, cs[1..]); }
    }
  }

  lemma {:induction false} SameLookup(fs: Fs, fs': Fs, children: seq<nat>, name: string)
    requires |fs'.inodes| == |fs.inodes|
    requires forall j: nat :: j < |fs.inodes| ==> OnlyContentDiffers(fs.inodes[j], fs'.inodes[j])
    ensures Lookup(fs', children, name) == Lookup(fs, children, name)
  {
    if children != [] { SameLookup(fs, fs', children[1..], name); }
  }

  /** What was written is read back, and no other file changes. */
  lemma ReadAfterWrite(fs: Fs, path: string, offset: nat, bytes: seq<Byte>, other: string, from: nat, room: nat)
    requires Tree(fs) && WriteStep(fs, path, offset, bytes).1.Ok?
    ensures var fs' := WriteStep(fs, path, offset, bytes).0;
            && ReadOf(fs', path, offset, |bytes|) == Ok(bytes)
            && (Components(other) != Components(path) ==>
                  ReadOf(fs', other, from, room) == ReadOf(fs, other, from, room))
  {
    var fs' := WriteStep(fs, path, offset, bytes).0;
    WriteKeepsTree(fs, path, offset, bytes);
    WalkReachesNodes(fs, Components(path));
    assert Walk(fs', 0, Components(path)) == Walk(fs, 0, Components(path));
    assert Walk(fs', 0, Components(other)) == Walk(fs, 0, Components(other));
    if Components(other) != Components(path) && Resolve(fs, other).Ok? && Resolve(fs, other) == Resolve(fs, path) {
      PathIsUnique(fs, Components(other), Components(path));
    }
    hide Tree, Walk, Components;
    var i := Resolve(fs, path).value;
    assert fs'.inodes[i].data[offset..offset + |bytes|] == bytes;
  }

  // ---------------------------------------------------------------------
  // Whole runs
  // ---------------------------------------------------------------------

  datatype Op = Create(path: string, nodeType: NodeType) | Remove(path: string)
              | Write(path: string, offset: nat, bytes: seq<Byte>)

  function Apply(fs: Fs, op: Op): Fs {
    match op
    case Create(path, t) => CreateStep(fs, path, t).0
    case Remove(path) => RemoveStep(fs, path).0
    case Write(path, offset, bytes) => WriteStep(fs, path, offset, bytes).0
  }

  function Run(ops: seq<Op>): Fs {
    if ops == [] then NewFs() else Apply(Run(ops[..|ops| - 1]), ops[|ops| - 1])
  }

  lemma NewFsIsTree()
    ensures Tree(NewFs())
  {
    var fs := NewFs();
    assert Up(fs, 0, 0) == 0;
    assert forall j: nat :: Node(fs, j) <==> j == 0;
    assert UsedSet(fs) == {0};
    assert WellFormedInode(fs.inodes[0]);
  }

  /** A create, with room for it, of a name over 64 whose first 64 characters are a sibling's, or the removal of an
      empty root by a path of slashes. */
  ghost predicate Breaks(fs: Fs, op: Op) {
    match op
    case Create(path, t) =>
      var (parentPath, name) := SplitPath(path);
      && |name| > MAX_NAME && RoomFor(fs, path)
      && NameTaken(fs, Resolve(fs, parentPath).value, name[..MAX_NAME])
    case Remove(path) => |fs.inodes| > 0 && RemovesRoot(fs, path)
    case Write(_, _, _) => false
  }

  lemma StepKeepsTreeIff(fs: Fs, op: Op)
    requires Tree(fs)
    ensures Tree(Apply(fs, op)) <==> !Breaks(fs, op)
  {
    match op
    case Create(path, t) =>
      hide SplitPath, CreateStep, Tree, Resolve, RoomFor, NameTaken;
      CreateKeeps(fs, path, t);
      if |SplitPath(path).1| > MAX_NAME {
        LongCreateIff(fs, path, t);
        if RoomFor(fs, path) { CreateKeepsTreeIff(fs, path, t); }
      }
    case Remove(path) => RemoveKeepsTreeIff(fs, path);
    case Write(path, offset, bytes) => WriteKeepsTree(fs, path, offset, bytes);
  }

  ghost predicate TreeThroughout(ops: seq<Op>) {
    forall k :: 0 <= k <= |ops| ==> Tree(Run(ops[..k]))
  }

  ghost predicate NothingBreaks(ops: seq<Op>) {
    forall k :: 0 <= k < |ops| ==> !Breaks(Run(ops[..k]), ops[k])
  }

  /** The filesystem is a tree at every moment of a run if and only if no operation of the run is a breaking one. */
  lemma {:induction false} EveryRunIsATreeIff(ops: seq<Op>)
    ensures TreeThroughout(ops) <==> NothingBreaks(ops)
  {
    if ops == [] {
      NewFsIsTree();
    } else {
      var front, op := ops[..|ops| - 1], ops[|ops| - 1];
      hide TreeThroughout, NothingBreaks, Tree, Breaks, Apply;
      EveryRunIsATreeIff(front);
      ThroughoutSnoc(ops);
      if Tree(Run(front)) { StepKeepsTreeIff(Run(front), op); }
    }
  }

  lemma ThroughoutSnoc(ops: seq<Op>)
    requires ops != []
    ensures var front, op := ops[..|ops| - 1], ops[|ops| - 1];
            && (TreeThroughout(ops) <==> TreeThroughout(front) && Tree(Run(ops)))
            && (TreeThroughout(front) ==> Tree(Run(front)))
            && (NothingBreaks(ops) <==> NothingBreaks(front) && !Breaks(Run(front), op))
  {
    hide Run, Tree, Breaks;
    var front := ops[..|ops| - 1];
    assert ops[..|ops|] == ops && front[..|front|] == front;
    assert forall k :: 0 <= k <= |front| ==> front[..k] == ops[..k];
    if TreeThroughout(front) && Tree(Run(ops)) {
      forall k | 0 <= k <= |ops| ensures Tree(Run(ops[..k])) {
        if k < |ops| { assert Tree(Run(front[..k])); }
      }
    }
    if TreeThroughout(ops) {
      forall k | 0 <= k <= |front| ensures Tree(Run(front[..k])) { assert Tree(Run(ops[..k])); }
    }
  }

  /** Names fit, and no path of slashes is removed. */
  predicate Ordinary(op: Op) {
    match op
    case Create(path, _) => |SplitPath(path).1| <= MAX_NAME
    case Remove(path) => Components(path) != [] || path == "/" || path == ""
    case Write(_, _, _) => true
  }

  lemma OrdinaryNeverBreaks(fs: Fs, op: Op)
    requires Tree(fs) && Ordinary(op)
    ensures !Breaks(fs, op)
  {
  }

  /** So however it is used with names that fit and without removing paths of slashes, the filesystem is a tree. */
  lemma {:induction false} EveryRunIsATree(ops: seq<Op>)
    requires forall op :: op in ops ==> Ordinary(op)
    ensures Tree(Run(ops))
  {
    if ops == [] {
      NewFsIsTree();
    } else {
      var before, op := Run(ops[..|ops| - 1]), ops[|ops| - 1];
      EveryRunIsATree(ops[..|ops| - 1]);
      assert Ordinary(op);
      hide Tree, Run, Breaks;
      OrdinaryNeverBreaks(before, op);
      StepKeepsTreeIff(before, op);
    }
  }

  /** From boot, two creates suffice to break the tree. */
  lemma TwoCreatesBreakTheTree(name: string, more: string, t: NodeType)
    requires |name| == MAX_NAME && more != "" && '/' !in name + more
    ensures !Tree(Run([Create("/" + name, t), Create("/" + (name + more), t)]))
  {
    assert forall c :: c in name ==> c in name + more;
    FirstCreate(name, t);
    RunTwo(Create("/" + name, t), Create("/" + (name + more), t));
    hide Components, SplitPath, Tree, CreateStep, NewFs, Run, FirstUnused, Walk;
    LongNameCollides(CreateStep(NewFs(), "/" + name, t).0, name, more, t);
  }

  lemma RunTwo(first: Op, second: Op)
    ensures Run([first, second]) == Apply(Apply(NewFs(), first), second)
  {
    assert [first, second][..1] == [first] && [first][..0] == [];
    assert Run([first]) == Apply(NewFs(), first);
  }

  /** After one create in a new filesystem there is a tree with that name in it and room for more. */
  lemma FirstCreate(name: string, t: NodeType)
    requires 1 <= |name| <= MAX_NAME && '/' !in name
    ensures var fs := CreateStep(NewFs(), "/" + name, t).0;
            && Tree(fs) && Resolve(fs, "/" + name).Ok?
            && FirstUnused(fs, 1).Some? && |fs.inodes[0].children| < MAX_CHILDREN
  {
    RootName(name);
    NewFsIsTree();
    NothingInNewFs(name);
    hide Components, SplitPath, Tree, Walk, FirstUnused;
    assert Walk(NewFs(), 0, []) == Ok(0) by { WalkNowhere(NewFs()); }
    CreateKeeps(NewFs(), "/" + name, t);
    var fs := CreateStep(NewFs(), "/" + name, t).0;
    assert fs == Attach(NewFs(), 0, 1, name, t);
    assert !fs.inodes[2].used;
  }

  lemma WalkNowhere(fs: Fs)
    ensures Walk(fs, 0, []) == Ok(0)
  {
  }

  lemma NothingInNewFs(name: string)
    ensures Walk(NewFs(), 0, [name]).Err? && FirstUnused(NewFs(), 1) == Some(1)
  {
    assert NewFs().inodes[0].children == [];
    assert Lookup(NewFs(), [], name) == None;
  }
}
