/** The filesystem stays a tree, every node has exactly one path, and operations touch only their own path. */
module RamFsTree {
  import opened Common
  import opened RamFsModel

  // ---------------------------------------------------------------------
  // Paths in a tree
  // ---------------------------------------------------------------------

  lemma {:induction false} LookupFinds(fs: Fs, children: seq<nat>, name: string)
    ensures var r := Lookup(fs, children, name);
            if r.Some? then r.value in children && Node(fs, r.value) && fs.inodes[r.value].name == name
            else forall c :: c in children && Node(fs, c) ==> fs.inodes[c].name != name
  {
    if children != [] { LookupFinds(fs, children[1..], name); }
  }

  /** Walking one component further. */
  lemma {:induction false} WalkSnoc(fs: Fs, from: nat, cs: seq<string>, name: string)
    ensures Walk(fs, from, cs + [name])
         == match Walk(fs, from, cs)
            case Err(e) => Err(e)
            case Ok(d) => Walk(fs, d, [name])
    decreases |cs|
  {
    if cs == [] {
      assert cs + [name] == [name];
    } else {
      assert (cs + [name])[1..] == cs[1..] + [name];
      if from < |fs.inodes| && fs.inodes[from].nodeType == Directory {
        var next := Lookup(fs, fs.inodes[from].children, cs[0]);
        if next.Some? { WalkSnoc(fs, next.value, cs[1..], name); }
      }
    }
  }

  lemma WalkOne(fs: Fs, d: nat, name: string)
    requires d < |fs.inodes|
    ensures Walk(fs, d, [name])
         == if fs.inodes[d].nodeType != Directory then Err(NotADirectory)
            else match Lookup(fs, fs.inodes[d].children, name)
                 case None => Err(NotFound)
                 case Some(c) => Ok(c)
  {
    assert [name][1..] == [];
  }

  /** One step of a walk, as a relation on the tree. */
  lemma StepInTree(fs: Fs, d: nat, name: string)
    requires Tree(fs) && Node(fs, d)
    ensures var r := Walk(fs, d, [name]);
            && (r.Ok? ==> Named(fs, d, name, r.value))
            && (r.Err? ==> forall c :: !Named(fs, d, name, c))
            && (r.Err? ==> r.error == if fs.inodes[d].nodeType == Directory then NotFound else NotADirectory)
  {
    hide UpLinks, AllRooted, NamesDiffer, UsedSet;
    WalkOne(fs, d, name);
    LookupFinds(fs, fs.inodes[d].children, name);
    hide Walk, Lookup;
    var found := Lookup(fs, fs.inodes[d].children, name);
    if found.Some? { assert IsChild(fs, d, found.value); }
  }

  /** `c` is the child of `d` called `name`. */
  predicate Named(fs: Fs, d: nat, name: string, c: nat) {
    IsChild(fs, d, c) && Node(fs, c) && fs.inodes[c].name == name && c != 0 && fs.inodes[c].parent == d
  }

  lemma {:induction false} WalkReachesNodes(fs: Fs, cs: seq<string>)
    requires Tree(fs) && Walk(fs, 0, cs).Ok?
    ensures Node(fs, Walk(fs, 0, cs).value)
    ensures cs != [] ==> Walk(fs, 0, cs[..|cs| - 1]).Ok?
                         && var d, c := Walk(fs, 0, cs[..|cs| - 1]).value, Walk(fs, 0, cs).value;
                            c != 0 && Node(fs, d) && fs.inodes[c].parent == d && fs.inodes[c].name == cs[|cs| - 1]
  {
    hide DownLinks, UpLinks, NamesDiffer, AllRooted, UsedSet;
    if cs != [] {
      var a, n := cs[..|cs| - 1], cs[|cs| - 1];
      assert cs == a + [n];
      WalkSnoc(fs, 0, a, n);
      hide Walk;
      WalkReachesNodes(fs, a);
      StepInTree(fs, Walk(fs, 0, a).value, n);
    }
  }

  /** A node is reached by no more than one list of components. */
  lemma {:induction false} PathIsUnique(fs: Fs, a: seq<string>, b: seq<string>)
    requires Tree(fs) && Walk(fs, 0, a).Ok? && Walk(fs, 0, a) == Walk(fs, 0, b)
    ensures a == b
    decreases |a|
  {
    WalkReachesNodes(fs, a);
    WalkReachesNodes(fs, b);
    hide Tree;
    if a != [] && b != [] {
      PathIsUnique(fs, a[..|a| - 1], b[..|b| - 1]);
      assert a == a[..|a| - 1] + [a[|a| - 1]] && b == b[..|b| - 1] + [b[|b| - 1]];
    }
  }

  /** And by at least one. */
  lemma {:induction false} EveryNodeHasPath(fs: Fs, i: nat, k: nat) returns (cs: seq<string>)
    requires Tree(fs) && Node(fs, i) && Up(fs, i, k) == 0
    ensures Walk(fs, 0, cs) == Ok(i)
    decreases k
  {
    if i == 0 {
      cs := [];
    } else {
      var p, name := fs.inodes[i].parent, fs.inodes[i].name;
      assert Linked(fs, i);
      hide UpLinks, AllRooted, UsedSet;
      var up := EveryNodeHasPath(fs, p, k - 1);
      cs := up + [name];
      WalkSnoc(fs, 0, up, name);
      StepInTree(fs, p, name);
      assert Named(fs, p, name, i);
    }
  }

  // ---------------------------------------------------------------------
  // Attaching and detaching a leaf keep the tree
  // ---------------------------------------------------------------------

  /** Parent links of nodes are the same, so is where they lead. */
  lemma {:induction false} UpSame(fs: Fs, fs': Fs, j: nat, k: nat)
    requires Tree(fs) && Node(fs, j) && |fs'.inodes| == |fs.inodes|
    requires forall x: nat :: Node(fs, x) ==> fs'.inodes[x].parent == fs.inodes[x].parent
    ensures Up(fs', j, k) == Up(fs, j, k)
    decreases k
  {
    if k > 0 && j != 0 {
      assert Linked(fs, j);
      UpSame(fs, fs', fs.inodes[j].parent, k - 1);
    }
  }

  lemma RootedSame(fs: Fs, fs': Fs, j: nat)
    requires Tree(fs) && Node(fs, j) && |fs'.inodes| == |fs.inodes|
    requires forall x: nat :: Node(fs, x) ==> fs'.inodes[x].parent == fs.inodes[x].parent
    ensures Rooted(fs', j)
  {
    assert Rooted(fs, j);
    var k: nat :| Up(fs, j, k) == 0;
    UpSame(fs, fs', j, k);
  }

  /** A directory with room, a free slot, and (for the tree) a name no sibling has. */
  predicate CanAttach(fs: Fs, p: nat, i: nat) {
    && Node(fs, p) && fs.inodes[p].nodeType == Directory && |fs.inodes[p].children| < MAX_CHILDREN
    && 0 < i < |fs.inodes| && !fs.inodes[i].used
  }

  ghost predicate NameTaken(fs: Fs, p: nat, name: string) {
    exists c: nat :: Named(fs, p, name, c)
  }

  lemma AttachLinks(fs: Fs, p: nat, i: nat, name: string, t: NodeType)
    requires Tree(fs) && CanAttach(fs, p, i)
    ensures var fs' := Attach(fs, p, i, name, t);
            && (forall j: nat :: Node(fs', j) <==> Node(fs, j) || j == i)
            && (forall d: nat, c: nat :: IsChild(fs', d, c) <==> IsChild(fs, d, c) || (d == p && c == i))
            && (forall j: nat :: Node(fs, j) && j != p ==> fs'.inodes[j] == fs.inodes[j])
            && (forall d: nat :: !IsChild(fs, d, i))
  {
  }

  lemma AttachLayout(fs: Fs, p: nat, i: nat, name: string, t: NodeType)
    requires Tree(fs) && CanAttach(fs, p, i)
    ensures var fs' := Attach(fs, p, i, name, t); Layout(fs') && DownLinks(fs') && UpLinks(fs')
  {
    hide AllRooted, NamesDiffer, UsedSet;
    var fs' := Attach(fs, p, i, name, t);
    AttachLinks(fs, p, i, name, t);
    assert !IsChild(fs, p, i);
    assert WellFormedInode(fs'.inodes[p]) && WellFormedInode(fs'.inodes[i]);
    forall j: nat | Node(fs', j) ensures Linked(fs', j) {
      if j != i { assert Linked(fs, j); }
    }
  }

  lemma AttachNames(fs: Fs, p: nat, i: nat, name: string, t: NodeType)
    requires Tree(fs) && CanAttach(fs, p, i)
    ensures NamesDiffer(Attach(fs, p, i, name, t)) <==> !NameTaken(fs, p, Stored(name))
  {
    hide AllRooted, UpLinks, UsedSet;
    var fs' := Attach(fs, p, i, name, t);
    AttachLinks(fs, p, i, name, t);
    if NameTaken(fs, p, Stored(name)) {
      var c: nat :| Named(fs, p, Stored(name), c);
      assert IsChild(fs', p, c) && IsChild(fs', p, i) && c != i && fs'.inodes[c].name == fs'.inodes[i].name;
    } else {
      forall d: nat, c: nat, c': nat
        | IsChild(fs', d, c) && IsChild(fs', d, c') && Node(fs', c) && Node(fs', c') && c != c'
        ensures fs'.inodes[c].name != fs'.inodes[c'].name
      {
        if c == i { assert !Named(fs, p, Stored(name), c'); }
        else if c' == i { assert !Named(fs, p, Stored(name), c); }
        else { assert IsChild(fs, d, c) && IsChild(fs, d, c'); }
      }
    }
  }

  lemma AttachKeepsTree(fs: Fs, p: nat, i: nat, name: string, t: NodeType)
    requires Tree(fs) && CanAttach(fs, p, i)
    ensures Tree(Attach(fs, p, i, name, t)) <==> !NameTaken(fs, p, Stored(name))
  {
    AttachLayout(fs, p, i, name, t);
    AttachNames(fs, p, i, name, t);
    AttachRooted(fs, p, i, name, t);
    AttachCount(fs, p, i, name, t);
    hide Layout, DownLinks, UpLinks, NamesDiffer, AllRooted, UsedSet, Attach, NameTaken;
  }

  lemma AttachRooted(fs: Fs, p: nat, i: nat, name: string, t: NodeType)
    requires Tree(fs) && CanAttach(fs, p, i)
    ensures AllRooted(Attach(fs, p, i, name, t))
  {
    var fs' := Attach(fs, p, i, name, t);
    forall j: nat | Node(fs', j) ensures Rooted(fs', j) {
      RootedSame(fs, fs', p);
      if j == i {
        var k: nat :| Up(fs', p, k) == 0;
        assert Up(fs', i, k + 1) == 0;
      } else {
        RootedSame(fs, fs', j);
      }
    }
  }

  lemma AttachCount(fs: Fs, p: nat, i: nat, name: string, t: NodeType)
    requires Tree(fs) && CanAttach(fs, p, i)
    ensures var fs' := Attach(fs, p, i, name, t); fs'.count == |UsedSet(fs')|
  {
    AttachLinks(fs, p, i, name, t);
    var fs' := Attach(fs, p, i, name, t);
    assert UsedSet(fs') == UsedSet(fs) + {i};
  }

  lemma WithoutMembers(s: seq<nat>, x: nat)
    requires Distinct(s) && x in s
    ensures Distinct(Without(s, x)) && |Without(s, x)| == |s| - 1
    ensures forall y :: y in Without(s, x) <==> y in s && y != x
  {
    var k := Position(s, x);
    forall y | y in s && y != x ensures y in Without(s, x) {
      var j :| 0 <= j < |s| && s[j] == y;
      assert Without(s, x)[if j < k then j else j - 1] == y;
    }
  }

  /** A leaf that its parent lists. */
  predicate CanDetach(fs: Fs, i: nat) {
    Node(fs, i) && i != 0 && fs.inodes[i].children == [] && Linked(fs, i)
  }

  lemma DetachLinks(fs: Fs, i: nat)
    requires Tree(fs) && CanDetach(fs, i)
    ensures var fs', p := Detach(fs, i), fs.inodes[i].parent;
            && Node(fs', p) && p != i
            && fs'.inodes[p] == fs.inodes[p].(children := Without(fs.inodes[p].children, i))
            && (forall j: nat :: Node(fs', j) <==> Node(fs, j) && j != i)
            && (forall j: nat :: Node(fs', j) && j != p ==> fs'.inodes[j] == fs.inodes[j])
  {
    hide AllRooted, NamesDiffer, UsedSet;
    assert i !in fs.inodes[i].children;
  }

  lemma DetachChildren(fs: Fs, i: nat)
    requires Tree(fs) && CanDetach(fs, i)
    ensures forall d: nat, c: nat :: IsChild(Detach(fs, i), d, c) <==> IsChild(fs, d, c) && c != i
  {
    DetachLinks(fs, i);
    var fs', p := Detach(fs, i), fs.inodes[i].parent;
    WithoutMembers(fs.inodes[p].children, i);
    hide Detach, Without, AllRooted, NamesDiffer, UsedSet;
    forall d: nat, c: nat ensures IsChild(fs', d, c) <==> IsChild(fs, d, c) && c != i {
      if IsChild(fs, d, c) && c == i { assert d == p; }
    }
  }

  lemma DetachLayout(fs: Fs, i: nat)
    requires Tree(fs) && CanDetach(fs, i)
    ensures var fs' := Detach(fs, i); Layout(fs') && DownLinks(fs') && UpLinks(fs') && NamesDiffer(fs')
  {
    DetachLinks(fs, i);
    DetachChildren(fs, i);
    var fs', p := Detach(fs, i), fs.inodes[i].parent;
    WithoutMembers(fs.inodes[p].children, i);
    assert |fs'.inodes| == |fs.inodes|;
    hide Detach, Without, AllRooted, UsedSet;
    assert WellFormedInode(fs'.inodes[p]);
    forall j: nat | Node(fs', j) ensures Linked(fs', j) { assert Linked(fs, j); }
  }

  lemma DetachKeepsTree(fs: Fs, i: nat)
    requires Tree(fs) && CanDetach(fs, i)
    ensures Tree(Detach(fs, i))
  {
    var fs' := Detach(fs, i);
    DetachLayout(fs, i);
    DetachLinks(fs, i);
    assert forall x: nat :: Node(fs, x) ==> fs'.inodes[x].parent == fs.inodes[x].parent;
    forall j: nat | Node(fs', j) ensures Rooted(fs', j) { RootedSame(fs, fs', j); }
    hide Layout, DownLinks, UpLinks, NamesDiffer, Rooted;
    assert UsedSet(fs') == UsedSet(fs) - {i};
  }
}
