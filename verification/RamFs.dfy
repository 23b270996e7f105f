/** The filesystem as the kernel stores it: 256 inode slots updated in place. */
module RamFs {
  import opened Common
  import opened Path
  import opened RamFsModel
  import opened RamFsTree

  /** Every stored index is a slot number and every buffer has its full size. */
  ghost predicate InBounds(fs: Fs) {
    && |fs.inodes| == MAX_INODES
    && forall i :: 0 <= i < MAX_INODES ==> InodeInBounds(fs.inodes[i])
  }

  ghost predicate InodeInBounds(n: Inode) {
    && |n.data| == MAX_FILE_SIZE && n.dataLen <= MAX_FILE_SIZE && n.parent < MAX_INODES
    && forall c :: c in n.children ==> c < MAX_INODES
  }

  /** A walk from the root ends at the root or at a used slot. */
  lemma {:induction false} WalkEndsAtSlot(fs: Fs, d: nat, cs: seq<string>)
    requires d == 0 || Node(fs, d)
    requires Walk(fs, d, cs).Ok?
    ensures Walk(fs, d, cs).value == 0 || Node(fs, Walk(fs, d, cs).value)
    decreases |cs|
  {
    if cs != [] {
      LookupFinds(fs, fs.inodes[d].children, cs[0]);
      WalkEndsAtSlot(fs, Lookup(fs, fs.inodes[d].children, cs[0]).value, cs[1..]);
    }
  }

  lemma WithoutBounds(s: seq<nat>, x: nat)
    ensures forall c :: c in Without(s, x) ==> c in s
  {
  }

  class RamFs {
    const inodes: array<Inode>
    var inodeCount: nat

    ghost function View(): Fs
      reads this, inodes
    {
      Fs(inodes[..], inodeCount)
    }

    ghost predicate Valid()
      reads this, inodes
    {
      inodes.Length == MAX_INODES && InBounds(View())
    }

    constructor ()
      ensures Valid() && View() == NewFs() && fresh(inodes)
    {
      inodes := new Inode[MAX_INODES](_ => Empty());
      inodeCount := 1;
      new;
      inodes[0] := Root();
      assert inodes[..] == NewFs().inodes;
    }

    /** The first child with this name. */
    method FindChild(children: seq<nat>, name: string) returns (found: Option<nat>)
      requires Valid() && forall c :: c in children ==> c < MAX_INODES
      ensures found == Lookup(View(), children, name)
    {
      for k := 0 to |children|
        invariant Lookup(View(), children, name) == Lookup(View(), children[k..], name)
      {
        var c := children[k];
        assert c in children;
        if inodes[c].used && inodes[c].name == name { return Some(c); }
        assert children[k..][1..] == children[k + 1..];
      }
      found := None;
    }

    method ResolvePath(path: string) returns (r: VfsResult<nat>)
      requires Valid()
      ensures r == Resolve(View(), path)
      ensures r.Ok? ==> r.value < MAX_INODES && (r.value == 0 || Node(View(), r.value))
    {
      var cs := Components(path);
      var current: nat := 0;
      for k := 0 to |cs|
        invariant current < MAX_INODES
        invariant Walk(View(), 0, cs) == Walk(View(), current, cs[k..])
      {
        if inodes[current].nodeType != Directory { return Err(NotADirectory); }
        assert InodeInBounds(inodes[..][current]);
        var next := FindChild(inodes[current].children, cs[k]);
        if next == None { return Err(NotFound); }
        LookupFinds(View(), inodes[current].children, cs[k]);
        assert cs[k..][1..] == cs[k + 1..];
        current := next.value;
      }
      assert Walk(View(), current, []) == Ok(current);
      WalkEndsAtSlot(View(), 0, cs);
      r := Ok(current);
    }

    method AllocInode() returns (slot: Option<nat>)
      requires Valid()
      ensures slot == FirstUnused(View(), 1)
    {
      for i := 1 to MAX_INODES
        invariant FirstUnused(View(), 1) == FirstUnused(View(), i)
      {
        if !inodes[i].used { return Some(i); }
      }
      slot := None;
    }

    method Create(path: string, nodeType: NodeType) returns (r: VfsResult<()>)
      requires Valid()
      modifies this, inodes
      ensures Valid() && (View(), r) == CreateStep(old(View()), path, nodeType)
    {
      var existing := ResolvePath(path);
      if existing.Ok? { return Err(AlreadyExists); }
      var (parentPath, name) := SplitPath(path);
      var parent := ResolvePath(parentPath);
      if parent.Err? { return Err(parent.error); }
      var p := parent.value;
      if inodes[p].nodeType != Directory { return Err(NotADirectory); }
      if |inodes[p].children| >= MAX_CHILDREN { return Err(NoSpace); }
      var slot := AllocInode();
      if slot == None { return Err(NoSpace); }
      var i := slot.value;
      Link(p, i, name, nodeType);
      r := Ok(());
    }

    method Link(p: nat, i: nat, name: string, nodeType: NodeType)
      requires Valid() && p < MAX_INODES && i < MAX_INODES && p != i
      modifies this, inodes
      ensures Valid() && View() == Attach(old(View()), p, i, name, nodeType)
    {
      ghost var before := inodes[..];
      assert InodeInBounds(before[p]);
      inodes[i] := Empty().(used := true, nodeType := nodeType, name := Stored(name), parent := p);
      inodeCount := inodeCount + 1;
      inodes[p] := inodes[p].(children := inodes[p].children + [i]);
      assert inodes[..] == before[i := inodes[i]][p := inodes[p]];
    }

    method Remove(path: string) returns (r: VfsResult<()>)
      requires Valid()
      modifies this, inodes
      ensures Valid() && (View(), r) == RemoveStep(old(View()), path)
    {
      if path == "/" || path == "" { return Err(InvalidPath); }
      var target := ResolvePath(path);
      if target.Err? { return Err(target.error); }
      var i := target.value;
      assert InodeInBounds(inodes[..][i]);
      if inodes[i].nodeType == Directory && inodes[i].children != [] { return Err(IoError); }
      Unlink(i);
      r := Ok(());
    }

    method Unlink(i: nat)
      requires Valid() && i < MAX_INODES && inodes[i].parent < MAX_INODES
      modifies this, inodes
      ensures Valid() && View() == Detach(old(View()), i)
    {
      var p := inodes[i].parent;
      ghost var before := inodes[..];
      assert InodeInBounds(before[p]) && InodeInBounds(before[i]);
      WithoutBounds(inodes[p].children, i);
      inodes[p] := inodes[p].(children := Without(inodes[p].children, i));
      ghost var unlinked := inodes[..];
      assert unlinked == before[p := inodes[p]];
      inodes[i] := inodes[i].(used := false);
      inodeCount := SaturatingSub(inodeCount, 1);
      assert inodes[..] == unlinked[i := inodes[i]];
    }

    method Write(path: string, offset: nat, bytes: seq<Byte>) returns (r: VfsResult<nat>)
      requires Valid()
      modifies this, inodes
      ensures Valid() && (View(), r) == WriteStep(old(View()), path, offset, bytes)
    {
      var target := ResolvePath(path);
      if target.Err? { return Err(target.error); }
      var i := target.value;
      assert InodeInBounds(inodes[..][i]);
      if inodes[i].nodeType != File { return Err(NotAFile); }
      var node, end := inodes[i], offset + |bytes|;
      if end > MAX_FILE_SIZE { return Err(NoSpace); }
      var data := node.data[..offset] + bytes + node.data[end..];
      ghost var before := inodes[..];
      inodes[i] := node.(data := data, dataLen := if end > node.dataLen then end else node.dataLen);
      assert inodes[..] == before[i := inodes[i]];
      r := Ok(|bytes|);
    }

    method Read(path: string, offset: nat, buffer: array<Byte>) returns (r: VfsResult<nat>)
      requires Valid() && inodes as object != buffer as object
      modifies buffer
      ensures match ReadOf(old(View()), path, offset, buffer.Length)
              case Ok(bytes) => && r == Ok(|bytes|) && |bytes| <= buffer.Length && buffer[..|bytes|] == bytes
                                && buffer[|bytes|..] == old(buffer[..])[|bytes|..]
              case Err(e) => r == Err(e) && buffer[..] == old(buffer[..])
    {
      var target := ResolvePath(path);
      if target.Err? { return Err(target.error); }
      var node := inodes[target.value];
      assert InodeInBounds(inodes[..][target.value]);
      if node.nodeType != File { return Err(NotAFile); }
      if offset >= node.dataLen { return Ok(0); }
      var n := Min(buffer.Length, node.dataLen - offset);
      forall k | 0 <= k < n { buffer[k] := node.data[offset + k]; }
      assert buffer[..n] == node.data[offset..offset + n];
      r := Ok(n);
    }
  }
}
