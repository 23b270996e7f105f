/** Slash-separated paths: their components, and the split into parent path and last name. */
module Path {

  /** Splitting from left to right: the non-empty pieces ended by a slash so far, and the piece under way. */
  function Split(p: string): (seq<string>, string) {
    if p == "" then ([], "")
    else
      var (done, piece) := Split(p[..|p| - 1]);
      var c := p[|p| - 1];
      if c != '/' then (done, piece + [c]) else (Push(done, piece), "")
  }

  function Push(done: seq<string>, piece: string): seq<string> {
    if piece == "" then done else done + [piece]
  }

  /** The non-empty pieces between slashes, in order. */
  function Components(p: string): seq<string> {
    var (done, piece) := Split(p);
    Push(done, piece)
  }

  /** `trim_end_matches('/')`. */
  function TrimEnd(p: string): (t: string)
    ensures |t| <= |p| && (t == "" || t[|t| - 1] != '/')
  {
    if p == "" || p[|p| - 1] != '/' then p else TrimEnd(p[..|p| - 1])
  }

  /** The position after the last slash, or zero. */
  function NameStart(p: string): (i: nat)
    ensures i <= |p| && (i > 0 ==> p[i - 1] == '/') && (p != "" && p[|p| - 1] != '/' ==> i < |p|)
  {
    if p == "" || p[|p| - 1] == '/' then |p| else NameStart(p[..|p| - 1])
  }

  /** `split_path`: the path without its last name, and that name. */
  function SplitPath(p: string): (string, string) {
    var t := TrimEnd(p);
    var i := NameStart(t);
    if i == 0 then ("/", t)
    else (if i == 1 then "/" else t[..i - 1], t[i..])
  }

  lemma {:induction false} TrimKeepsComponents(p: string)
    ensures Components(TrimEnd(p)) == Components(p)
  {
    if p != "" && p[|p| - 1] == '/' { TrimKeepsComponents(p[..|p| - 1]); }
  }

  /** The piece under way is what follows the last slash. */
  lemma {:induction false} SplitAtName(t: string)
    ensures Split(t) == (Components(t[..NameStart(t)]), t[NameStart(t)..])
  {
    if t == "" || t[|t| - 1] == '/' {
      assert t[..|t|] == t && t[|t|..] == "";
    } else {
      var t' := t[..|t| - 1];
      var i := NameStart(t');
      SplitAtName(t');
      assert t[..i] == t'[..i] && t[i..] == t'[i..] + [t[|t| - 1]];
    }
  }

  lemma SlashAddsNoComponent(p: string)
    ensures Components(p + "/") == Components(p)
  {
    assert (p + "/")[..|p|] == p;
  }

  /** A path with a name is not the root's. */
  lemma NameIsComponent(p: string)
    requires SplitPath(p).1 != ""
    ensures Components(p) != []
  {
    TrimKeepsComponents(p);
    SplitAtName(TrimEnd(p));
  }

  /** A path that names something splits into its parent's components and its last one. */
  lemma SplitPathComponents(p: string)
    requires Components(p) != []
    ensures var (parent, name) := SplitPath(p); Components(p) == Components(parent) + [name]
  {
    var t := TrimEnd(p);
    var i := NameStart(t);
    TrimKeepsComponents(p);
    SplitAtName(t);
    SlashAddsNoComponent("");
    if i > 0 {
      assert t[..i] == t[..i - 1] + "/";
      SlashAddsNoComponent(t[..i - 1]);
    }
  }

  /** Components are what they should be: non-empty and free of slashes. */
  lemma {:induction false} SplitPieces(p: string)
    ensures var (done, piece) := Split(p);
            '/' !in piece && forall c :: c in done ==> c != "" && '/' !in c
  {
    if p != "" { SplitPieces(p[..|p| - 1]); }
  }

  lemma ComponentsAreNames(p: string)
    ensures forall c :: c in Components(p) ==> c != "" && '/' !in c
  {
    SplitPieces(p);
  }

  /** The names, each after a slash. */
  function Spelled(names: seq<string>): string {
    if names == [] then "" else Spelled(names[..|names| - 1]) + "/" + names[|names| - 1]
  }

  lemma {:induction false} SplitAfterSlash(p: string, name: string)
    requires '/' !in name
    ensures Split(p + "/" + name) == (Components(p), name)
  {
    var q := p + "/" + name;
    if name == "" {
      assert q[..|q| - 1] == p;
    } else {
      var front := name[..|name| - 1];
      assert q[..|q| - 1] == p + "/" + front;
      SplitAfterSlash(p, front);
      assert name == front + [name[|name| - 1]] && name[|name| - 1] in name;
    }
  }

  /** Spelling names out and taking the path apart gives them back. */
  lemma {:induction false} SpelledComponents(names: seq<string>)
    requires forall n :: n in names ==> n != "" && '/' !in n
    ensures Components(Spelled(names)) == names
  {
    if names != [] {
      var front, last := names[..|names| - 1], names[|names| - 1];
      assert last in names && forall n :: n in front ==> n in names;
      SpelledComponents(front);
      SplitAfterSlash(Spelled(front), last);
    }
  }

  lemma {:induction false} NameAfterSlash(name: string)
    requires '/' !in name
    ensures NameStart("/" + name) == 1
  {
    var p := "/" + name;
    if name != "" {
      assert p[..|p| - 1] == "/" + name[..|name| - 1];
      NameAfterSlash(name[..|name| - 1]);
    }
  }

  /** A name directly below the root. */
  lemma RootName(name: string)
    requires name != "" && '/' !in name
    ensures SplitPath("/" + name) == ("/", name) && Components("/" + name) == [name] && Components("/") == []
  {
    var p := "/" + name;
    NameAfterSlash(name);
    SplitAtName(p);
    SlashAddsNoComponent("");
    assert p[..1] == "/" && "" + "/" == "/" && p[1..] == name;
    assert TrimEnd(p) == p;
  }
}
