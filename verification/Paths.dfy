/**
 * Paths as `std::path` reads them on Unix, and the arithmetic on them that finds the module path an
 * import names (src/adapters/imports.rs:331-399).
 */
module Paths {
  import opened Text

  datatype Component = Root | Cur | Up | Normal(name: string)

  type Path = seq<Component>

  // ----- reading a path -----

  /** What stands between two slashes; a dot counts only at the very beginning. */
  function PartOf(part: string, first: bool): Path {
    if part == "" then []
    else if part == "." then (if first then [Cur] else [])
    else if part == ".." then [Up]
    else [Normal(part)]
  }

  function Later(parts: seq<string>): Path {
    if |parts| == 0 then [] else PartOf(parts[0], false) + Later(parts[1..])
  }

  function Head(path: string, part: string): Path { if "/" <= path then [Root] else PartOf(part, true) }

  /** `Path::components` */
  function Components(path: string): Path {
    var parts := Split(path, '/');
    Head(path, parts[0]) + Later(parts[1..])
  }

  /** `Path::parent` */
  function Parent(path: Path): Option<Path> {
    if |path| == 0 || path[|path| - 1] == Root then None else Some(path[..|path| - 1])
  }

  function ParentOrEmpty(path: Path): Path { match Parent(path) case None => [] case Some(dir) => dir }

  /** `Path::file_name` */
  function FileName(path: Path): Option<string> {
    if |path| > 0 && path[|path| - 1].Normal? then Some(path[|path| - 1].name) else None
  }

  /** `Path::file_stem` and `Path::extension`: a dot that comes first separates nothing. */
  function StemOf(name: string): string {
    match LastDot(name, |name|)
    case None => name
    case Some(dot) => if dot == 0 then name else name[..dot]
  }

  function ExtensionOf(name: string): Option<string> {
    match LastDot(name, |name|)
    case None => None
    case Some(dot) => if dot == 0 then None else Some(name[dot + 1..])
  }

  function Extension(path: Path): Option<string> {
    match FileName(path)
    case None => None
    case Some(name) => ExtensionOf(name)
  }

  // ----- joining -----

  /** `Path::join` on the text of two paths. */
  function Joined(dir: string, path: string): string {
    if "/" <= path then path
    else if dir == "" || dir[|dir| - 1] == '/' then dir + path
    else dir + "/" + path
  }

  function WithoutCur(path: Path): Path { if |path| > 0 && path[0] == Cur then path[1..] else path }

  /** `Path::join` on components. */
  function JoinedTo(dir: Path, path: string): Path {
    if "/" <= path || dir == [] then Components(path) else dir + WithoutCur(Components(path))
  }

  lemma {:induction false} LaterAppend(a: seq<string>, b: seq<string>)
    ensures Later(a + b) == Later(a) + Later(b)
  {
    if |a| == 0 {
      assert a + b == b;
    } else {
      assert (a + b)[0] == a[0] && (a + b)[1..] == a[1..] + b;
      LaterAppend(a[1..], b);
    }
  }

  lemma {:induction false} LaterIsPlain(parts: seq<string>)
    ensures forall c :: c in Later(parts) ==> c != Root && c != Cur
  {
    if |parts| > 0 { LaterIsPlain(parts[1..]); }
  }

  lemma NamesAreRelative(s: string)
    requires '/' !in s
    ensures !("/" <= s)
  {
    if s != "" { assert s[0] in s; }
  }

  /** The text before its first slash. */
  lemma FirstPart(path: string)
    ensures path != "" && !("/" <= path) ==> Split(path, '/')[0] != ""
    ensures "/" <= path ==> Split(path, '/')[0] == ""
  {
  }

  lemma ComponentsOfEmpty()
    ensures Components("") == []
  {
    assert Split("", '/')[1..] == [];
  }

  lemma NotEmpty(path: string)
    ensures Components(path) == [] <==> path == ""
  {
    FirstPart(path);
    ComponentsOfEmpty();
  }

  lemma LaterOf(parts: seq<string>)
    requires |parts| > 0
    ensures Later(parts) == PartOf(parts[0], false) + Later(parts[1..])
  {
    hide PartOf;
  }

  /** A path read after a slash loses a leading dot. */
  lemma ReadLater(path: string)
    requires !("/" <= path)
    ensures Later(Split(path, '/')) == WithoutCur(Components(path))
  {
    hide Split, Later;
    var parts := Split(path, '/');
    var later := Later(parts[1..]);
    LaterIsPlain(parts[1..]);
    LaterOf(parts);
    assert ([Cur] + later)[1..] == later && [] + later == later;
    assert |later| > 0 ==> later[0] in later;
  }

  lemma HeadOfAppend(a: string, middle: string, b: string, part: string)
    requires a != ""
    ensures Head(a + middle + b, part) == Head(a, part)
  {
    assert (a + middle + b)[0] == a[0];
    hide PartOf;
  }

  /** Two parts around a slash. */
  lemma ComponentsAtSlash(a: string, b: string)
    requires !("/" <= b) && a != ""
    ensures Components(a + "/" + b) == Components(a) + WithoutCur(Components(b))
  {
    hide Split, Later, Head, PartOf, WithoutCur;
    var s := a + "/" + b;
    var front, back := Split(a, '/'), Split(b, '/');
    SplitAtSep(a, '/', b);
    assert (front + back)[0] == front[0] && (front + back)[1..] == front[1..] + back;
    LaterAppend(front[1..], back);
    ReadLater(b);
    HeadOfAppend(a, "/", b, front[0]);
    assert Head(a, front[0]) + (Later(front[1..]) + Later(back)) == Head(a, front[0]) + Later(front[1..]) + Later(back);
  }

  lemma RootSlash(b: string)
    requires !("/" <= b)
    ensures Components("/" + b) == [Root] + WithoutCur(Components(b))
  {
    SplitAtSep("", '/', b);
    assert "" + "/" + b == "/" + b;
    assert Split("", '/') == [""];
    var back := Split(b, '/');
    assert ([""] + back)[1..] == back;
    ReadLater(b);
  }

  /** Joining the texts joins the components. */
  lemma JoinedIs(dir: string, path: string)
    ensures Components(Joined(dir, path)) == JoinedTo(Components(dir), path)
  {
    NotEmpty(dir);
    hide Components, WithoutCur;
    if "/" <= path {
    } else if dir == "" {
      assert "" + path == path;
    } else if dir[|dir| - 1] != '/' {
      ComponentsAtSlash(dir, path);
    } else {
      SlashJoin(dir[..|dir| - 1], path);
      assert dir == dir[..|dir| - 1] + "/";
    }
  }

  lemma SlashJoin(front: string, path: string)
    requires !("/" <= path)
    ensures Components(front + "/" + path) == Components(front + "/") + WithoutCur(Components(path))
  {
    hide Components, WithoutCur;
    TrailingSlash(front);
    if front == "" {
      RootSlash(path);
      assert "" + "/" + path == "/" + path;
    } else {
      ComponentsAtSlash(front, path);
    }
  }

  lemma WithoutCurOfNothing()
    ensures WithoutCur(Components("")) == []
  {
    ComponentsOfEmpty();
  }

  lemma TrailingSlash(front: string)
    ensures Components(front + "/") == if front == "" then [Root] else Components(front)
  {
    WithoutCurOfNothing();
    hide Components, WithoutCur;
    var slash := front + "/";
    if front == "" {
      RootSlash("");
      assert "/" + "" == slash && [Root] + [] == [Root];
    } else {
      ComponentsAtSlash(front, "");
      assert front + "/" + "" == slash && Components(front) + [] == Components(front);
    }
  }

  // ----- resolving `.` and `..` -----

  /** Names pushed, each `..` taking one back; nothing once it climbs above the start or meets a root. */
  function Resolved(path: Path): Option<seq<string>> {
    if |path| == 0 then Some([]) else Step(Resolved(path[..|path| - 1]), path[|path| - 1])
  }

  function Step(before: Option<seq<string>>, c: Component): Option<seq<string>> {
    if before.None? || c.Root? then None
    else if c.Cur? then before
    else if c.Normal? then Some(before.value + [c.name])
    else if |before.value| == 0 then None
    else Some(before.value[..|before.value| - 1])
  }

  /** The loop over the components, which goes on after it has failed. */
  method ResolveParts(path: Path) returns (resolved: Option<seq<string>>)
    ensures resolved == Resolved(path)
  {
    var parts: seq<string> := [];
    var valid := true;
    for k := 0 to |path|
      invariant Resolved(path[..k]) == if valid then Some(parts) else None
    {
      assert path[..k + 1][..k] == path[..k];
      match path[k]
      case Normal(name) => parts := parts + [name];
      case Cur =>
      case Up => if |parts| == 0 { valid := false; } else { parts := parts[..|parts| - 1]; }
      case Root => valid := false;
    }
    assert path[..|path|] == path;
    resolved := if valid then Some(parts) else None;
  }

  /** Names less `..` components: how far below the start a path ends. */
  function Height(path: Path): int {
    if |path| == 0 then 0
    else Height(path[..|path| - 1]) + match path[|path| - 1] case Normal(_) => 1 case Up => -1 case _ => 0
  }

  /** It never climbs above the start, at any of its components, and has no root. */
  predicate StaysBelow(path: Path) {
    Root !in path && forall k :: 0 <= k <= |path| ==> Height(path[..k]) >= 0
  }

  lemma StaysBelowSnoc(front: Path, c: Component)
    ensures StaysBelow(front + [c]) <==> StaysBelow(front) && c != Root && Height(front + [c]) >= 0
  {
    var all := front + [c];
    assert all[..|all|] == all;
    forall k | 0 <= k <= |front| ensures all[..k] == front[..k] {}
  }

  /** A path is accepted exactly when it stays below the start, and its parts count how far below it ends. */
  lemma {:induction false} ResolvedExactly(path: Path)
    ensures Resolved(path).Some? <==> StaysBelow(path)
    ensures Resolved(path).Some? ==> |Resolved(path).value| == Height(path)
  {
    if |path| > 0 {
      var front, last := path[..|path| - 1], path[|path| - 1];
      assert path == front + [last];
      ResolvedExactly(front);
      StaysBelowSnoc(front, last);
      hide StaysBelow;
    }
  }

  /** Resolving in two legs: what the second leg needs to know of the first is where it ended. */
  lemma {:induction false} ResolvedAppend(a: Path, b: Path)
    ensures Resolved(a + b) == match Resolved(a) case None => None case Some(parts) => Resolved(Normals(parts) + b)
  {
    if |b| == 0 {
      assert a + b == a;
      if Resolved(a).Some? {
        var parts := Resolved(a).value;
        ResolvedNormals(parts);
        assert Normals(parts) + b == Normals(parts);
      }
    } else {
      var front, last := b[..|b| - 1], b[|b| - 1];
      ResolvedAppend(a, front);
      assert (a + b)[..|a + b| - 1] == a + front;
      if Resolved(a).Some? {
        var parts := Resolved(a).value;
        assert (Normals(parts) + b)[..|parts| + |front|] == Normals(parts) + front;
      }
      hide Step;
    }
  }

  function Normals(parts: seq<string>): (path: Path)
    ensures |path| == |parts| && forall k :: 0 <= k < |parts| ==> path[k] == Normal(parts[k])
  {
    seq(|parts|, k requires 0 <= k < |parts| => Normal(parts[k]))
  }

  /** What has been resolved resolves to itself. */
  lemma {:induction false} ResolvedNormals(parts: seq<string>)
    ensures Resolved(Normals(parts)) == Some(parts)
  {
    if |parts| > 0 {
      var front, last := parts[..|parts| - 1], parts[|parts| - 1];
      ResolvedNormals(front);
      assert Normals(parts)[..|parts| - 1] == Normals(front);
      assert front + [last] == parts;
    }
  }

  /** A name and a `..` right after it cancel, anywhere in a path. */
  lemma UpCancels(a: Path, name: string, b: Path)
    ensures Resolved(a + [Normal(name), Up] + b) == Resolved(a + b)
  {
    var all := a + [Normal(name), Up];
    assert all[..|a| + 1] == a + [Normal(name)] && (a + [Normal(name)])[..|a|] == a;
    if Resolved(a).Some? { assert (Resolved(a).value + [name])[..|Resolved(a).value|] == Resolved(a).value; }
    assert Resolved(all) == Resolved(a);
    ResolvedAppend(a, b);
    ResolvedAppend(all, b);
  }

  // ----- names -----

  /** What a component between slashes can be called. */
  predicate IsName(s: string) { s != "" && s != "." && s != ".." && '/' !in s }

  predicate AllNames(parts: seq<string>) { forall part :: part in parts ==> IsName(part) }

  predicate HasNames(path: Path) { forall c :: c in path && c.Normal? ==> IsName(c.name) }

  lemma {:induction false} LaterHasNames(parts: seq<string>)
    requires forall part :: part in parts ==> '/' !in part
    ensures HasNames(Later(parts))
  {
    if |parts| > 0 { LaterHasNames(parts[1..]); }
  }

  lemma ComponentsHaveNames(path: string)
    ensures HasNames(Components(path))
  {
    SplitPartsLackSep(path, '/');
    LaterHasNames(Split(path, '/')[1..]);
  }

  lemma JoinedHasNames(dir: Path, path: string)
    requires HasNames(dir)
    ensures HasNames(JoinedTo(dir, path))
  {
    ComponentsHaveNames(path);
    hide Components;
  }

  /** An accepted path keeps names only: no empty part, no dot, no `..`. */
  lemma {:induction false} ResolvedHasNames(path: Path)
    requires HasNames(path) && Resolved(path).Some?
    ensures AllNames(Resolved(path).value)
  {
    if |path| > 0 {
      var front, last := path[..|path| - 1], path[|path| - 1];
      assert path == front + [last];
      ResolvedHasNames(front);
      hide IsName;
    }
  }

  lemma {:induction false} LaterOfNames(parts: seq<string>)
    requires AllNames(parts)
    ensures Later(parts) == Normals(parts)
  {
    if |parts| > 0 {
      LaterOfNames(parts[1..]);
      assert parts[0] in parts;
      assert Normals(parts) == [Normal(parts[0])] + Normals(parts[1..]);
    }
  }

  lemma JoinNothing()
    ensures Join([], '/') == ""
  {
  }

  lemma NormalsOf(parts: seq<string>)
    requires |parts| > 0
    ensures Normals(parts) == [Normal(parts[0])] + Normals(parts[1..])
  {
  }

  /** Names joined by slashes read back as those names, so different names make different paths. */
  lemma ComponentsOfNames(parts: seq<string>)
    requires AllNames(parts)
    ensures Components(Join(parts, '/')) == Normals(parts)
  {
    hide Split, Join, Later, Normals;
    if |parts| == 0 {
      JoinNothing();
      ComponentsOfEmpty();
      assert Normals(parts) == [];
    } else {
      var text := Join(parts, '/');
      SplitJoin(parts, '/');
      FirstPart(text);
      LaterOfNames(parts[1..]);
      NormalsOf(parts);
      assert parts[0] in parts && IsName(parts[0]);
    }
  }

  lemma ReadsBackExactly(parts: seq<string>)
    ensures Components(Join(parts, '/')) == Normals(parts) <==> AllNames(parts)
  {
    if AllNames(parts) {
      ComponentsOfNames(parts);
    } else if Components(Join(parts, '/')) == Normals(parts) {
      ComponentsHaveNames(Join(parts, '/'));
      hide Components, IsName;
      forall part | part in parts ensures IsName(part) {
        assert Normal(part) in Normals(parts);
      }
      assert false;
    }
  }

  // ----- relative paths -----

  function Ups(k: nat): (path: Path)
    ensures |path| == k && forall i :: 0 <= i < k ==> path[i] == Up
  {
    seq(k, _ => Up)
  }

  lemma {:induction false} ResolvedUps(parts: seq<string>, k: nat)
    ensures Resolved(Normals(parts) + Ups(k)) == if k <= |parts| then Some(parts[..|parts| - k]) else None
  {
    var path := Normals(parts) + Ups(k);
    if k == 0 {
      assert path == Normals(parts) && parts[..|parts|] == parts;
      ResolvedNormals(parts);
    } else {
      assert path[..|path| - 1] == Normals(parts) + Ups(k - 1);
      assert Resolved(path) == Step(Resolved(Normals(parts) + Ups(k - 1)), Up);
      ResolvedUps(parts, k - 1);
      if k <= |parts| { assert parts[..|parts| - (k - 1)][..|parts| - k] == parts[..|parts| - k]; }
    }
  }

  lemma {:induction false} ResolvedNames(path: Path, names: seq<string>)
    ensures Resolved(path + Normals(names)) ==
      match Resolved(path) case None => None case Some(parts) => Some(parts + names)
  {
    if |names| == 0 {
      assert path + Normals(names) == path;
      if Resolved(path).Some? { assert Resolved(path).value + names == Resolved(path).value; }
    } else {
      var front, last := names[..|names| - 1], names[|names| - 1];
      var all := path + Normals(names);
      assert all[..|all| - 1] == path + Normals(front) && all[|all| - 1] == Normal(last);
      ResolvedNames(path, front);
      if Resolved(path).Some? { assert Resolved(path).value + names == Resolved(path).value + front + [last]; }
    }
  }

  /**
   * From a directory that is `parts` below the start, `k` times `..` and then names lead to those
   * names below all but the last `k` parts, and nowhere when that is above the start.
   */
  lemma RelativePath(dir: Path, path: string, parts: seq<string>, k: nat, names: seq<string>)
    requires Resolved(dir) == Some(parts)
    requires !("/" <= path) && WithoutCur(Components(path)) == Ups(k) + Normals(names)
    ensures Resolved(JoinedTo(dir, path))
         == if k <= |parts| then Some(parts[..|parts| - k] + names) else None
  {
    hide Resolved, JoinedTo, Components, WithoutCur, Normals, Ups;
    var added := Ups(k) + Normals(names);
    FromDir(dir, path);
    ResolvedAppend(dir, added);
    Assoc(Normals(parts), Ups(k), Normals(names));
    ResolvedUps(parts, k);
    ResolvedNames(Normals(parts) + Ups(k), names);
  }

  /** A leading dot does not matter. */
  lemma FromDir(dir: Path, path: string)
    requires !("/" <= path)
    ensures Resolved(JoinedTo(dir, path)) == Resolved(dir + WithoutCur(Components(path)))
  {
    var all := Components(path);
    if dir == [] {
      assert dir + WithoutCur(all) == WithoutCur(all);
      if |all| > 0 && all[0] == Cur {
        assert all == [Cur] + all[1..] && [Cur][..0] == [];
        assert Resolved([Cur]) == Some([]);
        ResolvedAppend([Cur], all[1..]);
        assert Normals([]) + all[1..] == all[1..];
      }
    }
  }
}
