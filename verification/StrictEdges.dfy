/**
 * Evidenced edges (src/adapters/imports.rs:260-424, 466-475): imports that match exactly one file,
 * read line by line under a brace counter that must stay consistent to the end of the file.
 *
 * The extraction of candidates from a line is a parameter: it is a set of regular expressions.
 */
module StrictEdges {
  import opened Text
  import opened Paths
  import opened Stems
  import opened Imports
  import opened Sorting

  /** `extract_imports`: the candidates that a line of a file at a path names. */
  type Extract = (string, string) -> seq<string>

  type Edge = (string, string, nat)

  // ----- the exact indexes -----

  predicate IsRustFile(path: string) { Extension(Components(path)) == Some("rs") }

  predicate InRust(key: string, path: string) { IsRustFile(path) && path == key }

  predicate IsScriptFile(path: string) { !IsRustFile(path) && HasScriptExtension(Components(path)) }

  predicate InJs(key: Path, path: string) { IsScriptFile(path) && ScriptKey(path) == key }

  function RustAt(files: seq<SourceFile>, key: string): seq<string> {
    if |files| == 0 then []
    else
      var n := |files| - 1;
      RustAt(files[..n], key) + if InRust(key, files[n].path) then [files[n].path] else []
  }

  function JsAt(files: seq<SourceFile>, key: Path): seq<string> {
    if |files| == 0 then []
    else
      var n := |files| - 1;
      JsAt(files[..n], key) + if InJs(key, files[n].path) then [files[n].path] else []
  }

  datatype StrictResolver = StrictResolver(rust: map<string, seq<string>>, js: map<Path, seq<string>>)

  ghost predicate Indexed(r: StrictResolver, files: seq<SourceFile>) {
    && (forall key :: ListAt(r.rust, key) == RustAt(files, key))
    && (forall key :: ListAt(r.js, key) == JsAt(files, key))
  }

  lemma RustAtSnoc(front: seq<SourceFile>, f: SourceFile, key: string)
    ensures RustAt(front + [f], key) == RustAt(front, key) + if InRust(key, f.path) then [f.path] else []
  {
    hide InRust;
    assert (front + [f])[..|front|] == front;
  }

  lemma JsAtSnoc(front: seq<SourceFile>, f: SourceFile, key: Path)
    ensures JsAt(front + [f], key) == JsAt(front, key) + if InJs(key, f.path) then [f.path] else []
  {
    hide InJs;
    assert (front + [f])[..|front|] == front;
  }

  lemma NothingIndexed(r: StrictResolver)
    requires r == StrictResolver(map[], map[])
    ensures Indexed(r, [])
  {
  }

  method NewStrictResolver(files: seq<SourceFile>) returns (r: StrictResolver)
    ensures Indexed(r, files)
  {
    hide IsRustFile, HasScriptExtension, ScriptKey, RustAt, JsAt;
    r := StrictResolver(map[], map[]);
    NothingIndexed(r);
    for k := 0 to |files|
      invariant Indexed(r, files[..k])
    {
      assert files[..k + 1] == files[..k] + [files[k]];
      var path := files[k].path;
      ghost var before := r;
      if IsRustFile(path) {
        r := r.(rust := r.rust[path := ListAt(r.rust, path) + [path]]);
      } else if HasScriptExtension(Components(path)) {
        var stem := ScriptKey(path);
        r := r.(js := r.js[stem := ListAt(r.js, stem) + [path]]);
      }
      forall key ensures ListAt(r.rust, key) == RustAt(files[..k + 1], key) {
        RustAtSnoc(files[..k], files[k], key);
        assert ListAt(before.rust, key) == RustAt(files[..k], key);
      }
      forall key ensures ListAt(r.js, key) == JsAt(files[..k + 1], key) {
        JsAtSnoc(files[..k], files[k], key);
        assert ListAt(before.js, key) == JsAt(files[..k], key);
      }
    }
    assert files[..|files|] == files;
  }

  /** `matching_paths`, through the index. */
  function MatchingPaths(r: StrictResolver, stem: string, rust: bool): seq<string> {
    if rust then ListAt(r.rust, stem + ".rs") + ListAt(r.rust, stem + "/mod.rs")
    else ListAt(r.js, Components(stem)) + ListAt(r.js, Components(Joined(stem, "index")))
  }

  /** A file of the inventory that the module path `stem` names. */
  predicate Fits(stem: string, rust: bool, path: string) {
    if rust then InRust(stem + ".rs", path) || InRust(stem + "/mod.rs", path)
    else InJs(Components(stem), path) || InJs(Components(Joined(stem, "index")), path)
  }

  function One(stem: string, rust: bool, path: string): multiset<string> {
    if Fits(stem, rust, path) then multiset{path} else multiset{}
  }

  /** What a scan of every file finds; duplicate paths count twice. */
  function Fitting(files: seq<SourceFile>, stem: string, rust: bool): multiset<string> {
    if |files| == 0 then multiset{}
    else Fitting(files[..|files| - 1], stem, rust) + One(stem, rust, files[|files| - 1].path)
  }

  function Matches(files: seq<SourceFile>, stem: string, rust: bool): seq<string> {
    if rust then RustAt(files, stem + ".rs") + RustAt(files, stem + "/mod.rs")
    else JsAt(files, Components(stem)) + JsAt(files, Components(Joined(stem, "index")))
  }

  lemma IndexIsName()
    ensures Join(["index"], '/') == "index" && AllNames(["index"]) && !("/" <= "index")
  {
    NamesAreRelative("index");
  }

  lemma TwoKeys(stem: string)
    ensures stem + ".rs" != stem + "/mod.rs" && Components(stem) != Components(Joined(stem, "index"))
  {
    hide Components;
    assert |stem + ".rs"| != |stem + "/mod.rs"|;
    IndexIsName();
    ComponentsOfNames(["index"]);
    JoinedIs(stem, "index");
    var added := Components("index");
    assert |added| == 1 && added[0] == Normal("index");
    assert WithoutCur(added) == added;
    assert |JoinedTo(Components(stem), "index")| == |Components(stem)| + 1;
  }

  lemma RustKeyIs(key: string, path: string)
    ensures InRust(key, path) ==> key == path
  {
    hide IsRustFile;
  }

  lemma JsKeyIs(key: Path, path: string)
    ensures InJs(key, path) ==> key == ScriptKey(path)
  {
    hide IsScriptFile, ScriptKey;
  }

  /** The index finds exactly what a full scan would. */
  lemma MatchesSnoc(front: seq<SourceFile>, f: SourceFile, stem: string, rust: bool)
    ensures multiset(Matches(front + [f], stem, rust)) == multiset(Matches(front, stem, rust)) + One(stem, rust, f.path)
  {
    hide RustAt, JsAt, InRust, InJs, Components;
    TwoKeys(stem);
    if rust {
      RustAtSnoc(front, f, stem + ".rs");
      RustAtSnoc(front, f, stem + "/mod.rs");
      RustKeyIs(stem + ".rs", f.path);
      RustKeyIs(stem + "/mod.rs", f.path);
    } else {
      JsAtSnoc(front, f, Components(stem));
      JsAtSnoc(front, f, Components(Joined(stem, "index")));
      JsKeyIs(Components(stem), f.path);
      JsKeyIs(Components(Joined(stem, "index")), f.path);
    }
  }

  lemma NothingFits(stem: string, rust: bool)
    ensures Fitting([], stem, rust) == multiset{} && Matches([], stem, rust) == []
  {
  }

  lemma {:induction false} MatchesAreFitting(files: seq<SourceFile>, stem: string, rust: bool)
    ensures multiset(Matches(files, stem, rust)) == Fitting(files, stem, rust)
  {
    hide Matches, One, Fitting;
    if |files| == 0 {
      NothingFits(stem, rust);
      assert files == [];
    } else {
      var front, last := files[..|files| - 1], files[|files| - 1];
      assert files == front + [last];
      MatchesAreFitting(front, stem, rust);
      MatchesSnoc(front, last, stem, rust);
      FittingSnoc(front, last, stem, rust);
    }
  }

  lemma FittingSnoc(front: seq<SourceFile>, f: SourceFile, stem: string, rust: bool)
    ensures Fitting(front + [f], stem, rust) == Fitting(front, stem, rust) + One(stem, rust, f.path)
  {
    assert (front + [f])[..|front|] == front;
  }

  function Without<T>(s: seq<T>, j: nat): seq<T>
    requires j < |s|
  {
    s[..j] + s[j + 1..]
  }

  lemma WithoutSnoc<T>(front: seq<T>, last: T, j: nat)
    requires j <= |front|
    ensures Without(front + [last], j) == if j < |front| then Without(front, j) + [last] else front
  {
  }

  lemma {:induction false} FittingWithout(files: seq<SourceFile>, stem: string, rust: bool, j: nat)
    requires j < |files|
    ensures Fitting(files, stem, rust) == Fitting(Without(files, j), stem, rust) + One(stem, rust, files[j].path)
  {
    hide One, Fitting, Without;
    var front, last := files[..|files| - 1], files[|files| - 1];
    assert files == front + [last];
    FittingSnoc(front, last, stem, rust);
    WithoutSnoc(front, last, j);
    if j < |front| {
      FittingSnoc(Without(front, j), last, stem, rust);
      FittingWithout(front, stem, rust, j);
    }
  }

  lemma WithoutOne<T>(s: seq<T>, j: nat)
    requires j < |s|
    ensures multiset(Without(s, j)) == multiset(s) - multiset{s[j]}
  {
    assert s == s[..j] + ([s[j]] + s[j + 1..]);
  }

  /** A scan finds the same files in any order of the inventory. */
  lemma {:induction false} FittingIgnoresOrder(a: seq<SourceFile>, b: seq<SourceFile>, stem: string, rust: bool)
    requires multiset(a) == multiset(b)
    ensures Fitting(a, stem, rust) == Fitting(b, stem, rust)
    decreases |a|
  {
    SameLength(a, b);
    if |a| > 0 {
      var n := |a| - 1;
      assert a[n] in multiset(b);
      var j :| 0 <= j < |b| && b[j] == a[n];
      WithoutOne(a, n);
      WithoutOne(b, j);
      assert Without(a, n) == a[..n];
      hide One;
      FittingIgnoresOrder(a[..n], Without(b, j), stem, rust);
      FittingWithout(b, stem, rust, j);
    }
  }

  lemma SameLength<T>(a: seq<T>, b: seq<T>)
    requires multiset(a) == multiset(b)
    ensures |a| == |b|
  {
    assert |multiset(a)| == |a| && |multiset(b)| == |b|;
  }

  /** The one match, if there is exactly one. */
  function Only(matches: seq<string>): Option<string> { if |matches| == 1 then Some(matches[0]) else None }

  lemma OnlyByScan(a: seq<string>, b: seq<string>)
    requires multiset(a) == multiset(b)
    ensures Only(a) == Only(b) && |a| == |b|
  {
    SameLength(a, b);
    if |a| == 1 {
      assert a[0] in multiset(b);
      assert b == [b[0]];
    }
  }

  // ----- one line -----

  predicate IsActive(text: string) {
    "use " <= text || "mod " <= text || "pub mod " <= text || "import " <= text || "export " <= text
  }

  /** The file that the parts of a stem resolve to, if it is unique and another file. */
  function Chosen(files: seq<SourceFile>, f: SourceFile, text: string, parts: seq<string>): Option<string> {
    var rust := IsRust(f.path);
    var found := Matches(files, Join(parts, '/'), rust);
    var matches := if |found| == 0 && rust && "use " <= text && |parts| > 0
      then Matches(files, Join(parts[..|parts| - 1], '/'), true) else found;
    if Only(matches).Some? && Only(matches) != Some(f.path) then Only(matches) else None
  }

  /** The file a candidate of this line resolves to. */
  function Target(files: seq<SourceFile>, f: SourceFile, text: string, candidate: string): Option<string> {
    match StemParts(f.path, text, candidate)
    case None => None
    case Some(parts) => Chosen(files, f, text, parts)
  }

  function EdgeTo(path: string, target: Option<string>, line: nat): seq<Edge> {
    match target
    case None => []
    case Some(to) => [(path, to, line + 1)]
  }

  function LineEdges(files: seq<SourceFile>, f: SourceFile, text: string, line: nat,
                     candidates: seq<string>): seq<Edge>
  {
    if |candidates| == 0 then []
    else
      var n := |candidates| - 1;
      LineEdges(files, f, text, line, candidates[..n]) + EdgeTo(f.path, Target(files, f, text, candidates[n]), line)
  }

  lemma MatchingIs(r: StrictResolver, files: seq<SourceFile>, stem: string, rust: bool)
    requires Indexed(r, files)
    ensures MatchingPaths(r, stem, rust) == Matches(files, stem, rust)
  {
    hide Components;
  }

  method FindTarget(r: StrictResolver, ghost files: seq<SourceFile>, f: SourceFile, text: string, candidate: string)
    returns (to: Option<string>)
    requires Indexed(r, files)
    ensures to == Target(files, f, text, candidate)
  {
    hide Indexed, MatchingPaths, Matches, StemParts, IsRust;
    var stem := FindStem(f.path, text, candidate);
    if stem.None? { return None; }
    var parts, rust := stem.value, IsRust(f.path);
    MatchingIs(r, files, Join(parts, '/'), rust);
    var matches := MatchingPaths(r, Join(parts, '/'), rust);
    if |matches| == 0 && rust && "use " <= text && |parts| > 0 {
      MatchingIs(r, files, Join(parts[..|parts| - 1], '/'), true);
      matches := MatchingPaths(r, Join(parts[..|parts| - 1], '/'), true);
    }
    to := if |matches| == 1 && matches[0] != f.path then Some(matches[0]) else None;
  }

  method ReadLine(x: Extract, r: StrictResolver, ghost files: seq<SourceFile>, f: SourceFile, text: string, line: nat)
    returns (edges: seq<Edge>)
    requires Indexed(r, files)
    ensures edges == LineEdges(files, f, text, line, x(f.path, text))
  {
    hide Target, Indexed;
    edges := [];
    var candidates := x(f.path, text);
    for k := 0 to |candidates|
      invariant edges == LineEdges(files, f, text, line, candidates[..k])
    {
      assert candidates[..k + 1][..k] == candidates[..k];
      var to := FindTarget(r, files, f, text, candidates[k]);
      if to.Some? { edges := edges + [(f.path, to.value, line + 1)]; }
    }
    assert candidates[..|candidates|] == candidates;
  }

  // ----- one file -----

  function CountOf(c: char, s: string): nat {
    if s == "" then 0 else CountOf(c, s[..|s| - 1]) + if s[|s| - 1] == c then 1 else 0
  }

  predicate IsComment(text: string) { "//" <= text }

  /** How much a line changes the depth. */
  function Change(text: string): int { if IsComment(text) then 0 else CountOf('{', text) - CountOf('}', text) }

  /** Braces opened less braces closed on the lines before `k`, comments aside. */
  function Depth(lines: seq<string>, k: nat): int
    requires k <= |lines|
  {
    if k == 0 then 0 else Depth(lines, k - 1) + Change(Trim(lines[k - 1]))
  }

  /** The edges of a line at a depth: those of an import line outside all braces. */
  function FoundOn(x: Extract, files: seq<SourceFile>, f: SourceFile, text: string, line: nat, depth: int): seq<Edge> {
    if !IsComment(text) && depth == 0 && IsActive(text) then LineEdges(files, f, text, line, x(f.path, text)) else []
  }

  function EdgesBefore(x: Extract, files: seq<SourceFile>, f: SourceFile, lines: seq<string>, k: nat): seq<Edge>
    requires k <= |lines|
  {
    if k == 0 then []
    else EdgesBefore(x, files, f, lines, k - 1) + FoundOn(x, files, f, Trim(lines[k - 1]), k - 1, Depth(lines, k - 1))
  }

  lemma StepLine(x: Extract, files: seq<SourceFile>, f: SourceFile, lines: seq<string>, k: nat)
    requires k < |lines|
    ensures Depth(lines, k + 1) == Depth(lines, k) + Change(Trim(lines[k]))
    ensures EdgesBefore(x, files, f, lines, k + 1)
         == EdgesBefore(x, files, f, lines, k) + FoundOn(x, files, f, Trim(lines[k]), k, Depth(lines, k))
  {
    hide FoundOn, Change, Trim;
  }

  lemma AtStart(x: Extract, files: seq<SourceFile>, f: SourceFile, lines: seq<string>)
    ensures Depth(lines, 0) == 0 && EdgesBefore(x, files, f, lines, 0) == []
  {
  }

  predicate IsOpaque(f: SourceFile) {
    || !IsSource(f.path) || Contains(f.content, "/*") || Contains(f.content, "`")
    || Contains(f.content, "r#\"") || Contains(f.content, "#[path") || Contains(f.content, "#[cfg")
  }

  /** Braces balance at the end and never close too early. */
  predicate Balanced(lines: seq<string>) {
    Depth(lines, |lines|) == 0 && forall k :: 0 <= k <= |lines| ==> Depth(lines, k) >= 0
  }

  /** All the edges of a file, or none when its braces do not balance. */
  function FileEdges(x: Extract, files: seq<SourceFile>, f: SourceFile): seq<Edge> {
    var lines := Lines(f.content);
    if !IsOpaque(f) && Balanced(lines) then EdgesBefore(x, files, f, lines, |lines|) else []
  }

  /** One turn of the loop over the lines. */
  method ReadNext(x: Extract, r: StrictResolver, ghost files: seq<SourceFile>, f: SourceFile, text: string, line: nat,
                  before: int)
    returns (depth: int, found: seq<Edge>)
    requires Indexed(r, files)
    ensures depth == before + Change(text) && found == FoundOn(x, files, f, text, line, before)
  {
    hide Indexed, LineEdges, CountOf, IsActive;
    depth, found := before, [];
    if "//" <= text { return; }
    if depth == 0 && IsActive(text) { found := ReadLine(x, r, files, f, text, line); }
    depth := depth + CountOf('{', text) - CountOf('}', text);
  }

  method StrictEdgesOf(x: Extract, r: StrictResolver, ghost files: seq<SourceFile>, f: SourceFile)
    returns (out: seq<Edge>)
    requires Indexed(r, files)
    ensures out == FileEdges(x, files, f)
  {
    hide Indexed, FoundOn, Change, Trim, IsOpaque, Depth, EdgesBefore;
    out := [];
    if IsOpaque(f) { return; }
    var lines := Lines(f.content);
    var depth := 0;
    AtStart(x, files, f, lines);
    for line := 0 to |lines|
      invariant depth == Depth(lines, line) && forall k :: 0 <= k <= line ==> Depth(lines, k) >= 0
      invariant out == EdgesBefore(x, files, f, lines, line)
    {
      StepLine(x, files, f, lines, line);
      var now, found := ReadNext(x, r, files, f, Trim(lines[line]), line, depth);
      depth := now;
      out := out + found;
      if depth < 0 {
        assert Depth(lines, line + 1) < 0;
        return [];
      }
    }
    if depth != 0 { out := []; }
  }

  // ----- all files -----

  predicate EdgeAtMost(a: Edge, b: Edge) {
    if a.0 != b.0 then TextAtMost(a.0, b.0) else if a.1 != b.1 then TextAtMost(a.1, b.1) else a.2 <= b.2
  }

  lemma EdgeIsOrder()
    ensures IsOrder(EdgeAtMost) && IsAntisymmetric(EdgeAtMost)
  {
    forall a, b ensures EdgeAtMost(a, b) || EdgeAtMost(b, a) ensures EdgeAtMost(a, b) && EdgeAtMost(b, a) ==> a == b {
      TextIsTotal(a.0, b.0);
      TextIsTotal(a.1, b.1);
    }
    forall a, b, c | EdgeAtMost(a, b) && EdgeAtMost(b, c) ensures EdgeAtMost(a, c) { EdgeIsTransitive(a, b, c); }
  }

  lemma EdgeIsTransitive(a: Edge, b: Edge, c: Edge)
    requires EdgeAtMost(a, b) && EdgeAtMost(b, c)
    ensures EdgeAtMost(a, c)
  {
    TextIsTotal(a.0, b.0);
    TextIsTotal(b.0, c.0);
    TextIsTotal(a.1, b.1);
    TextIsTotal(b.1, c.1);
    if TextAtMost(a.0, b.0) && TextAtMost(b.0, c.0) { TextIsTransitive(a.0, b.0, c.0); }
    if TextAtMost(a.1, b.1) && TextAtMost(b.1, c.1) { TextIsTransitive(a.1, b.1, c.1); }
  }

  /** `Vec::dedup` */
  function Deduped(s: seq<Edge>): (r: seq<Edge>)
    ensures |r| <= |s| && (|s| > 0 ==> |r| > 0 && r[|r| - 1] == s[|s| - 1])
    ensures forall e :: e in r <==> e in s
  {
    if |s| <= 1 then s
    else
      var n := |s| - 1;
      assert s == s[..n] + [s[n]];
      if s[n] == s[n - 1] then Deduped(s[..n]) else Deduped(s[..n]) + [s[n]]
  }

  lemma {:induction false} DedupedLists(s: seq<Edge>, elements: iset<Edge>)
    requires InOrder(EdgeAtMost, s) && forall e :: e in s <==> e in elements
    ensures Lists(EdgeAtMost, Deduped(s), elements)
  {
    DedupedInOrder(s);
  }

  lemma AfterAll(s: seq<Edge>, n: nat, e: Edge)
    requires 0 < n == |s| - 1 && InOrder(EdgeAtMost, s) && e in s[..n]
    ensures EdgeAtMost(e, s[n]) && (s[n] != s[n - 1] ==> e != s[n])
  {
    EdgeIsOrder();
    hide EdgeAtMost;
    var j :| 0 <= j < n && s[j] == e;
    assert EdgeAtMost(s[j], s[n]) && EdgeAtMost(s[n - 1], s[n]);
    if j < n - 1 { assert EdgeAtMost(s[j], s[n - 1]); }
  }

  lemma {:induction false} DedupedInOrder(s: seq<Edge>)
    requires InOrder(EdgeAtMost, s)
    ensures InOrder(EdgeAtMost, Deduped(s)) && Distinct(Deduped(s))
  {
    if |s| > 1 {
      hide EdgeAtMost;
      var n := |s| - 1;
      DedupedInOrder(s[..n]);
      var r := Deduped(s[..n]);
      assert Deduped(s) == if s[n] == s[n - 1] then r else r + [s[n]];
      hide Deduped;
      forall k | 0 <= k < |r| ensures EdgeAtMost(r[k], s[n]) && (s[n] != s[n - 1] ==> r[k] != s[n]) {
        AfterAll(s, n, r[k]);
      }
    }
  }

  function AllEdges(x: Extract, all: seq<SourceFile>, files: seq<SourceFile>): seq<Edge> {
    if |files| == 0 then []
    else AllEdges(x, all, files[..|files| - 1]) + FileEdges(x, all, files[|files| - 1])
  }

  /** The edges that some file of the inventory evidences. */
  ghost function EdgeSet(x: Extract, all: seq<SourceFile>): iset<Edge> {
    iset e | HasEdge(x, all, e)
  }

  ghost predicate HasEdge(x: Extract, all: seq<SourceFile>, e: Edge) {
    exists f :: f in all && e in FileEdges(x, all, f)
  }

  lemma {:induction false} AllEdgesAre(x: Extract, all: seq<SourceFile>, files: seq<SourceFile>, e: Edge)
    ensures e in AllEdges(x, all, files) <==> exists f :: f in files && e in FileEdges(x, all, f)
  {
    hide FileEdges;
    if |files| > 0 {
      var front, last := files[..|files| - 1], files[|files| - 1];
      AllEdgesAre(x, all, front, e);
      assert forall f :: f in files <==> f in front || f == last by { assert files == front + [last]; }
    }
  }

  /** The `edges` field of the graph. */
  method EvidencedEdges(x: Extract, files: seq<SourceFile>) returns (edges: seq<Edge>)
    ensures Lists(EdgeAtMost, edges, EdgeSet(x, files))
  {
    hide FileEdges, Indexed;
    var r := NewStrictResolver(files);
    var all: seq<Edge> := [];
    for k := 0 to |files|
      invariant all == AllEdges(x, files, files[..k])
    {
      assert files[..k + 1][..k] == files[..k];
      var more := StrictEdgesOf(x, r, files, files[k]);
      all := all + more;
    }
    assert files[..|files|] == files;
    var sorted := SortBy(EdgeAtMost, all);
    EdgeIsOrder();
    SortInOrder(EdgeAtMost, all);
    forall e ensures e in sorted <==> e in EdgeSet(x, files) {
      SameElements(sorted, all, e);
      AllEdgesAre(x, files, files, e);
    }
    edges := Deduped(sorted);
    DedupedLists(sorted, EdgeSet(x, files));
  }

  // ----- what the edges guarantee -----

  lemma NoLineEdges(files: seq<SourceFile>, f: SourceFile, text: string, line: nat, candidates: seq<string>)
    requires |candidates| == 0
    ensures LineEdges(files, f, text, line, candidates) == []
  {
  }

  lemma LastEdges(files: seq<SourceFile>, f: SourceFile, text: string, line: nat, candidates: seq<string>)
    requires |candidates| > 0
    ensures var n := |candidates| - 1;
      LineEdges(files, f, text, line, candidates)
      == LineEdges(files, f, text, line, candidates[..n]) + EdgeTo(f.path, Target(files, f, text, candidates[n]), line)
  {
    hide Target, EdgeTo;
  }

  lemma EdgeToIs(path: string, target: Option<string>, line: nat, e: Edge)
    ensures e in EdgeTo(path, target, line) <==> e.0 == path && e.2 == line + 1 && target == Some(e.1)
  {
  }

  lemma {:induction false} LineEdgesAre(files: seq<SourceFile>, f: SourceFile, text: string, line: nat,
                                        candidates: seq<string>, e: Edge)
    ensures e in LineEdges(files, f, text, line, candidates) <==>
      e.0 == f.path && e.2 == line + 1 && exists c :: c in candidates && Target(files, f, text, c) == Some(e.1)
  {
    hide LineEdges, Target, EdgeTo;
    if |candidates| > 0 {
      var front, last := candidates[..|candidates| - 1], candidates[|candidates| - 1];
      LineEdgesAre(files, f, text, line, front, e);
      LastEdges(files, f, text, line, candidates);
      EdgeToIs(f.path, Target(files, f, text, last), line, e);
      if c :| c in candidates && Target(files, f, text, c) == Some(e.1) { assert c in front || c == last; }
      if c :| c in front && Target(files, f, text, c) == Some(e.1) { assert c in candidates; }
      assert last in candidates;
    } else {
      NoLineEdges(files, f, text, line, candidates);
    }
  }

  /** What one line yields: the unique targets of an import line outside all braces. */
  lemma FoundIs(x: Extract, files: seq<SourceFile>, f: SourceFile, text: string, line: nat, depth: int, e: Edge)
    ensures e in FoundOn(x, files, f, text, line, depth) <==>
      && depth == 0 && IsActive(text) && e.0 == f.path && e.2 == line + 1
      && exists c :: c in x(f.path, text) && Target(files, f, text, c) == Some(e.1)
  {
    if IsActive(text) { ActiveIsNoComment(text); }
    LineEdgesAre(files, f, text, line, x(f.path, text), e);
    hide IsActive, IsComment, LineEdges, Target;
  }

  lemma ActiveIsNoComment(text: string)
    requires IsActive(text)
    ensures !IsComment(text)
  {
    assert |text| > 0 && (text[0] == 'u' || text[0] == 'm' || text[0] == 'p' || text[0] == 'i' || text[0] == 'e');
  }

  lemma {:induction false} EdgesBeforeAre(x: Extract, files: seq<SourceFile>, f: SourceFile, lines: seq<string>, k: nat,
                                          e: Edge)
    requires k <= |lines|
    ensures e in EdgesBefore(x, files, f, lines, k) <==>
      1 <= e.2 <= k && e in FoundOn(x, files, f, Trim(lines[e.2 - 1]), e.2 - 1, Depth(lines, e.2 - 1))
  {
    hide FoundOn, Depth, Trim, EdgesBefore, IsActive, Target;
    if k == 0 {
      AtStart(x, files, f, lines);
    } else {
      StepLine(x, files, f, lines, k - 1);
      EdgesBeforeAre(x, files, f, lines, k - 1, e);
      FoundIs(x, files, f, Trim(lines[k - 1]), k - 1, Depth(lines, k - 1), e);
    }
  }

  /** Exactly one file of the inventory, counting duplicates, fits this stem. */
  predicate FitsOnly(files: seq<SourceFile>, stem: string, rust: bool, path: string) {
    Fitting(files, stem, rust) == multiset{path}
  }

  /** The only file that fits the parts; or, for a `use` that none fits, all but the last of them. */
  predicate Picks(files: seq<SourceFile>, rust: bool, text: string, parts: seq<string>, to: string) {
    || FitsOnly(files, Join(parts, '/'), rust, to)
    || (rust && "use " <= text && |parts| > 0 && Fitting(files, Join(parts, '/'), true) == multiset{}
        && FitsOnly(files, Join(parts[..|parts| - 1], '/'), true, to))
  }

  lemma OnlyIs(matches: seq<string>, to: string)
    ensures Only(matches) == Some(to) <==> multiset(matches) == multiset{to}
    ensures |matches| == 0 <==> multiset(matches) == multiset{}
  {
    assert |multiset(matches)| == |matches|;
    assert |multiset{to}| == 1;
    if |matches| == 1 { assert matches == [matches[0]]; }
  }

  lemma ChosenIs(files: seq<SourceFile>, f: SourceFile, text: string, parts: seq<string>, to: string)
    ensures Chosen(files, f, text, parts) == Some(to) <==> Picks(files, IsRust(f.path), text, parts, to) && to != f.path
  {
    hide Matches, Fitting, IsRust, Join, Only;
    var rust := IsRust(f.path);
    MatchesAreFitting(files, Join(parts, '/'), rust);
    OnlyIs(Matches(files, Join(parts, '/'), rust), to);
    if |parts| > 0 {
      MatchesAreFitting(files, Join(parts[..|parts| - 1], '/'), true);
      OnlyIs(Matches(files, Join(parts[..|parts| - 1], '/'), true), to);
    }
  }

  /** An import line of a balanced file, outside all braces, whose candidate picks `e.1`. */
  ghost predicate IsEvidence(x: Extract, all: seq<SourceFile>, e: Edge, f: SourceFile, candidate: string) {
    var lines := Lines(f.content);
    && f in all && f.path == e.0 != e.1 && !IsOpaque(f) && Balanced(lines)
    && 1 <= e.2 <= |lines| && Depth(lines, e.2 - 1) == 0 && IsActive(Trim(lines[e.2 - 1]))
    && candidate in x(f.path, Trim(lines[e.2 - 1]))
    && IsPicked(all, f, Trim(lines[e.2 - 1]), candidate, e.1)
  }

  predicate IsPicked(all: seq<SourceFile>, f: SourceFile, text: string, candidate: string, to: string) {
    var parts := StemParts(f.path, text, candidate);
    parts.Some? && Picks(all, IsRust(f.path), text, parts.value, to)
  }

  lemma TargetIs(files: seq<SourceFile>, f: SourceFile, text: string, candidate: string, to: string)
    ensures Target(files, f, text, candidate) == Some(to) <==> IsPicked(files, f, text, candidate, to) && to != f.path
  {
    hide Chosen, Picks, StemParts, IsRust;
    var parts := StemParts(f.path, text, candidate);
    if parts.Some? { ChosenIs(files, f, text, parts.value, to); }
  }

  lemma FileEdgesAre(x: Extract, all: seq<SourceFile>, f: SourceFile, e: Edge)
    ensures e in FileEdges(x, all, f) <==>
      var lines := Lines(f.content);
      && !IsOpaque(f) && Balanced(lines) && 1 <= e.2 <= |lines|
      && e in FoundOn(x, all, f, Trim(lines[e.2 - 1]), e.2 - 1, Depth(lines, e.2 - 1))
  {
    hide IsOpaque, Balanced, EdgesBefore, FoundOn, Depth, Trim;
    var lines := Lines(f.content);
    EdgesBeforeAre(x, all, f, lines, |lines|, e);
  }

  /** What a file's edge is evidenced by. */
  lemma EdgeHasEvidence(x: Extract, all: seq<SourceFile>, e: Edge, f: SourceFile) returns (c: string)
    requires f in all && e in FileEdges(x, all, f)
    ensures IsEvidence(x, all, e, f, c)
  {
    hide FileEdges, IsOpaque, Balanced, Depth, IsActive, Trim, Target, IsPicked, FoundOn, Lines;
    var lines := Lines(f.content);
    FileEdgesAre(x, all, f, e);
    var text := Trim(lines[e.2 - 1]);
    FoundIs(x, all, f, text, e.2 - 1, Depth(lines, e.2 - 1), e);
    c :| c in x(f.path, text) && Target(all, f, text, c) == Some(e.1);
    TargetIs(all, f, text, c, e.1);
  }

  lemma EvidenceIsEdge(x: Extract, all: seq<SourceFile>, e: Edge, f: SourceFile, c: string)
    requires IsEvidence(x, all, e, f, c)
    ensures f in all && e in FileEdges(x, all, f)
  {
    hide FileEdges, IsOpaque, Balanced, Depth, IsActive, Trim, Target, IsPicked, FoundOn, Lines;
    var lines := Lines(f.content);
    var text := Trim(lines[e.2 - 1]);
    TargetIs(all, f, text, c, e.1);
    FoundIs(x, all, f, text, e.2 - 1, Depth(lines, e.2 - 1), e);
    FileEdgesAre(x, all, f, e);
  }

  /**
   * The evidenced edges are exactly the import lines, outside all braces of a file whose braces balance
   * from beginning to end, that name a path inside the inventory which exactly one file fits, and
   * another one.
   */
  lemma EdgesExactly(x: Extract, all: seq<SourceFile>, e: Edge)
    ensures e in EdgeSet(x, all) <==> exists f, c :: IsEvidence(x, all, e, f, c)
  {
    hide FileEdges, IsEvidence;
    if e in EdgeSet(x, all) {
      var f :| f in all && e in FileEdges(x, all, f);
      var c := EdgeHasEvidence(x, all, e, f);
    } else if f, c :| IsEvidence(x, all, e, f, c) {
      EvidenceIsEdge(x, all, e, f, c);
    }
  }

  lemma OneMember(stem: string, rust: bool, only: string, path: string)
    requires path in One(stem, rust, only)
    ensures path == only && Fits(stem, rust, path)
  {
    hide Fits;
  }

  lemma FittingNeedsFile(files: seq<SourceFile>, stem: string, rust: bool, path: string)
    requires path in Fitting(files, stem, rust)
    ensures |files| > 0
  {
    hide One;
  }

  lemma {:induction false} FittingMember(files: seq<SourceFile>, stem: string, rust: bool, path: string)
    returns (f: SourceFile)
    requires path in Fitting(files, stem, rust)
    ensures Fits(stem, rust, path) && f in files && f.path == path
  {
    hide Fits, Fitting, One;
    FittingNeedsFile(files, stem, rust, path);
    var front := files[..|files| - 1];
    f := files[|files| - 1];
    assert files == front + [f];
    FittingSnoc(front, f, stem, rust);
    if path in Fitting(front, stem, rust) { f := FittingMember(front, stem, rust, path); }
    else { OneMember(stem, rust, f.path, path); }
  }

  lemma PickedFits(all: seq<SourceFile>, text: string, parts: seq<string>, to: string) returns (names: seq<string>)
    requires Picks(all, true, text, parts, to)
    ensures names == parts || (|parts| > 0 && names == parts[..|parts| - 1])
    ensures to == Join(names, '/') + ".rs" || to == Join(names, '/') + "/mod.rs"
    ensures exists target :: target in all && target.path == to
  {
    hide Join, Fitting, IsRustFile;
    names := if FitsOnly(all, Join(parts, '/'), true, to) then parts else parts[..|parts| - 1];
    assert to in Fitting(all, Join(names, '/'), true);
    var target := FittingMember(all, Join(names, '/'), true, to);
  }

  /** Where an edge of a Rust file leads: a file of the inventory, named by names below its root. */
  lemma RustEdgeLeadsTo(all: seq<SourceFile>, f: SourceFile, text: string, candidate: string, to: string)
    returns (names: seq<string>)
    requires IsRust(f.path) && IsPicked(all, f, text, candidate, to)
    ensures AllNames(names) && (to == Join(names, '/') + ".rs" || to == Join(names, '/') + "/mod.rs")
    ensures exists parts ::
      StemParts(f.path, text, candidate) == Some(parts) &&
        (names == parts || (|parts| > 0 && names == parts[..|parts| - 1]))
    ensures exists target :: target in all && target.path == to
  {
    hide StemParts, IsRust, Picks, Join, IsName, StaysBelow, Anchor, Components, JoinedTo, Height;
    var parts := StemParts(f.path, text, candidate).value;
    StemExactly(f.path, text, candidate);
    names := PickedFits(all, text, parts, to);
  }

  lemma TargetIgnoresOrder(a: seq<SourceFile>, b: seq<SourceFile>, f: SourceFile, text: string, candidate: string)
    requires SameInventory(a, b)
    ensures Target(a, f, text, candidate) == Target(b, f, text, candidate)
  {
    hide StemParts, Matches, Only, Join, IsRust;
    var parts := StemParts(f.path, text, candidate);
    if parts.Some? {
      MatchesSameOrder(a, b, Join(parts.value, '/'), IsRust(f.path));
      if |parts.value| > 0 { MatchesSameOrder(a, b, Join(parts.value[..|parts.value| - 1], '/'), true); }
    }
  }

  lemma MatchesSameOrder(a: seq<SourceFile>, b: seq<SourceFile>, stem: string, rust: bool)
    requires SameInventory(a, b)
    ensures Only(Matches(a, stem, rust)) == Only(Matches(b, stem, rust))
    ensures |Matches(a, stem, rust)| == |Matches(b, stem, rust)|
  {
    MatchesAreFitting(a, stem, rust);
    MatchesAreFitting(b, stem, rust);
    FittingIgnoresOrder(a, b, stem, rust);
    hide Matches, Fitting;
    OnlyByScan(Matches(a, stem, rust), Matches(b, stem, rust));
  }

  lemma {:induction false} LineIgnoresOrder(a: seq<SourceFile>, b: seq<SourceFile>, f: SourceFile, text: string,
                                            line: nat, candidates: seq<string>)
    requires SameInventory(a, b)
    ensures LineEdges(a, f, text, line, candidates) == LineEdges(b, f, text, line, candidates)
  {
    if |candidates| > 0 {
      hide Target;
      LineIgnoresOrder(a, b, f, text, line, candidates[..|candidates| - 1]);
      TargetIgnoresOrder(a, b, f, text, candidates[|candidates| - 1]);
    }
  }

  lemma FoundIgnoresOrder(x: Extract, a: seq<SourceFile>, b: seq<SourceFile>, f: SourceFile, text: string, line: nat,
                          depth: int)
    requires SameInventory(a, b)
    ensures FoundOn(x, a, f, text, line, depth) == FoundOn(x, b, f, text, line, depth)
  {
    hide LineEdges, IsActive;
    LineIgnoresOrder(a, b, f, text, line, x(f.path, text));
  }

  lemma {:induction false} FileIgnoresOrder(x: Extract, a: seq<SourceFile>, b: seq<SourceFile>, f: SourceFile,
                                            lines: seq<string>, k: nat)
    requires SameInventory(a, b) && k <= |lines|
    ensures EdgesBefore(x, a, f, lines, k) == EdgesBefore(x, b, f, lines, k)
  {
    hide EdgesBefore, Depth, FoundOn, Trim, Change;
    if k == 0 {
      AtStart(x, a, f, lines);
      AtStart(x, b, f, lines);
    } else {
      StepLine(x, a, f, lines, k - 1);
      StepLine(x, b, f, lines, k - 1);
      FileIgnoresOrder(x, a, b, f, lines, k - 1);
      FoundIgnoresOrder(x, a, b, f, Trim(lines[k - 1]), k - 1, Depth(lines, k - 1));
    }
  }

  /** Permuting the inventory changes no evidenced edge. */
  lemma EdgesIgnoreOrder(x: Extract, a: seq<SourceFile>, b: seq<SourceFile>, edges: seq<Edge>, edges': seq<Edge>)
    requires SameInventory(a, b)
    requires Lists(EdgeAtMost, edges, EdgeSet(x, a)) && Lists(EdgeAtMost, edges', EdgeSet(x, b))
    ensures edges == edges'
  {
    EdgeIsOrder();
    forall f ensures f in a <==> f in b ensures FileEdges(x, a, f) == FileEdges(x, b, f) {
      SameElements(a, b, f);
      var lines := Lines(f.content);
      FileIgnoresOrder(x, a, b, f, lines, |lines|);
    }
    hide FileEdges, Lists, IsOrder, IsAntisymmetric, EdgeAtMost;
    assert EdgeSet(x, a) == EdgeSet(x, b);
    ListIsUnique(EdgeAtMost, edges, edges', EdgeSet(x, a));
  }
}
