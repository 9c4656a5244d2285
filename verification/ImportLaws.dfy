/**
 * Which file an import resolves to (src/adapters/imports.rs:126-250), in terms of the names in the
 * paths.
 */
module ImportLaws {
  import opened Text
  import opened Imports

  // ----- the segments of a path -----

  /** A part of a path between slashes. */
  predicate IsPart(part: string) { '/' !in part }

  predicate AreParts(parts: seq<string>) { forall part :: part in parts ==> IsPart(part) }

  /** A part that is kept: neither empty nor `.`. */
  predicate AreNames(parts: seq<string>) { forall part :: part in parts ==> IsPart(part) && part != "" && part != "." }

  lemma {:induction false} KeepAppend(a: seq<string>, b: seq<string>, dropUp: bool)
    ensures KeepSegments(a + b, dropUp) == KeepSegments(a, dropUp) + KeepSegments(b, dropUp)
  {
    if a == [] {
      assert a + b == b;
    } else {
      assert (a + b)[1..] == a[1..] + b;
      KeepAppend(a[1..], b, dropUp);
    }
  }

  lemma {:induction false} NamesAreKept(names: seq<string>, dropUp: bool)
    requires AreNames(names) && (dropUp ==> ".." !in names)
    ensures KeepSegments(names, dropUp) == names
  {
    if names != [] {
      assert names[0] in names;
      NamesAreKept(names[1..], dropUp);
      assert [names[0]] + names[1..] == names;
    }
  }

  /** The leading `./` parts would be dropped anyway. */
  lemma {:induction false} TrimChangesNothing(path: string, dropUp: bool)
    ensures KeepSegments(Split(TrimDotSlash(path), '/'), dropUp) == KeepSegments(Split(path, '/'), dropUp)
    decreases |path|
  {
    if "./" <= path {
      var rest := path[2..];
      TrimChangesNothing(rest, dropUp);
      assert path == "." + ['/'] + rest;
      SplitAtSep(".", '/', rest);
      SplitWithoutSep(".", '/');
      KeepAppend(["."], Split(rest, '/'), dropUp);
      hide Split;
      assert KeepSegments(["."], dropUp) == [];
    }
  }

  lemma SplitOfJoined(parts: seq<string>)
    requires AreParts(parts)
    ensures Split(Join(parts, '/'), '/') == if parts == [] then [""] else parts
  {
    if parts != [] { SplitJoin(parts, '/'); }
  }

  /** What the parts of a path are read as. */
  function Read(parts: seq<string>, dropUp: bool): seq<string> { DropModuleLeaf(KeepSegments(parts, dropUp)) }

  lemma ReadIs(parts: seq<string>)
    requires AreParts(parts)
    ensures Normalize(Join(parts, '/')) == Read(parts, false)
    ensures CandidateSegments(Join(parts, '/')) == Read(parts, true)
  {
    var path := Join(parts, '/');
    TrimChangesNothing(path, false);
    TrimChangesNothing(path, true);
    SplitOfJoined(parts);
    hide Split, Join, TrimDotSlash, DropModuleLeaf;
    assert KeepSegments([""], false) == [] == KeepSegments([""], true);
  }

  lemma NoiseRead(a: seq<string>, noise: string, b: seq<string>, dropUp: bool)
    requires noise == "" || noise == "." || (dropUp && noise == "..")
    ensures Read(a + [noise] + b, dropUp) == Read(a + b, dropUp)
  {
    hide DropModuleLeaf;
    KeepAppend(a + [noise], b, dropUp);
    KeepAppend(a, [noise], dropUp);
    KeepAppend(a, b, dropUp);
    assert KeepSegments([noise], dropUp) == [];
    assert KeepSegments(a, dropUp) + [] == KeepSegments(a, dropUp);
  }

  /** Empty parts and `.` never count, and `..` does not count in an import. */
  lemma NoiseIsDropped(a: seq<string>, noise: string, b: seq<string>)
    requires AreParts(a + b)
    ensures noise == "" || noise == "." ==> Normalize(Join(a + [noise] + b, '/')) == Normalize(Join(a + b, '/'))
    ensures noise == "" || noise == "." || noise == ".." ==>
      CandidateSegments(Join(a + [noise] + b, '/')) == CandidateSegments(Join(a + b, '/'))
  {
    hide Read, Join, Normalize, CandidateSegments;
    if noise == "" || noise == "." || noise == ".." {
      ReadIs(a + [noise] + b);
      ReadIs(a + b);
      NoiseRead(a, noise, b, true);
      if noise != ".." { NoiseRead(a, noise, b, false); }
    }
  }

  // ----- extensions and module files -----

  lemma {:induction false} LastDotIs(s: string, n: nat, dot: nat)
    requires dot < n <= |s| && s[dot] == '.' && forall k :: dot < k < n ==> s[k] != '.'
    ensures LastDot(s, n) == Some(dot)
  {
    if dot < n - 1 { LastDotIs(s, n - 1, dot); }
  }

  lemma {:induction false} NoLastDot(s: string, n: nat)
    requires n <= |s| && forall k :: 0 <= k < n ==> s[k] != '.'
    ensures LastDot(s, n) == None
  {
    if n > 0 { NoLastDot(s, n - 1); }
  }

  /** A file name as a stem with or without an extension; the extension begins at the last dot. */
  function FileName(stem: string, extension: Option<string>): string {
    match extension
    case None => stem
    case Some(e) => stem + ("." + e)
  }

  predicate IsFileName(stem: string, extension: Option<string>) {
    match extension
    case None => '.' !in stem
    case Some(e) => '.' !in e
  }

  lemma StemIs(stem: string, extension: Option<string>)
    requires IsFileName(stem, extension)
    ensures WithoutExtension(FileName(stem, extension)) == stem
  {
    var s := FileName(stem, extension);
    match extension
    case None => NoLastDot(s, |s|);
    case Some(e) =>
      assert forall k :: |stem| < k < |s| ==> s[k] == e[k - |stem| - 1];
      LastDotIs(s, |s|, |stem|);
  }

  /**
   * A path of names ending in a file is read as its directories and the file's stem, and a `mod` or
   * `index` file as its directories alone; an import of the same names likewise.
   */
  lemma FileReads(dirs: seq<string>, stem: string, extension: Option<string>)
    requires IsFileName(stem, extension) && AreNames(dirs + [FileName(stem, extension)])
    ensures var read := if stem == "mod" || stem == "index" then dirs else dirs + [stem];
      var path := Join(dirs + [FileName(stem, extension)], '/');
      && Normalize(path) == read
      && (".." !in dirs + [FileName(stem, extension)] ==> CandidateSegments(path) == read)
  {
    var names := dirs + [FileName(stem, extension)];
    ReadIs(names);
    NamesAreKept(names, false);
    if ".." !in names { NamesAreKept(names, true); }
    StemIs(stem, extension);
    hide Normalize, CandidateSegments, WithoutExtension, FileName, Join, KeepSegments;
    assert names[..|names| - 1] == dirs;
  }

  // ----- the chosen file -----

  /** The module path of the file ends in the imported names. */
  ghost predicate Ends(path: string, cand: seq<string>) { exists pre :: Normalize(path) == pre + cand }

  /** The file is below the importer's directory, if the importer has one. */
  ghost predicate IsNear(path: string, importer: seq<string>) {
    exists dir, name, rest :: IsBelow(path, importer, dir, name, rest)
  }

  predicate IsBelow(path: string, importer: seq<string>, dir: seq<string>, name: string, rest: seq<string>) {
    dir != [] && importer == dir + [name] && Normalize(path) == dir + rest && rest != []
  }

  /**
   * The file ends in the imported names; no other that does is near when it is not, or is as near and
   * deeper, or is as near and as deep and before it in the order of paths.
   */
  ghost predicate IsChosen(files: seq<SourceFile>, importer: seq<string>, cand: seq<string>, best: string) {
    && (exists f :: f in files && f.path == best)
    && Ends(best, cand)
    && forall f :: f in files && Ends(f.path, cand) ==>
         && (IsNear(f.path, importer) ==> IsNear(best, importer))
         && (IsNear(f.path, importer) == IsNear(best, importer) ==>
               && |Normalize(f.path)| <= |Normalize(best)|
               && (|Normalize(f.path)| == |Normalize(best)| ==> TextAtMost(best, f.path)))
  }

  ghost predicate SomeEnds(files: seq<SourceFile>, cand: seq<string>) {
    exists f :: f in files && Ends(f.path, cand)
  }

  lemma EndsIs(path: string, cand: seq<string>)
    ensures Ends(path, cand) <==> IsSuffix(cand, Normalize(path))
  {
    hide Normalize;
    var norm := Normalize(path);
    if IsSuffix(cand, norm) {
      assert norm == norm[..|norm| - |cand|] + cand;
    }
    if pre :| norm == pre + cand {
      assert norm[|pre|..] == cand;
    }
  }

  lemma NearIs(path: string, importer: seq<string>)
    ensures IsNear(path, importer) <==> Relative(Normalize(path), importer)
  {
    hide Normalize;
    var norm := Normalize(path);
    if Relative(norm, importer) {
      var n := |importer| - 1;
      assert norm == norm[..n] + norm[n..] && importer == importer[..n] + [importer[n]];
      assert IsBelow(path, importer, importer[..n], importer[n], norm[n..]);
    }
    if dir, name, rest :| IsBelow(path, importer, dir, name, rest) {
      assert norm[..|dir|] == dir == importer[..|dir|];
    }
  }

  lemma InPaths(files: seq<SourceFile>, path: string)
    ensures path in Paths(files) <==> exists f :: f in files && f.path == path
  {
    if path in Paths(files) {
      var k :| 0 <= k < |files| && Paths(files)[k] == path;
      assert files[k] in files && files[k].path == path;
    }
    if f :| f in files && f.path == path {
      var k :| 0 <= k < |files| && files[k] == f;
      assert Paths(files)[k] == path;
    }
  }

  lemma BestIsChosen(files: seq<SourceFile>, importer: seq<string>, cand: seq<string>)
    ensures var r := BestMatch(files, importer, cand);
      && (r.Some? <==> SomeEnds(files, cand))
      && (r.Some? ==> IsChosen(files, importer, cand, r.value))
  {
    ScanHasBest(files, importer, cand);
    hide BestMatch, Normalize, Ends, IsNear, IsSuffix, Relative, TextAtMost, Paths;
    forall path ensures path in Paths(files) <==> exists f :: f in files && f.path == path { InPaths(files, path); }
    forall path ensures Ends(path, cand) <==> IsSuffix(cand, Normalize(path)) { EndsIs(path, cand); }
    forall path ensures IsNear(path, importer) <==> Relative(Normalize(path), importer) { NearIs(path, importer); }
  }

  /**
   * What an import resolves to: the file chosen among those that end in its names; in Rust, when there
   * is none, the one chosen among those that end in its names without the last; otherwise nothing.
   */
  lemma ResolvedExactly(files: seq<SourceFile>, candidate: string, importer: seq<string>, isRust: bool)
    ensures var cand, r := CandidateSegments(candidate), Resolved(files, candidate, importer, isRust);
      if cand == [] then r.None?
      else if SomeEnds(files, cand) then r.Some? && IsChosen(files, importer, cand, r.value)
      else if isRust && |cand| > 1 && SomeEnds(files, cand[..|cand| - 1]) then
        r.Some? && IsChosen(files, importer, cand[..|cand| - 1], r.value)
      else r.None?
  {
    hide CandidateSegments, BestMatch, SomeEnds, IsChosen;
    var cand := CandidateSegments(candidate);
    BestIsChosen(files, importer, cand);
    if |cand| > 1 { BestIsChosen(files, importer, cand[..|cand| - 1]); }
  }
}
