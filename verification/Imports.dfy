/**
 * The import graph (src/adapters/imports.rs): resolving an import against an index of the inventory
 * by last segment, and the neighbours of a file.
 *
 * The extraction of import candidates is a parameter.
 */
module Imports {
  import opened Text

  datatype SourceFile = SourceFile(path: string, content: string)

  // ----- paths as segments -----

  function TrimDotSlash(path: string): string {
    if "./" <= path then TrimDotSlash(path[2..]) else path
  }

  function KeepSegments(parts: seq<string>, dropUp: bool): seq<string> {
    if |parts| == 0 then []
    else
      var part := parts[0];
      (if part == "" || part == "." || (dropUp && part == "..") then [] else [part]) + KeepSegments(parts[1..], dropUp)
  }

  /** Up to the last dot. */
  function WithoutExtension(s: string): string { if LastDot(s, |s|).Some? then s[..LastDot(s, |s|).value] else s }

  function DropModuleLeaf(segments: seq<string>): seq<string> {
    if |segments| == 0 then []
    else
      var n := |segments| - 1;
      var last := WithoutExtension(segments[n]);
      if last == "mod" || last == "index" then segments[..n] else segments[..n] + [last]
  }

  /** `normalize_path` */
  function Normalize(path: string): seq<string> { DropModuleLeaf(KeepSegments(Split(TrimDotSlash(path), '/'), false)) }

  /** `candidate_segments` */
  function CandidateSegments(candidate: string): seq<string> {
    DropModuleLeaf(KeepSegments(Split(TrimDotSlash(candidate), '/'), true))
  }

  predicate IsSuffix(cand: seq<string>, norm: seq<string>) {
    |cand| <= |norm| && norm[|norm| - |cand|..] == cand
  }

  // ----- the index -----

  datatype Resolver = Resolver(norm: seq<seq<string>>, paths: seq<string>, byLast: map<string, seq<nat>>)

  predicate AllBelow(idxs: seq<nat>, n: nat) { forall k :: 0 <= k < |idxs| ==> idxs[k] < n }

  function EntryAt(norm: seq<seq<string>>, last: string, i: nat): seq<nat>
    requires i < |norm|
  {
    if |norm[i]| > 0 && norm[i][|norm[i]| - 1] == last then [i] else []
  }

  /** The entries before `n` whose last segment is `last`, in order. */
  function Ending(norm: seq<seq<string>>, last: string, n: nat): (r: seq<nat>)
    requires n <= |norm|
    ensures AllBelow(r, n)
  {
    if n == 0 then []
    else Ending(norm, last, n - 1) + EntryAt(norm, last, n - 1)
  }

  /** `entry(key).or_default()`, for reading. */
  function ListAt<K(==), T>(index: map<K, seq<T>>, key: K): seq<T> { if key in index then index[key] else [] }

  function Norms(files: seq<SourceFile>): (r: seq<seq<string>>)
    ensures |r| == |files| && forall k :: 0 <= k < |r| ==> r[k] == Normalize(files[k].path)
  {
    if |files| == 0 then [] else Norms(files[..|files| - 1]) + [Normalize(files[|files| - 1].path)]
  }

  function Paths(files: seq<SourceFile>): (r: seq<string>)
    ensures |r| == |files| && forall k :: 0 <= k < |r| ==> r[k] == files[k].path
  {
    if |files| == 0 then [] else Paths(files[..|files| - 1]) + [files[|files| - 1].path]
  }

  ghost predicate Indexes(r: Resolver, files: seq<SourceFile>) {
    && r.norm == Norms(files) && r.paths == Paths(files)
    && forall last :: ListAt(r.byLast, last) == Ending(r.norm, last, |r.norm|)
  }

  lemma {:induction false} EndingPrefix(norm: seq<seq<string>>, more: seq<string>, last: string, n: nat)
    requires n <= |norm|
    ensures Ending(norm + [more], last, n) == Ending(norm, last, n)
  {
    if n > 0 { EndingPrefix(norm, more, last, n - 1); }
  }

  function AddEntry(byLast: map<string, seq<nat>>, segments: seq<string>, i: nat): map<string, seq<nat>> {
    if |segments| == 0 then byLast
    else
      var last := segments[|segments| - 1];
      byLast[last := ListAt(byLast, last) + [i]]
  }

  lemma IndexesMore(r: Resolver, front: seq<SourceFile>, f: SourceFile)
    requires Indexes(r, front)
    ensures Indexes(Resolver(r.norm + [Normalize(f.path)], r.paths + [f.path],
                             AddEntry(r.byLast, Normalize(f.path), |r.norm|)), front + [f])
  {
    var segments := Normalize(f.path);
    assert (front + [f])[..|front|] == front;
    assert Norms(front + [f]) == r.norm + [segments] && Paths(front + [f]) == r.paths + [f.path];
    hide Normalize, Norms, Paths, AddEntry, ListAt, Ending;
    forall last
      ensures ListAt(AddEntry(r.byLast, segments, |r.norm|), last) == Ending(r.norm + [segments], last, |r.norm| + 1)
    {
      assert ListAt(r.byLast, last) == Ending(r.norm, last, |r.norm|);
      EntryAdded(r.byLast, r.norm, segments, last);
    }
  }

  lemma EntryAdded(byLast: map<string, seq<nat>>, norm: seq<seq<string>>, segments: seq<string>, last: string)
    ensures ListAt(byLast, last) == Ending(norm, last, |norm|) ==>
      ListAt(AddEntry(byLast, segments, |norm|), last) == Ending(norm + [segments], last, |norm| + 1)
  {
    var n := |norm|;
    EndingPrefix(norm, segments, last, n);
    assert (norm + [segments])[n] == segments;
    assert Ending(norm + [segments], last, n + 1) == Ending(norm, last, n) + EntryAt(norm + [segments], last, n);
    hide Ending;
    if |segments| == 0 || segments[|segments| - 1] != last {
      assert Ending(norm, last, n) + [] == Ending(norm, last, n);
    }
  }

  lemma IndexesNothing()
    ensures Indexes(Resolver([], [], map[]), [])
  {
  }

  method NewResolver(files: seq<SourceFile>) returns (r: Resolver)
    ensures Indexes(r, files)
  {
    hide Normalize, Indexes;
    var norm: seq<seq<string>> := [];
    var paths: seq<string> := [];
    var byLast: map<string, seq<nat>> := map[];
    IndexesNothing();
    assert files[..0] == [];
    for k := 0 to |files|
      invariant Indexes(Resolver(norm, paths, byLast), files[..k])
    {
      assert files[..k + 1] == files[..k] + [files[k]];
      IndexesMore(Resolver(norm, paths, byLast), files[..k], files[k]);
      var segments := Normalize(files[k].path);
      if |segments| > 0 {
        var last := segments[|segments| - 1];
        byLast := byLast[last := (if last in byLast then byLast[last] else []) + [|norm|]];
      }
      norm := norm + [segments];
      paths := paths + [files[k].path];
    }
    assert files[..|files|] == files;
    r := Resolver(norm, paths, byLast);
  }

  /** An index that holds an entry of the inventory, and a suffix match. */
  predicate FitsAt(norm: seq<seq<string>>, cand: seq<string>, i: nat) { i < |norm| && IsSuffix(cand, norm[i]) }

  function Filtered(norm: seq<seq<string>>, cand: seq<string>, idxs: seq<nat>): seq<nat> {
    if |idxs| == 0 then []
    else
      var n := |idxs| - 1;
      Filtered(norm, cand, idxs[..n]) + if FitsAt(norm, cand, idxs[n]) then [idxs[n]] else []
  }

  /** `suffix_matches`: through the index. */
  function SuffixMatches(r: Resolver, cand: seq<string>): seq<nat>
    requires |cand| > 0
  {
    Filtered(r.norm, cand, ListAt(r.byLast, cand[|cand| - 1]))
  }

  /** What a scan of every file finds. */
  function FullScan(norm: seq<seq<string>>, cand: seq<string>, n: nat): seq<nat>
    requires n <= |norm|
  {
    if n == 0 then [] else FullScan(norm, cand, n - 1) + if FitsAt(norm, cand, n - 1) then [n - 1] else []
  }

  lemma {:induction false} ScanIs(norm: seq<seq<string>>, cand: seq<string>, n: nat)
    requires n <= |norm|
    ensures AllBelow(FullScan(norm, cand, n), n)
    ensures forall i :: i in FullScan(norm, cand, n) <==> 0 <= i < n && FitsAt(norm, cand, i)
  {
    if n > 0 {
      hide FitsAt;
      ScanIs(norm, cand, n - 1);
    }
  }

  lemma FilteredSnoc(norm: seq<seq<string>>, cand: seq<string>, idxs: seq<nat>, i: nat)
    ensures Filtered(norm, cand, idxs + [i]) == Filtered(norm, cand, idxs) + if FitsAt(norm, cand, i) then [i] else []
  {
    assert (idxs + [i])[..|idxs|] == idxs;
  }

  lemma SuffixHasLast(cand: seq<string>, s: seq<string>)
    requires |cand| > 0 && IsSuffix(cand, s)
    ensures s[|s| - 1] == cand[|cand| - 1]
  {
    assert s[|s| - 1] == s[|s| - |cand|..][|cand| - 1];
  }

  /** One entry of the index, filtered, is one step of the scan. */
  lemma FilteredEntry(norm: seq<seq<string>>, cand: seq<string>, before: seq<nat>, i: nat)
    requires |cand| > 0 && i < |norm|
    ensures Filtered(norm, cand, before + EntryAt(norm, cand[|cand| - 1], i))
         == Filtered(norm, cand, before) + if FitsAt(norm, cand, i) then [i] else []
  {
    var last, s := cand[|cand| - 1], norm[i];
    if |s| > 0 && s[|s| - 1] == last {
      FilteredSnoc(norm, cand, before, i);
    } else {
      assert before + [] == before;
      if IsSuffix(cand, s) { SuffixHasLast(cand, s); }
    }
  }

  predicate IndexScans(norm: seq<seq<string>>, cand: seq<string>, n: nat)
    requires |cand| > 0 && n <= |norm|
  {
    Filtered(norm, cand, Ending(norm, cand[|cand| - 1], n)) == FullScan(norm, cand, n)
  }

  lemma ScansOneMore(norm: seq<seq<string>>, cand: seq<string>, n: nat)
    requires |cand| > 0 && n < |norm| && IndexScans(norm, cand, n)
    ensures IndexScans(norm, cand, n + 1)
  {
    hide FitsAt, Filtered, EntryAt, AllBelow;
    FilteredEntry(norm, cand, Ending(norm, cand[|cand| - 1], n), n);
  }

  lemma {:induction false} FilteredIsScan(norm: seq<seq<string>>, cand: seq<string>, n: nat)
    requires |cand| > 0 && n <= |norm|
    ensures IndexScans(norm, cand, n)
  {
    if n > 0 {
      hide IndexScans;
      FilteredIsScan(norm, cand, n - 1);
      ScansOneMore(norm, cand, n - 1);
    }
  }

  /** The index finds exactly what a full scan of the inventory would. */
  lemma IndexIsComplete(r: Resolver, files: seq<SourceFile>, cand: seq<string>)
    requires Indexes(r, files) && |cand| > 0
    ensures SuffixMatches(r, cand) == FullScan(Norms(files), cand, |files|)
  {
    FilteredIsScan(r.norm, cand, |r.norm|);
  }

  // ----- the best match -----

  predicate Relative(norm: seq<string>, importer: seq<string>) {
    var dir := if |importer| > 0 then |importer| - 1 else 0;
    dir > 0 && |norm| > dir && norm[..dir] == importer[..dir]
  }

  /** `goodness`, then the path: `p` is not worse than `q`. */
  predicate NotWorse(importer: seq<string>, p: string, q: string) {
    var (a, b) := (Normalize(p), Normalize(q));
    if Relative(a, importer) != Relative(b, importer) then Relative(a, importer)
    else if |a| != |b| then |a| > |b|
    else TextAtMost(p, q)
  }

  lemma NotWorseIsTotal(importer: seq<string>, p: string, q: string)
    ensures NotWorse(importer, p, q) || NotWorse(importer, q, p)
    ensures NotWorse(importer, p, q) && NotWorse(importer, q, p) ==> p == q
  {
    TextIsTotal(p, q);
  }

  lemma NotWorseIsTransitive(importer: seq<string>, p: string, q: string, r: string)
    requires NotWorse(importer, p, q) && NotWorse(importer, q, r)
    ensures NotWorse(importer, p, r)
  {
    hide Relative, Normalize;
    if TextAtMost(p, q) && TextAtMost(q, r) { TextIsTransitive(p, q, r); }
  }

  /** `min_by`: the first of the least. */
  function LeastOf(paths: seq<string>, importer: seq<string>, idxs: seq<nat>): (r: Option<string>)
    requires AllBelow(idxs, |paths|)
  {
    if |idxs| == 0 then None
    else
      var n := |idxs| - 1;
      var p := paths[idxs[n]];
      match LeastOf(paths, importer, idxs[..n])
      case None => Some(p)
      case Some(best) => if NotWorse(importer, best, p) then Some(best) else Some(p)
  }

  /** The one match that no other match is better than, if there is any match. */
  ghost predicate IsBest(importer: seq<string>, paths: seq<string>, cand: seq<string>, r: Option<string>) {
    match r
    case None => forall p :: p in paths ==> !IsSuffix(cand, Normalize(p))
    case Some(best) =>
      && best in paths && IsSuffix(cand, Normalize(best))
      && forall p :: p in paths && IsSuffix(cand, Normalize(p)) ==> NotWorse(importer, best, p)
  }

  lemma {:induction false} LeastIsLeast(paths: seq<string>, importer: seq<string>, idxs: seq<nat>)
    requires AllBelow(idxs, |paths|)
    ensures var r := LeastOf(paths, importer, idxs);
      && (r.None? <==> |idxs| == 0)
      && (r.Some? ==> exists k :: 0 <= k < |idxs| && paths[idxs[k]] == r.value)
      && (r.Some? ==> forall k :: 0 <= k < |idxs| ==> NotWorse(importer, r.value, paths[idxs[k]]))
  {
    if |idxs| > 0 {
      var n := |idxs| - 1;
      var p := paths[idxs[n]];
      LeastIsLeast(paths, importer, idxs[..n]);
      var before := LeastOf(paths, importer, idxs[..n]);
      NotWorseIsTotal(importer, p, p);
      if before.Some? {
        var best := before.value;
        NotWorseIsTotal(importer, best, p);
        forall k | 0 <= k < n ensures NotWorse(importer, LeastOf(paths, importer, idxs).value, paths[idxs[k]]) {
          assert NotWorse(importer, best, paths[idxs[..n][k]]);
          if !NotWorse(importer, best, p) { NotWorseIsTransitive(importer, p, best, paths[idxs[k]]); }
        }
        var k :| 0 <= k < n && paths[idxs[..n][k]] == best;
        assert paths[idxs[k]] == best;
      }
    }
  }

  function BestMatch(files: seq<SourceFile>, importer: seq<string>, cand: seq<string>): Option<string> {
    ScanIs(Norms(files), cand, |files|);
    LeastOf(Paths(files), importer, FullScan(Norms(files), cand, |files|))
  }

  lemma ScanHasBest(files: seq<SourceFile>, importer: seq<string>, cand: seq<string>)
    ensures IsBest(importer, Paths(files), cand, BestMatch(files, importer, cand))
    ensures BestMatch(files, importer, cand).None? <==> |FullScan(Norms(files), cand, |files|)| == 0
  {
    ScanIs(Norms(files), cand, |files|);
    ScanCovers(files, cand);
    LeastIsBest(Paths(files), importer, cand, FullScan(Norms(files), cand, |files|));
  }

  /** The scan holds exactly the indices of the paths that match. */
  ghost predicate Covers(paths: seq<string>, cand: seq<string>, idxs: seq<nat>) {
    && AllBelow(idxs, |paths|)
    && (forall k :: 0 <= k < |idxs| ==> paths[idxs[k]] in paths && IsSuffix(cand, Normalize(paths[idxs[k]])))
    && (forall p :: p in paths && IsSuffix(cand, Normalize(p)) ==> exists k :: 0 <= k < |idxs| && paths[idxs[k]] == p)
  }

  lemma ScanCovers(files: seq<SourceFile>, cand: seq<string>)
    ensures Covers(Paths(files), cand, FullScan(Norms(files), cand, |files|))
  {
    var paths, norm, idxs := Paths(files), Norms(files), FullScan(Norms(files), cand, |files|);
    ScanIs(norm, cand, |files|);
    hide Normalize, IsSuffix, FullScan, FitsAt;
    forall k | 0 <= k < |idxs| ensures paths[idxs[k]] in paths && IsSuffix(cand, Normalize(paths[idxs[k]])) {
      assert idxs[k] in idxs;
      FitsIs(files, cand, idxs[k]);
    }
    forall p | p in paths && IsSuffix(cand, Normalize(p)) ensures exists k :: 0 <= k < |idxs| && paths[idxs[k]] == p {
      var i :| 0 <= i < |paths| && paths[i] == p;
      FitsIs(files, cand, i);
      assert i in idxs;
    }
  }

  lemma FitsIs(files: seq<SourceFile>, cand: seq<string>, i: nat)
    requires i < |files|
    ensures FitsAt(Norms(files), cand, i) <==> IsSuffix(cand, Normalize(Paths(files)[i]))
  {
    hide Normalize, IsSuffix;
  }

  lemma LeastIsBest(paths: seq<string>, importer: seq<string>, cand: seq<string>, idxs: seq<nat>)
    requires Covers(paths, cand, idxs)
    ensures IsBest(importer, paths, cand, LeastOf(paths, importer, idxs))
    ensures LeastOf(paths, importer, idxs).None? <==> |idxs| == 0
  {
    LeastIsLeast(paths, importer, idxs);
    hide NotWorse, Normalize, IsSuffix, LeastOf;
  }

  /** The best match is determined by the set of paths, not their order. */
  lemma BestIsUnique(importer: seq<string>, a: seq<string>, b: seq<string>, cand: seq<string>, r: Option<string>,
                     r': Option<string>)
    requires forall p :: p in a <==> p in b
    requires IsBest(importer, a, cand, r) && IsBest(importer, b, cand, r')
    ensures r == r'
  {
    if r.Some? && r'.Some? { NotWorseIsTotal(importer, r.value, r'.value); }
  }

  // ----- resolving -----

  method Least(paths: seq<string>, importer: seq<string>, matches: seq<nat>) returns (best: Option<string>)
    requires AllBelow(matches, |paths|)
    ensures best == LeastOf(paths, importer, matches)
  {
    hide NotWorse;
    best := None;
    for k := 0 to |matches|
      invariant best == LeastOf(paths, importer, matches[..k])
    {
      assert matches[..k + 1][..k] == matches[..k];
      var p := paths[matches[k]];
      if best.None? || !NotWorse(importer, best.value, p) { best := Some(p); }
    }
    assert matches[..|matches|] == matches;
  }

  /** `resolve` */
  method Resolve(r: Resolver, ghost files: seq<SourceFile>, candidate: string, importer: seq<string>, isRust: bool)
    returns (target: Option<string>)
    requires Indexes(r, files)
    ensures target == Resolved(files, candidate, importer, isRust)
  {
    hide LeastOf, CandidateSegments, FullScan, SuffixMatches;
    var cand := CandidateSegments(candidate);
    if |cand| == 0 { return None; }
    IndexIsComplete(r, files, cand);
    ScanIs(Norms(files), cand, |files|);
    ScanHasBest(files, importer, cand);
    var matches := SuffixMatches(r, cand);
    if |matches| == 0 && isRust && |cand| > 1 {
      IndexIsComplete(r, files, cand[..|cand| - 1]);
      ScanIs(Norms(files), cand[..|cand| - 1], |files|);
      matches := SuffixMatches(r, cand[..|cand| - 1]);
    }
    target := Least(r.paths, importer, matches);
  }

  /** Resolution by scanning the whole inventory. */
  function Resolved(files: seq<SourceFile>, candidate: string, importer: seq<string>, isRust: bool): Option<string> {
    var cand := CandidateSegments(candidate);
    if |cand| == 0 then None
    else
      var best := BestMatch(files, importer, cand);
      if best.None? && isRust && |cand| > 1 then BestMatch(files, importer, cand[..|cand| - 1]) else best
  }

  predicate SameInventory(a: seq<SourceFile>, b: seq<SourceFile>) { multiset(a) == multiset(b) }

  lemma SamePaths(a: seq<SourceFile>, b: seq<SourceFile>, p: string)
    requires SameInventory(a, b) && p in Paths(a)
    ensures p in Paths(b)
  {
    var i :| 0 <= i < |a| && a[i].path == p;
    assert a[i] in multiset(b);
    var j :| 0 <= j < |b| && b[j] == a[i];
    assert Paths(b)[j] == p;
  }

  lemma BestIgnoresOrder(a: seq<SourceFile>, b: seq<SourceFile>, importer: seq<string>, cand: seq<string>)
    requires SameInventory(a, b)
    ensures BestMatch(a, importer, cand) == BestMatch(b, importer, cand)
  {
    ScanHasBest(a, importer, cand);
    ScanHasBest(b, importer, cand);
    hide BestMatch, IsBest;
    forall p ensures p in Paths(a) <==> p in Paths(b) {
      if p in Paths(a) { SamePaths(a, b, p); }
      if p in Paths(b) { SamePaths(b, a, p); }
    }
    BestIsUnique(importer, Paths(a), Paths(b), cand, BestMatch(a, importer, cand), BestMatch(b, importer, cand));
  }

  /** Permuting the inventory resolves every import to the same file. */
  lemma ResolvedIgnoresOrder(a: seq<SourceFile>, b: seq<SourceFile>, candidate: string, importer: seq<string>,
                             isRust: bool)
    requires SameInventory(a, b)
    ensures Resolved(a, candidate, importer, isRust) == Resolved(b, candidate, importer, isRust)
  {
    var cand := CandidateSegments(candidate);
    if |cand| > 0 {
      BestIgnoresOrder(a, b, importer, cand);
      if |cand| > 1 { BestIgnoresOrder(a, b, importer, cand[..|cand| - 1]); }
    }
  }
}
