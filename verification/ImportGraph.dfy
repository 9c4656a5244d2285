/**
 * The import graph itself: adjacency lists built edge by edge, and the neighbours read from them
 * (src/adapters/imports.rs:426-490).
 */
module ImportGraph {
  import opened Text
  import opened Imports
  import opened Stems
  import opened Sorting

  type Edge = (string, string)

  /** How imports are extracted. */
  datatype Extractor = Extractor(candidates: SourceFile -> seq<string>)

  function EdgeTo(path: string, target: Option<string>): seq<Edge> {
    match target
    case None => []
    case Some(to) => [(path, to)]
  }

  /** The edges of one file's first candidates, resolved against the whole inventory. */
  function EdgesFrom(x: Extractor, all: seq<SourceFile>, f: SourceFile, targets: seq<string>): seq<Edge> {
    if |targets| == 0 then []
    else
      var n := |targets| - 1;
      EdgesFrom(x, all, f, targets[..n])
      + EdgeTo(f.path, Resolved(all, targets[n], Normalize(f.path), IsRust(f.path)))
  }

  function EdgesOf(x: Extractor, all: seq<SourceFile>, files: seq<SourceFile>): seq<Edge> {
    if |files| == 0 then []
    else
      var n := |files| - 1;
      EdgesOf(x, all, files[..n]) + EdgesFrom(x, all, files[n], x.candidates(files[n]))
  }

  /** The list of `a`: each edge is entered at both its ends. */
  function Adjacent(edges: seq<Edge>, a: string): seq<string> {
    if |edges| == 0 then []
    else
      var n := |edges| - 1;
      var (from, to) := edges[n];
      Adjacent(edges[..n], a) + (if from == a then [to] else []) + if to == a then [from] else []
  }

  ghost predicate Represents(adjacency: map<string, seq<string>>, edges: seq<Edge>) {
    forall a :: ListAt(adjacency, a) == Adjacent(edges, a)
  }

  function Pushed(adjacency: map<string, seq<string>>, a: string, b: string): map<string, seq<string>> {
    adjacency[a := ListAt(adjacency, a) + [b]]
  }

  lemma PushBoth(adjacency: map<string, seq<string>>, edges: seq<Edge>, from: string, to: string)
    requires Represents(adjacency, edges)
    ensures Represents(Pushed(Pushed(adjacency, from, to), to, from), edges + [(from, to)])
  {
    var more := edges + [(from, to)];
    assert more[..|edges|] == edges && more[|edges|] == (from, to);
    forall a ensures ListAt(Pushed(Pushed(adjacency, from, to), to, from), a) == Adjacent(more, a) {
      assert ListAt(adjacency, a) == Adjacent(edges, a);
    }
  }

  method AddFile(x: Extractor, r: Resolver, ghost all: seq<SourceFile>, f: SourceFile, before: map<string, seq<string>>,
                 ghost edges: seq<Edge>)
    returns (adjacency: map<string, seq<string>>)
    requires Indexes(r, all) && Represents(before, edges)
    ensures Represents(adjacency, edges + EdgesFrom(x, all, f, x.candidates(f)))
  {
    hide Represents, Resolved, Normalize, Indexes, ListAt;
    adjacency := before;
    var importer := Normalize(f.path);
    var targets := x.candidates(f);
    assert edges + [] == edges;
    for k := 0 to |targets|
      invariant Represents(adjacency, edges + EdgesFrom(x, all, f, targets[..k]))
    {
      assert targets[..k + 1][..k] == targets[..k];
      ghost var sofar := EdgesFrom(x, all, f, targets[..k]);
      var resolved := Resolve(r, all, targets[k], importer, IsRust(f.path));
      if resolved.Some? {
        PushBoth(adjacency, edges + sofar, f.path, resolved.value);
        adjacency := Pushed(adjacency, f.path, resolved.value);
        adjacency := Pushed(adjacency, resolved.value, f.path);
        assert edges + sofar + [(f.path, resolved.value)] == edges + (sofar + [(f.path, resolved.value)]);
      } else {
        assert sofar + [] == sofar;
      }
    }
    assert targets[..|targets|] == targets;
  }

  /** `from_candidates`: every file starts with an empty list. */
  method BuildGraph(x: Extractor, files: seq<SourceFile>) returns (adjacency: map<string, seq<string>>)
    ensures Represents(adjacency, EdgesOf(x, files, files))
  {
    adjacency := map[];
    for k := 0 to |files|
      invariant forall a :: a in adjacency ==> adjacency[a] == []
    {
      adjacency := adjacency[files[k].path := []];
    }
    var r := NewResolver(files);
    for k := 0 to |files|
      invariant Represents(adjacency, EdgesOf(x, files, files[..k]))
    {
      assert files[..k + 1][..k] == files[..k];
      adjacency := AddFile(x, r, files, files[k], adjacency, EdgesOf(x, files, files[..k]));
    }
    assert files[..|files|] == files;
  }

  // ----- neighbours -----

  lemma TextIsOrder()
    ensures IsOrder(TextAtMost) && IsAntisymmetric(TextAtMost)
  {
    forall a, b ensures TextAtMost(a, b) || TextAtMost(b, a) ensures TextAtMost(a, b) && TextAtMost(b, a) ==> a == b {
      TextIsTotal(a, b);
    }
    forall a, b, c | TextAtMost(a, b) && TextAtMost(b, c) ensures TextAtMost(a, c) { TextIsTransitive(a, b, c); }
  }

  ghost function Others(list: seq<string>, file: string): iset<string> { iset s | s in list && s != file }

  method Neighbors(adjacency: map<string, seq<string>>, file: string) returns (out: seq<string>)
    ensures Lists(TextAtMost, out, Others(ListAt(adjacency, file), file))
  {
    var found: seq<string> := [];
    var seen: set<string> := {};
    var list := ListAt(adjacency, file);
    for k := 0 to |list|
      invariant Distinct(found) && forall s :: s in found <==> s in seen
      invariant forall s :: s in found <==> s in list[..k] && s != file
    {
      assert list[..k + 1] == list[..k] + [list[k]];
      if list[k] != file && list[k] !in seen {
        seen := seen + {list[k]};
        found := found + [list[k]];
      }
    }
    assert list[..|list|] == list;
    out := SortBy(TextAtMost, found);
    TextIsOrder();
    SortLists(TextAtMost, found, Others(list, file));
  }

  // ----- the relation behind the lists -----

  /** File `a` imports something that resolves to `b`. */
  ghost predicate Links(x: Extractor, all: seq<SourceFile>, a: string, b: string) {
    exists f, t :: f in all && f.path == a && t in x.candidates(f) &&
      Resolved(all, t, Normalize(a), IsRust(a)) == Some(b)
  }

  lemma NoTargets(x: Extractor, all: seq<SourceFile>, f: SourceFile, targets: seq<string>)
    requires |targets| == 0
    ensures EdgesFrom(x, all, f, targets) == []
  {
  }

  lemma LastEdges(x: Extractor, all: seq<SourceFile>, f: SourceFile, targets: seq<string>)
    requires |targets| > 0
    ensures var n := |targets| - 1;
      EdgesFrom(x, all, f, targets) == EdgesFrom(x, all, f, targets[..n])
        + EdgeTo(f.path, Resolved(all, targets[n], Normalize(f.path), IsRust(f.path)))
  {
    hide EdgeTo, Resolved, Normalize;
  }

  lemma EdgeToIs(path: string, target: Option<string>, e: Edge)
    ensures e in EdgeTo(path, target) <==> e.0 == path && target == Some(e.1)
  {
  }

  lemma TargetsAre(targets: seq<string>)
    requires |targets| > 0
    ensures forall t :: t in targets <==> t in targets[..|targets| - 1] || t == targets[|targets| - 1]
  {
  }

  lemma {:induction false} EdgesFromAre(x: Extractor, all: seq<SourceFile>, f: SourceFile, targets: seq<string>,
                                        e: Edge)
    ensures e in EdgesFrom(x, all, f, targets) <==>
      e.0 == f.path && exists t :: t in targets && Resolved(all, t, Normalize(f.path), IsRust(f.path)) == Some(e.1)
  {
    hide EdgesFrom, EdgeTo, Resolved, Normalize;
    if |targets| > 0 {
      var front, last := targets[..|targets| - 1], targets[|targets| - 1];
      EdgesFromAre(x, all, f, front, e);
      LastEdges(x, all, f, targets);
      EdgeToIs(f.path, Resolved(all, last, Normalize(f.path), IsRust(f.path)), e);
      TargetsAre(targets);
    } else {
      NoTargets(x, all, f, targets);
    }
  }

  lemma NoEdges(x: Extractor, all: seq<SourceFile>, files: seq<SourceFile>)
    requires |files| == 0
    ensures EdgesOf(x, all, files) == []
  {
  }

  lemma EdgesLast(x: Extractor, all: seq<SourceFile>, files: seq<SourceFile>)
    requires |files| > 0
    ensures var last := files[|files| - 1];
      EdgesOf(x, all, files) == EdgesOf(x, all, files[..|files| - 1]) + EdgesFrom(x, all, last, x.candidates(last))
  {
    hide EdgesFrom;
  }

  lemma InFront<T>(s: seq<T>, x: T)
    requires x in s
    ensures x in s[..|s| - 1] || x == s[|s| - 1]
  {
  }

  lemma {:induction false} EdgesAre(x: Extractor, all: seq<SourceFile>, files: seq<SourceFile>, e: Edge)
    ensures e in EdgesOf(x, all, files) <==>
      exists f :: f in files && e in EdgesFrom(x, all, f, x.candidates(f))
  {
    hide EdgesFrom, EdgesOf;
    if |files| > 0 {
      var front, last := files[..|files| - 1], files[|files| - 1];
      EdgesAre(x, all, front, e);
      EdgesLast(x, all, files);
      if f :| f in files && e in EdgesFrom(x, all, f, x.candidates(f)) { InFront(files, f); }
      if f :| f in front && e in EdgesFrom(x, all, f, x.candidates(f)) { assert f in files; }
      assert last in files;
    } else {
      NoEdges(x, all, files);
    }
  }

  lemma EdgesAreLinks(x: Extractor, all: seq<SourceFile>, a: string, b: string)
    ensures (a, b) in EdgesOf(x, all, all) <==> Links(x, all, a, b)
  {
    EdgesAre(x, all, all, (a, b));
    hide EdgesOf, Resolved, Normalize;
    if (a, b) in EdgesOf(x, all, all) {
      var f :| f in all && (a, b) in EdgesFrom(x, all, f, x.candidates(f));
      EdgesFromAre(x, all, f, x.candidates(f), (a, b));
    }
    if Links(x, all, a, b) {
      var f, t :| f in all && f.path == a && t in x.candidates(f) &&
        Resolved(all, t, Normalize(a), IsRust(a)) == Some(b);
      EdgesFromAre(x, all, f, x.candidates(f), (a, b));
    }
  }

  lemma {:induction false} AdjacentIs(edges: seq<Edge>, a: string, b: string)
    ensures b in Adjacent(edges, a) <==> (a, b) in edges || (b, a) in edges
  {
    if |edges| > 0 {
      var front, last := edges[..|edges| - 1], edges[|edges| - 1];
      AdjacentIs(front, a, b);
      assert forall e :: e in edges <==> e in front || e == last by { assert edges == front + [last]; }
      assert Adjacent(edges, a) ==
        Adjacent(front, a) + (if last.0 == a then [last.1] else []) + if last.1 == a then [last.0] else [];
    }
  }

  /** The neighbours of a file over an inventory. */
  ghost function NeighborsOf(x: Extractor, all: seq<SourceFile>, a: string): iset<string> {
    Others(Adjacent(EdgesOf(x, all, all), a), a)
  }

  /**
   * A neighbour is another file that imports this one or that this one imports; so the relation is
   * symmetric and irreflexive.
   */
  lemma NeighborsAre(x: Extractor, all: seq<SourceFile>, a: string, b: string)
    ensures b in NeighborsOf(x, all, a) <==> a != b && (Links(x, all, a, b) || Links(x, all, b, a))
    ensures b in NeighborsOf(x, all, a) <==> a in NeighborsOf(x, all, b)
    ensures a !in NeighborsOf(x, all, a)
  {
    AdjacentIs(EdgesOf(x, all, all), a, b);
    AdjacentIs(EdgesOf(x, all, all), b, a);
    EdgesAreLinks(x, all, a, b);
    EdgesAreLinks(x, all, b, a);
    hide Links, EdgesOf, Adjacent;
  }

  lemma LinksIgnoreOrder(x: Extractor, all: seq<SourceFile>, other: seq<SourceFile>, a: string, b: string)
    requires SameInventory(all, other) && Links(x, all, a, b)
    ensures Links(x, other, a, b)
  {
    var f, t :| f in all && f.path == a && t in x.candidates(f) && Resolved(all, t, Normalize(a), IsRust(a)) == Some(b);
    ResolvedIgnoresOrder(all, other, t, Normalize(a), IsRust(a));
    hide Resolved, Normalize;
    assert f in multiset(other);
  }

  /** Permuting the inventory changes no neighbour list. */
  lemma NeighborsIgnoreOrder(x: Extractor, all: seq<SourceFile>, other: seq<SourceFile>, a: string, out: seq<string>,
                             out': seq<string>)
    requires SameInventory(all, other)
    requires Lists(TextAtMost, out, NeighborsOf(x, all, a)) && Lists(TextAtMost, out', NeighborsOf(x, other, a))
    ensures out == out'
  {
    TextIsOrder();
    hide Links, Lists, IsOrder, IsAntisymmetric;
    forall b ensures b in NeighborsOf(x, all, a) <==> b in NeighborsOf(x, other, a) {
      NeighborsAre(x, all, a, b);
      NeighborsAre(x, other, a, b);
      if Links(x, all, a, b) { LinksIgnoreOrder(x, all, other, a, b); }
      if Links(x, all, b, a) { LinksIgnoreOrder(x, all, other, b, a); }
      if Links(x, other, a, b) { LinksIgnoreOrder(x, other, all, a, b); }
      if Links(x, other, b, a) { LinksIgnoreOrder(x, other, all, b, a); }
    }
    assert NeighborsOf(x, all, a) == NeighborsOf(x, other, a);
    ListIsUnique(TextAtMost, out, out', NeighborsOf(x, all, a));
  }
}
