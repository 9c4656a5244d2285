/** Splitting twice, reading the pieces back, and where pieces start. */
module SplitLaws {
  import opened Text
  import opened Patch
  import opened HunkSplit
  import opened HunkLaws
  import opened Reparse

  // ----- splitting bodies twice -----

  /** Bodies split one by one, each from the new line it starts at. */
  function SplitEach(bodies: seq<seq<string>>, newFirst: nat, cuts: set<nat>): seq<seq<string>> {
    if bodies == [] then []
    else
      var n := |bodies| - 1;
      SplitEach(bodies[..n], newFirst, cuts) + SplitBodies(bodies[n], newFirst + NewCount(Flat(bodies[..n])), cuts)
  }

  lemma SplitEachSnoc(bodies: seq<seq<string>>, last: seq<string>, newFirst: nat, cuts: set<nat>)
    ensures SplitEach(bodies + [last], newFirst, cuts)
         == SplitEach(bodies, newFirst, cuts) + SplitBodies(last, newFirst + NewCount(Flat(bodies)), cuts)
  {
    hide SplitBodies, NewCount, Flat;
    var all := bodies + [last];
    var n := |all| - 1;
    assert all[..n] == bodies && all[n] == last;
    assert SplitEach(all, newFirst, cuts)
        == SplitEach(all[..n], newFirst, cuts) + SplitBodies(all[n], newFirst + NewCount(Flat(all[..n])), cuts);
  }

  ghost predicate GoodUnits(units: seq<seq<string>>) {
    && (forall i :: 0 <= i < |units| ==> IsUnit(units[i]) && NoOther(units[i]))
    && (forall i :: 0 < i < |units| ==> !IsMarker(units[i][0]))
  }

  lemma UnitsAreGood(body: seq<string>)
    ensures GoodUnits(UnitsOf(body).units) && NoOther(UnitsOf(body).tail)
  {
    UnitsStandAlone(body);
    UnitsKeepLines(body);
    var u := UnitsOf(body);
    forall i | 0 <= i < |u.units| ensures NoOther(u.units[i]) {
      forall l | l in u.units[i] ensures !KindOf(l).Other? {
        FlatMembers(u.units, u.units[i], l);
        assert l in UnitLines(u);
      }
    }
    forall l | l in u.tail ensures !KindOf(l).Other? {
      assert l in UnitLines(u);
    }
  }

  lemma GoodUnitsSnoc(group: seq<seq<string>>, u: seq<string>)
    requires GoodUnits(group) && IsUnit(u) && NoOther(u) && !IsMarker(u[0])
    ensures GoodUnits(group + [u])
  {
    hide IsUnit, NoOther, IsMarker;
  }

  lemma GoodUnitsOne(units: seq<seq<string>>, i: nat)
    requires GoodUnits(units) && i < |units|
    ensures GoodUnits([units[i]]) && IsUnit(units[i]) && NoOther(units[i]) && (i > 0 ==> !IsMarker(units[i][0]))
  {
  }

  lemma {:induction false} GoodGroups(units: seq<seq<string>>, newFirst: nat, cuts: set<nat>)
    requires GoodUnits(units)
    ensures forall g :: g in Grouped(units, newFirst, cuts) ==> GoodUnits(g)
  {
    if units != [] {
      var n := |units| - 1;
      assert GoodUnits(units[..n]);
      GoodUnitsOne(units, n);
      hide GoodUnits, IsUnit, NoOther, IsMarker;
      GoodGroups(units[..n], newFirst, cuts);
      var before := Grouped(units[..n], newFirst, cuts);
      if before != [] {
        assert before[|before| - 1] in before;
        GoodUnitsSnoc(before[|before| - 1], units[n]);
      }
    }
  }

  lemma {:induction false} UnitsCountNewLines(units: seq<seq<string>>)
    requires GoodUnits(units)
    ensures NewCount(Flat(units)) == |units|
  {
    if units != [] {
      var n := |units| - 1;
      UnitsCountNewLines(units[..n]);
      assert IsUnit(units[n]);
      OneUnitPerNewLine(units[n]);
      CountAppend(IsKept, Flat(units[..n]), units[n]);
    }
  }

  lemma {:induction false} GroupsCountNewLines(groups: seq<seq<seq<string>>>)
    requires forall g :: g in groups ==> GoodUnits(g)
    ensures NewCount(Flat(FlatEach(groups))) == |Flat(groups)|
  {
    if groups != [] {
      var n := |groups| - 1;
      GroupsCountNewLines(groups[..n]);
      UnitsCountNewLines(groups[n]);
      assert groups[..n] + [groups[n]] == groups;
      FlatEachSnoc(groups[..n], groups[n]);
      FlatSnoc(FlatEach(groups[..n]), Flat(groups[n]));
      CountAppend(IsKept, Flat(FlatEach(groups[..n])), Flat(groups[n]));
    }
  }

  /** Splitting one group of units, with waiting removals after it. */
  lemma SplitGroup(group: seq<seq<string>>, tail: seq<string>, newFirst: nat, cuts: set<nat>)
    requires group != [] && GoodUnits(group) && NoOther(tail)
    requires UnitsOf(tail) == Units([], tail) && (tail != [] ==> !IsMarker(tail[0]))
    ensures SplitBodies(Flat(group) + tail, newFirst, cuts) == WithTail(Bodies(group, newFirst, cuts), tail)
  {
    assert forall i :: 0 <= i < |group| ==> IsUnit(group[i]);
    UnitsOfFlat(group);
    UnitsAppend(Flat(group), tail);
    assert group + [] == group;
  }

  lemma WithNoTail(parts: seq<seq<string>>)
    requires parts != []
    ensures WithTail(parts, []) == parts
  {
    assert parts[|parts| - 1] + [] == parts[|parts| - 1];
  }

  /** Splitting groups, the last one followed by waiting removals, is regrouping them. */
  lemma SplitLastGroup(init: seq<seq<seq<string>>>, last: seq<seq<string>>, tail: seq<string>, newFirst: nat,
                       cuts: set<nat>)
    requires SplitEach(FlatEach(init), newFirst, cuts) == FlatEach(GroupEach(init, newFirst, cuts))
    requires forall g :: g in init ==> GoodUnits(g)
    requires last != [] && GoodUnits(last) && NoOther(tail)
    requires UnitsOf(tail) == Units([], tail) && (tail != [] ==> !IsMarker(tail[0]))
    ensures SplitEach(FlatEach(init) + [Flat(last) + tail], newFirst, cuts)
         == WithTail(FlatEach(GroupEach(init + [last], newFirst, cuts)), tail)
  {
    hide SplitBodies, SplitEach, GroupEach, Grouped, WithTail, UnitsOf, GoodUnits, NoOther, Flat, IsMarker;
    var first := newFirst + |Flat(init)|;
    var before, parts := GroupEach(init, newFirst, cuts), Grouped(last, first, cuts);
    var body := Flat(last) + tail;
    assert SplitEach(FlatEach(init) + [body], newFirst, cuts) == FlatEach(before) + SplitBodies(body, first, cuts) by {
      SplitEachSnoc(FlatEach(init), body, newFirst, cuts);
      GroupsCountNewLines(init);
    }
    assert SplitBodies(body, first, cuts) == WithTail(FlatEach(parts), tail) by {
      SplitGroup(last, tail, first, cuts);
    }
    assert FlatEach(GroupEach(init + [last], newFirst, cuts)) == FlatEach(before) + FlatEach(parts) by {
      GroupEachSnoc(init, last, newFirst, cuts);
      FlatEachAppend(before, parts);
    }
    TailOfLast(FlatEach(before), FlatEach(parts), tail);
  }

  lemma {:induction false} SplitGroups(groups: seq<seq<seq<string>>>, newFirst: nat, cuts: set<nat>)
    requires forall g :: g in groups ==> g != [] && GoodUnits(g)
    ensures SplitEach(FlatEach(groups), newFirst, cuts) == FlatEach(GroupEach(groups, newFirst, cuts))
  {
    if groups != [] {
      var init, last := groups[..|groups| - 1], groups[|groups| - 1];
      assert init + [last] == groups && last in groups;
      assert forall g :: g in init ==> g in groups;
      SplitGroups(init, newFirst, cuts);
      SplitLastGroup(init, last, [], newFirst, cuts);
      FlatEachSnoc(init, last);
      assert Flat(last) + [] == Flat(last);
      GroupEachSnoc(init, last, newFirst, cuts);
      WithNoTail(FlatEach(GroupEach(groups, newFirst, cuts)));
    }
  }

  lemma FlatEachAppend<T>(a: seq<seq<seq<T>>>, b: seq<seq<seq<T>>>)
    ensures FlatEach(a + b) == FlatEach(a) + FlatEach(b)
  {
  }

  lemma TailOfLast(before: seq<seq<string>>, last: seq<seq<string>>, tail: seq<string>)
    requires last != []
    ensures before + WithTail(last, tail) == WithTail(before + last, tail)
  {
    assert (before + last)[..|before + last| - 1] == before + last[..|last| - 1];
  }

  /** A tail on its own splits into itself. */
  lemma SplitTail(tail: seq<string>, newFirst: nat, cuts: set<nat>)
    requires UnitsOf(tail) == Units([], tail)
    ensures SplitEach([tail], newFirst, cuts) == [tail]
  {
    hide UnitsOf;
    assert [tail][..0] == [] && NewCount(Flat<string>([])) == 0;
    assert SplitBodies(tail, newFirst, cuts) == [tail];
    assert [] + [tail] == [tail];
  }

  lemma NoGroups(tail: seq<string>)
    ensures WithTail(FlatEach<string>([]), tail) == [tail]
  {
  }

  lemma WithTailSnoc(init: seq<seq<seq<string>>>, last: seq<seq<string>>, tail: seq<string>)
    ensures WithTail(FlatEach(init + [last]), tail) == FlatEach(init) + [Flat(last) + tail]
  {
    hide Flat;
    FlatEachSnoc(init, last);
  }

  /** Splitting a body at `a` and each part at `b` is splitting it at both. */
  lemma SplitBodiesTwice(body: seq<string>, newFirst: nat, a: set<nat>, b: set<nat>)
    ensures SplitEach(SplitBodies(body, newFirst, a), newFirst, b) == SplitBodies(body, newFirst, a + b)
  {
    hide UnitsOf, Grouped, GroupEach, SplitEach, Flat, FlatEach, WithTail, GoodUnits, IsUnit, NoOther, IsMarker;
    var u := UnitsOf(body);
    var groups := Grouped(u.units, newFirst, a);
    UnitsStandAlone(body);
    UnitsAreGood(body);
    GoodGroups(u.units, newFirst, a);
    GroupTwice(u.units, newFirst, a, b);
    if groups == [] {
      SplitTail(u.tail, newFirst, b);
      NoGroups(u.tail);
    } else {
      var init, last := groups[..|groups| - 1], groups[|groups| - 1];
      assert init + [last] == groups && last in groups;
      forall g | g in init ensures g in groups {}
      WithTailSnoc(init, last, u.tail);
      SplitGroups(init, newFirst, b);
      SplitLastGroup(init, last, u.tail, newFirst, b);
    }
  }

  // ----- hunks -----

  /** The header can be read and every line number the pieces need is a `usize`. */
  predicate Fits(h: Hunk) {
    match HunkRanges(HunkHeader(h))
    case None => false
    case Some(r) =>
      && StartsFromOne(HunkHeader(h))
      && First(r.oldStart, r.oldLen) + OldCount(HunkBody(h)) <= USIZE_MAX
      && First(r.newStart, r.newLen) + NewCount(HunkBody(h)) <= USIZE_MAX
  }

  predicate OneLiners(lines: seq<string>) { forall l :: l in lines ==> '\n' !in l }

  lemma BodyIsOneLiners(h: Hunk)
    ensures OneLiners(HunkBody(h))
  {
    SplitPartsLackSep(h.patch, '\n');
  }

  /** A printed piece reads back as its ranges and its lines. */
  lemma PieceReads(oldFirst: nat, newFirst: nat, lines: seq<string>)
    requires oldFirst > 0 && newFirst > 0 && OneLiners(lines)
    requires oldFirst + OldCount(lines) <= USIZE_MAX && newFirst + NewCount(lines) <= USIZE_MAX
    ensures var p, r := PieceHunk(oldFirst, newFirst, lines), PieceRanges(oldFirst, newFirst, lines);
      && HunkBody(p) == lines && HunkRanges(HunkHeader(p)) == Some(r)
      && First(r.oldStart, r.oldLen) == oldFirst && First(r.newStart, r.newLen) == newFirst
      && NewStart(HunkHeader(p)) == p.startLine && Fits(p)
  {
    var p, r := PieceHunk(oldFirst, newFirst, lines), PieceRanges(oldFirst, newFirst, lines);
    HeaderRoundTrip(r);
    HeaderIsOneLine(r);
    var all := [Header(r)] + lines;
    SplitJoin(all, '\n');
    assert all[1..] == lines;
  }

  /** Under a header whose old range starts at line 0, an added line cannot be split from the kept one after it. */
  lemma LineZeroUnderflows(added: string, kept: string)
    requires KindOf(added).Added? && KindOf(kept).Context? && OneLiners([added, kept])
    ensures var h := PieceHunk(0, 1, [added, kept]);
      HunkRanges(HunkHeader(h)) == Some(Ranges(0, 1, 1, 2)) && Underflows(h, {2})
  {
    hide Header, HunkRanges, OldCount, NewCount, UnitsOf, Bodies, KindOf, Split, Join;
    var lines, r := [added, kept], Ranges(0, 1, 1, 2);
    TwoLines(added, kept);
    assert PieceRanges(0, 1, lines) == r;
    HeaderRoundTrip(r);
    HeaderIsOneLine(r);
    PieceSplits(r, lines);
    BodiesSnoc([], [added], 1, {2});
    BodiesSnoc([[added]], [kept], 1, {2});
    assert [] + [[added]] == [[added]] && [[added]] + [[kept]] == [[added], [kept]];
    assert SplitBodies(lines, 1, {2}) == [[added], [kept] + []];
  }

  lemma PieceSplits(r: Ranges, lines: seq<string>)
    requires OneLiners(lines) && '\n' !in Header(r)
    ensures var h := Hunk("", r.newStart, Join([Header(r)] + lines, '\n'));
      HunkHeader(h) == Header(r) && HunkBody(h) == lines
  {
    hide Header, Split, Join;
    var all := [Header(r)] + lines;
    SplitJoin(all, '\n');
    assert all[1..] == lines;
  }

  lemma TwoLines(added: string, kept: string)
    requires KindOf(added).Added? && KindOf(kept).Context?
    ensures OldCount([added]) == 0 && OldCount([added, kept]) == 1 && NewCount([added, kept]) == 2
    ensures UnitsOf([added, kept]) == Units([[added], [kept]], [])
  {
    hide Count, UnitsOf, KindOf;
    CountSnoc(IsOldSide, [], added);
    CountSnoc(IsKept, [], added);
    CountSnoc(IsOldSide, [added], kept);
    CountSnoc(IsKept, [added], kept);
    UnitsSnoc([], added);
    UnitsSnoc([added], kept);
    UnitsOfNothing();
    CountsOfNothing();
    assert [] + [added] == [added] && [added] + [kept] == [added, kept];
    assert [[added]] + [[kept]] == [[added], [kept]] && [] + [[added]] == [[added]] && [] + [kept] == [kept];
  }

  lemma CountsOfNothing()
    ensures Count(IsOldSide, []) == 0 && Count(IsKept, []) == 0
  {
  }

  lemma {:induction false} PieceHunksAppend(a: seq<seq<string>>, b: seq<seq<string>>, oldFirst: nat, newFirst: nat)
    requires oldFirst > 0 && newFirst > 0
    ensures PieceHunks(a + b, oldFirst, newFirst)
         == PieceHunks(a, oldFirst, newFirst)
            + PieceHunks(b, oldFirst + OldCount(Flat(a)), newFirst + NewCount(Flat(a)))
  {
    hide PieceHunk, PieceHunks, OldAt, NewAt, Flat, OldCount, NewCount;
    var o, n := oldFirst + OldCount(Flat(a)), newFirst + NewCount(Flat(a));
    var all, left := PieceHunks(a + b, oldFirst, newFirst), PieceHunks(a, oldFirst, newFirst);
    var right := PieceHunks(b, o, n);
    forall i | 0 <= i < |all| ensures all[i] == (left + right)[i] {
      AtAppend(a, b, i, oldFirst, newFirst);
    }
    assert all == left + right;
  }

  /** Where body `i` of two lists laid end to end starts. */
  lemma AtAppend(a: seq<seq<string>>, b: seq<seq<string>>, i: nat, oldFirst: nat, newFirst: nat)
    requires i < |a + b|
    ensures if i < |a|
      then OldAt(a + b, i, oldFirst) == OldAt(a, i, oldFirst) && NewAt(a + b, i, newFirst) == NewAt(a, i, newFirst)
      else OldAt(a + b, i, oldFirst) == OldAt(b, i - |a|, oldFirst + OldCount(Flat(a)))
           && NewAt(a + b, i, newFirst) == NewAt(b, i - |a|, newFirst + NewCount(Flat(a)))
  {
    hide Flat, Count;
    PrefixOfAppend(a, b, i);
    if i >= |a| {
      var rest := b[..i - |a|];
      FlatAppend(a, rest);
      CountAppend(IsOldSide, Flat(a), Flat(rest));
      CountAppend(IsKept, Flat(a), Flat(rest));
    }
  }

  lemma PieceHunksOne(lines: seq<string>, oldFirst: nat, newFirst: nat)
    requires oldFirst > 0 && newFirst > 0
    ensures PieceHunks([lines], oldFirst, newFirst) == [PieceHunk(oldFirst, newFirst, lines)]
  {
    hide PieceHunk;
    assert [lines][..0] == [];
    assert OldAt([lines], 0, oldFirst) == oldFirst && NewAt([lines], 0, newFirst) == newFirst;
  }

  lemma PieceHunksSnoc(bodies: seq<seq<string>>, last: seq<string>, oldFirst: nat, newFirst: nat)
    requires oldFirst > 0 && newFirst > 0
    ensures PieceHunks(bodies + [last], oldFirst, newFirst)
         == PieceHunks(bodies, oldFirst, newFirst)
            + [PieceHunk(oldFirst + OldCount(Flat(bodies)), newFirst + NewCount(Flat(bodies)), last)]
  {
    hide PieceHunk, PieceHunks, Flat, OldCount, NewCount;
    PieceHunksAppend(bodies, [last], oldFirst, newFirst);
    PieceHunksOne(last, oldFirst + OldCount(Flat(bodies)), newFirst + NewCount(Flat(bodies)));
  }

  // ----- splitting what was printed -----

  function SplitAll(hunks: seq<Hunk>, cuts: set<nat>): seq<Hunk>
  {
    if hunks == [] then [] else SplitAll(hunks[..|hunks| - 1], cuts) + SplitPieces(hunks[|hunks| - 1], cuts)
  }

  lemma SplitAllSnoc(hunks: seq<Hunk>, last: Hunk, cuts: set<nat>)
    ensures SplitAll(hunks + [last], cuts) == SplitAll(hunks, cuts) + SplitPieces(last, cuts)
  {
    DropLast(hunks, last);
  }

  lemma {:induction false} MarkedSame(lines: seq<string>)
    requires NoOther(lines)
    ensures Marked(lines) == lines
  {
    if lines != [] {
      var init, last := lines[..|lines| - 1], lines[|lines| - 1];
      assert lines == init + [last];
      MarkedSame(init);
      hide KindOf;
    }
  }

  lemma {:induction false} MarkedCounts(lines: seq<string>)
    ensures OldCount(Marked(lines)) == OldCount(lines) && NewCount(Marked(lines)) == NewCount(lines)
  {
    if lines != [] {
      MarkedCounts(lines[..|lines| - 1]);
      CountSnoc(IsOldSide, Marked(lines[..|lines| - 1]), lines[|lines| - 1]);
      CountSnoc(IsKept, Marked(lines[..|lines| - 1]), lines[|lines| - 1]);
    }
  }

  lemma OneBody(lines: seq<string>, newFirst: nat, cuts: set<nat>)
    requires NoOther(lines) && |SplitBodies(lines, newFirst, cuts)| == 1
    ensures SplitBodies(lines, newFirst, cuts) == [lines]
  {
    SplitKeepsBody(lines, newFirst, cuts);
    MarkedSame(lines);
    FlatOne(SplitBodies(lines, newFirst, cuts));
  }

  /** Splitting a printed piece prints the split of its body. */
  lemma SplitPiece(oldFirst: nat, newFirst: nat, lines: seq<string>, cuts: set<nat>)
    requires oldFirst > 0 && newFirst > 0 && OneLiners(lines) && NoOther(lines)
    requires oldFirst + OldCount(lines) <= USIZE_MAX && newFirst + NewCount(lines) <= USIZE_MAX
    ensures Fits(PieceHunk(oldFirst, newFirst, lines)) &&
      StartsFromOne(HunkHeader(PieceHunk(oldFirst, newFirst, lines)))
    ensures SplitPieces(PieceHunk(oldFirst, newFirst, lines), cuts)
         == PieceHunks(SplitBodies(lines, newFirst, cuts), oldFirst, newFirst)
  {
    hide PieceHunk, HunkHeader, HunkBody, HunkRanges, SplitBodies, PieceHunks, PieceRanges;
    PieceReads(oldFirst, newFirst, lines);
    if |SplitBodies(lines, newFirst, cuts)| == 1 {
      OneBody(lines, newFirst, cuts);
      PieceHunksOne(lines, oldFirst, newFirst);
    }
  }

  lemma {:induction false} SplitEachKeeps(bodies: seq<seq<string>>, newFirst: nat, cuts: set<nat>)
    requires forall b :: b in bodies ==> NoOther(b)
    ensures Flat(SplitEach(bodies, newFirst, cuts)) == Flat(bodies)
  {
    if bodies != [] {
      var init, last := bodies[..|bodies| - 1], bodies[|bodies| - 1];
      assert last in bodies && forall b :: b in init ==> b in bodies;
      SplitEachKeeps(init, newFirst, cuts);
      SplitEachKeepsSnoc(init, last, newFirst, cuts);
      LastSplit(bodies);
    }
  }

  lemma SplitEachKeepsSnoc(init: seq<seq<string>>, last: seq<string>, newFirst: nat, cuts: set<nat>)
    requires NoOther(last) && Flat(SplitEach(init, newFirst, cuts)) == Flat(init)
    ensures Flat(SplitEach(init + [last], newFirst, cuts)) == Flat(init + [last])
  {
    hide SplitBodies, SplitEach, NewCount, Marked, Flat;
    var n := newFirst + NewCount(Flat(init));
    SplitEachSnoc(init, last, newFirst, cuts);
    SplitKeepsBody(last, n, cuts);
    MarkedSame(last);
    FlatAppend(SplitEach(init, newFirst, cuts), SplitBodies(last, n, cuts));
    FlatSnoc(init, last);
  }

  ghost predicate AllFit(hunks: seq<Hunk>) { forall h :: h in hunks ==> Fits(h) && StartsFromOne(HunkHeader(h)) }

  /** Splitting each printed piece prints the bodies split one by one. */
  lemma {:induction false} SplitAllPieces(bodies: seq<seq<string>>, oldFirst: nat, newFirst: nat, cuts: set<nat>)
    requires oldFirst > 0 && newFirst > 0 && forall b :: b in bodies ==> OneLiners(b) && NoOther(b)
    requires oldFirst + OldCount(Flat(bodies)) <= USIZE_MAX && newFirst + NewCount(Flat(bodies)) <= USIZE_MAX
    ensures AllFit(PieceHunks(bodies, oldFirst, newFirst))
    ensures SplitAll(PieceHunks(bodies, oldFirst, newFirst), cuts)
         == PieceHunks(SplitEach(bodies, newFirst, cuts), oldFirst, newFirst)
  {
    if bodies != [] {
      var init, last := bodies[..|bodies| - 1], bodies[|bodies| - 1];
      assert last in bodies && forall b :: b in init ==> b in bodies;
      LastSplit(bodies);
      CountAppend(IsOldSide, Flat(init), last);
      CountAppend(IsKept, Flat(init), last);
      hide PieceHunk, PieceHunks, Fits, SplitPieces, SplitBodies, SplitEach, StartsFromOne;
      SplitAllPieces(init, oldFirst, newFirst, cuts);
      SplitEachKeeps(init, newFirst, cuts);
      SplitAllPiecesSnoc(init, last, oldFirst, newFirst, cuts);
    }
  }

  lemma SplitAllPiecesSnoc(init: seq<seq<string>>, last: seq<string>, oldFirst: nat, newFirst: nat, cuts: set<nat>)
    requires oldFirst > 0 && newFirst > 0 && OneLiners(last) && NoOther(last)
    requires oldFirst + OldCount(Flat(init)) + OldCount(last) <= USIZE_MAX
    requires newFirst + NewCount(Flat(init)) + NewCount(last) <= USIZE_MAX
    requires AllFit(PieceHunks(init, oldFirst, newFirst))
    requires SplitAll(PieceHunks(init, oldFirst, newFirst), cuts)
          == PieceHunks(SplitEach(init, newFirst, cuts), oldFirst, newFirst)
    requires Flat(SplitEach(init, newFirst, cuts)) == Flat(init)
    ensures AllFit(PieceHunks(init + [last], oldFirst, newFirst))
    ensures SplitAll(PieceHunks(init + [last], oldFirst, newFirst), cuts)
         == PieceHunks(SplitEach(init + [last], newFirst, cuts), oldFirst, newFirst)
  {
    hide PieceHunk, PieceHunks, Fits, SplitPieces, SplitBodies, SplitEach, SplitAll, StartsFromOne, OldCount, NewCount,
      Flat;
    var o, n := oldFirst + OldCount(Flat(init)), newFirst + NewCount(Flat(init));
    var each, parts := SplitEach(init, newFirst, cuts), SplitBodies(last, n, cuts);
    var before := PieceHunks(init, oldFirst, newFirst);
    PieceHunksSnoc(init, last, oldFirst, newFirst);
    SplitPiece(o, n, last, cuts);
    SplitAllSnoc(before, PieceHunk(o, n, last), cuts);
    SplitEachSnoc(init, last, newFirst, cuts);
    PieceHunksAppend(each, parts, oldFirst, newFirst);
  }

  // ----- the laws of split_hunk -----

  lemma BodiesAreMarked(body: seq<string>, newFirst: nat, cuts: set<nat>, b: seq<string>)
    requires b in SplitBodies(body, newFirst, cuts)
    ensures NoOther(b) && (OneLiners(body) ==> OneLiners(b))
  {
    SplitKeepsBody(body, newFirst, cuts);
    forall l | l in b ensures !KindOf(l).Other? && l in body {
      FlatMembers(SplitBodies(body, newFirst, cuts), b, l);
    }
  }

  /** Every number the pieces of a fitting hunk print is a `usize`, and their bodies are printable. */
  lemma PiecesFit(h: Hunk, cuts: set<nat>)
    requires Fits(h)
    ensures var r := HunkRanges(HunkHeader(h)).value;
      var o, n := First(r.oldStart, r.oldLen), First(r.newStart, r.newLen);
      var bodies := SplitBodies(HunkBody(h), n, cuts);
      && o > 0 && n > 0
      && (forall b :: b in bodies ==> OneLiners(b) && NoOther(b))
      && OldCount(Flat(bodies)) == OldCount(HunkBody(h)) && NewCount(Flat(bodies)) == NewCount(HunkBody(h))
      && o + OldCount(Flat(bodies)) <= USIZE_MAX && n + NewCount(Flat(bodies)) <= USIZE_MAX
  {
    var body := HunkBody(h);
    var r := HunkRanges(HunkHeader(h)).value;
    var n := First(r.newStart, r.newLen);
    hide HunkBody, HunkHeader, HunkRanges, SplitBodies;
    BodyIsOneLiners(h);
    SplitKeepsBody(body, n, cuts);
    MarkedCounts(body);
    forall b | b in SplitBodies(body, n, cuts) ensures OneLiners(b) && NoOther(b) {
      BodiesAreMarked(body, n, cuts, b);
    }
  }

  lemma {:induction false} SplitEachGrows(bodies: seq<seq<string>>, newFirst: nat, cuts: set<nat>)
    ensures |SplitEach(bodies, newFirst, cuts)| >= |bodies|
  {
    hide SplitBodies;
    if bodies != [] { SplitEachGrows(bodies[..|bodies| - 1], newFirst, cuts); }
  }

  /**
   * Splitting at `a` and then every piece at `b` is splitting at both. Cuts are a set: their order
   * and repetitions do not matter.
   */
  lemma SplitTwice(h: Hunk, a: set<nat>, b: set<nat>)
    requires Fits(h)
    ensures AllFit(SplitPieces(h, a))
    ensures SplitAll(SplitPieces(h, a), b) == SplitPieces(h, a + b)
  {
    var body, r := HunkBody(h), HunkRanges(HunkHeader(h)).value;
    var o, n := First(r.oldStart, r.oldLen), First(r.newStart, r.newLen);
    PiecesFit(h, a);
    SplitBodiesTwice(body, n, a, b);
    var bodies := SplitBodies(body, n, a);
    if |bodies| == 1 {
      OneBodyTwice(body, n, a, b);
      SplitAllSnoc([], h, b);
      assert [] + [h] == [h];
    } else {
      SplitAllPieces(bodies, o, n, b);
      SplitEachGrows(bodies, n, b);
    }
  }

  lemma SplitMarked(body: seq<string>, newFirst: nat, cuts: set<nat>)
    ensures SplitBodies(Marked(body), newFirst, cuts) == SplitBodies(body, newFirst, cuts)
  {
    UnitsOfMarked(body);
  }

  /** When `a` cuts nothing, cutting at both is cutting at `b`. */
  lemma OneBodyTwice(body: seq<string>, newFirst: nat, a: set<nat>, b: set<nat>)
    requires |SplitBodies(body, newFirst, a)| == 1
    ensures SplitBodies(body, newFirst, b) == SplitBodies(body, newFirst, a + b)
  {
    hide SplitBodies, Flat, Marked, SplitEach;
    var bodies := SplitBodies(body, newFirst, a);
    SplitKeepsBody(body, newFirst, a);
    FlatOne(bodies);
    SplitMarked(body, newFirst, b);
    SplitBodiesTwice(body, newFirst, a, b);
    SplitEachOne(bodies[0], newFirst, b);
  }

  lemma SplitEachOne(body: seq<string>, newFirst: nat, cuts: set<nat>)
    ensures SplitEach([body], newFirst, cuts) == SplitBodies(body, newFirst, cuts)
  {
    hide SplitBodies;
    SplitEachSnoc([], body, newFirst, cuts);
    assert [] + [body] == [body];
  }

  /** What a piece of a real split says about itself. */
  ghost predicate ReadsAs(p: Hunk, oldFirst: nat, newFirst: nat, lines: seq<string>) {
    match HunkRanges(HunkHeader(p))
    case None => false
    case Some(r) =>
      && p.id == "" && HunkBody(p) == lines && NewStart(HunkHeader(p)) == p.startLine == r.newStart
      && r.oldLen == OldCount(lines) && r.newLen == NewCount(lines)
      && First(r.oldStart, r.oldLen) == oldFirst && First(r.newStart, r.newLen) == newFirst
  }

  lemma PieceReadsAs(oldFirst: nat, newFirst: nat, lines: seq<string>)
    requires oldFirst > 0 && newFirst > 0 && OneLiners(lines)
    requires oldFirst + OldCount(lines) <= USIZE_MAX && newFirst + NewCount(lines) <= USIZE_MAX
    ensures ReadsAs(PieceHunk(oldFirst, newFirst, lines), oldFirst, newFirst, lines)
  {
    PieceReads(oldFirst, newFirst, lines);
    hide HunkHeader, HunkBody, HunkRanges, Header;
  }

  lemma {:induction false} FlatPrefixCounts(bodies: seq<seq<string>>, i: nat)
    requires i < |bodies|
    ensures OldCount(Flat(bodies[..i])) + OldCount(bodies[i]) <= OldCount(Flat(bodies))
    ensures NewCount(Flat(bodies[..i])) + NewCount(bodies[i]) <= NewCount(Flat(bodies))
  {
    var n := |bodies| - 1;
    CountAppend(IsOldSide, Flat(bodies[..n]), bodies[n]);
    CountAppend(IsKept, Flat(bodies[..n]), bodies[n]);
    if i < n {
      assert bodies[..n][..i] == bodies[..i];
      FlatPrefixCounts(bodies[..n], i);
    }
  }

  /**
   * The pieces of a real split: their bodies, put end to end, are the original's marked lines; each
   * header's counts are its body's; and their ranges follow each other without gaps.
   */
  lemma SplitIsContiguous(h: Hunk, cuts: set<nat>)
    requires Fits(h) && |SplitPieces(h, cuts)| > 1
    ensures var r, pieces := HunkRanges(HunkHeader(h)).value, SplitPieces(h, cuts);
      var bodies := SplitBodies(HunkBody(h), First(r.newStart, r.newLen), cuts);
      && |bodies| == |pieces| && Flat(bodies) == Marked(HunkBody(h))
      && (forall i :: 0 <= i < |pieces| ==>
           ReadsAs(pieces[i], OldAt(bodies, i, First(r.oldStart, r.oldLen)),
                   NewAt(bodies, i, First(r.newStart, r.newLen)), bodies[i]))
  {
    var body, r := HunkBody(h), HunkRanges(HunkHeader(h)).value;
    var o, n := First(r.oldStart, r.oldLen), First(r.newStart, r.newLen);
    var bodies, pieces := SplitBodies(body, n, cuts), SplitPieces(h, cuts);
    PiecesFit(h, cuts);
    SplitKeepsBody(body, n, cuts);
    assert pieces == PieceHunks(bodies, o, n);
    hide HunkHeader, HunkBody, HunkRanges, PieceHunk, SplitBodies, SplitPieces, ReadsAs;
    forall i | 0 <= i < |pieces| ensures ReadsAs(pieces[i], OldAt(bodies, i, o), NewAt(bodies, i, n), bodies[i]) {
      FlatPrefixCounts(bodies, i);
      PieceReadsAs(OldAt(bodies, i, o), NewAt(bodies, i, n), bodies[i]);
    }
  }

  // ----- where pieces start -----

  /** The new lines the groups start at. */
  function Starts<T>(groups: seq<seq<T>>, newFirst: nat): (starts: seq<nat>)
    ensures |starts| == |groups|
  {
    if groups == [] then []
    else Starts(groups[..|groups| - 1], newFirst) + [newFirst + |Flat(groups[..|groups| - 1])|]
  }

  lemma StartsSnoc<T>(groups: seq<seq<T>>, last: seq<T>, newFirst: nat)
    ensures Starts(groups + [last], newFirst) == Starts(groups, newFirst) + [newFirst + |Flat(groups)|]
  {
    DropLast(groups, last);
  }

  ghost predicate Increasing(xs: seq<nat>) { forall i, j :: 0 <= i < j < |xs| ==> xs[i] < xs[j] }

  ghost predicate StartAtCuts(starts: seq<nat>, newFirst: nat, count: nat, cuts: set<nat>) {
    && Increasing(starts)
    && (forall x :: x in starts <==> x == newFirst || (x in cuts && newFirst < x < newFirst + count))
  }

  /** Groups start at the first line and at exactly the cuts strictly inside, in increasing order. */
  lemma {:induction false} GroupStarts<T>(units: seq<T>, newFirst: nat, cuts: set<nat>)
    requires units != []
    ensures StartAtCuts(Starts(Grouped(units, newFirst, cuts), newFirst), newFirst, |units|, cuts)
  {
    var init, u := units[..|units| - 1], units[|units| - 1];
    LastSplit(units);
    if init != [] { GroupStarts(init, newFirst, cuts); }
    GroupStartsSnoc(init, u, newFirst, cuts);
  }

  lemma GroupStartsSnoc<T>(init: seq<T>, u: T, newFirst: nat, cuts: set<nat>)
    requires init != [] ==> StartAtCuts(Starts(Grouped(init, newFirst, cuts), newFirst), newFirst, |init|, cuts)
    ensures StartAtCuts(Starts(Grouped(init + [u], newFirst, cuts), newFirst), newFirst, |init| + 1, cuts)
  {
    hide Grouped, Starts, Flat;
    var before := Grouped(init, newFirst, cuts);
    GroupedSnoc(init, u, newFirst, cuts);
    FlatGrouped(init, newFirst, cuts);
    if init == [] {
      StartsOne(u, newFirst);
    } else if newFirst + |init| in cuts {
      StartsSnoc(before, [u], newFirst);
      NextStart(Starts(before, newFirst), newFirst, |init|, cuts);
    } else {
      var n := |before| - 1;
      LastSplit(before);
      StartsSnoc(before[..n], before[n], newFirst);
      StartsSnoc(before[..n], before[n] + [u], newFirst);
    }
  }

  lemma NextStart(starts: seq<nat>, newFirst: nat, count: nat, cuts: set<nat>)
    requires StartAtCuts(starts, newFirst, count, cuts) && count > 0 && newFirst + count in cuts
    ensures StartAtCuts(starts + [newFirst + count], newFirst, count + 1, cuts)
  {
    assert forall i :: 0 <= i < |starts| ==> starts[i] in starts;
  }

  lemma StartsOne<T>(u: T, newFirst: nat)
    ensures Starts([[u]], newFirst) == [newFirst]
  {
    assert [[u]][..0] == [];
  }

  /** The new line body `i` starts at is the line its group starts at. */
  lemma {:induction false} StartsAreNewAt(groups: seq<seq<seq<string>>>, tail: seq<string>, newFirst: nat, i: nat)
    requires forall g :: g in groups ==> GoodUnits(g)
    requires i < |groups|
    ensures var bodies := WithTail(FlatEach(groups), tail);
      |bodies| == |groups| && NewAt(bodies, i, newFirst) == Starts(groups, newFirst)[i]
  {
    var bodies := WithTail(FlatEach(groups), tail);
    var init := groups[..i];
    assert bodies[..i] == FlatEach(init);
    GroupsCountNewLines(init);
    StartsAt(groups, newFirst, i);
  }

  lemma {:induction false} StartsAt<T>(groups: seq<seq<T>>, newFirst: nat, i: nat)
    requires i < |groups|
    ensures Starts(groups, newFirst)[i] == newFirst + |Flat(groups[..i])|
  {
    var n := |groups| - 1;
    if i < n {
      StartsAt(groups[..n], newFirst, i);
      assert groups[..n][..i] == groups[..i];
    }
  }

  /** Bodies start where their groups do, and each has a new line unless there is none at all. */
  lemma BodyStarts(body: seq<string>, newFirst: nat, cuts: set<nat>)
    requires NewCount(body) > 0
    ensures var bodies := SplitBodies(body, newFirst, cuts);
      && StartAtCuts(BodyStartLines(bodies, newFirst), newFirst, NewCount(body), cuts)
      && (forall i :: 0 <= i < |bodies| ==> NewCount(bodies[i]) > 0)
  {
    var u, bodies := UnitsOf(body), SplitBodies(body, newFirst, cuts);
    var groups := Grouped(u.units, newFirst, cuts);
    OneUnitPerNewLine(body);
    GroupStarts(u.units, newFirst, cuts);
    UnitsAreGood(body);
    GoodGroups(u.units, newFirst, cuts);
    hide UnitsOf, Grouped, Starts, GoodUnits, NewCount, NewAt, StartAtCuts;
    forall i | 0 <= i < |bodies|
      ensures NewAt(bodies, i, newFirst) == Starts(groups, newFirst)[i] && NewCount(bodies[i]) > 0
    {
      StartsAreNewAt(groups, u.tail, newFirst, i);
      BodyHasNewLine(groups, u.tail, i);
    }
    assert BodyStartLines(bodies, newFirst) == Starts(groups, newFirst);
  }

  lemma NoNewLineNoSplit(body: seq<string>, newFirst: nat, cuts: set<nat>)
    requires NewCount(body) == 0
    ensures |SplitBodies(body, newFirst, cuts)| == 1
  {
    OneUnitPerNewLine(body);
  }

  lemma OneStart(starts: seq<nat>, newFirst: nat, count: nat, cuts: set<nat>)
    requires StartAtCuts(starts, newFirst, count, cuts)
    ensures |starts| > 1 <==> exists c :: c in cuts && newFirst < c < newFirst + count
  {
    if |starts| > 1 {
      assert starts[0] < starts[1] && starts[0] in starts && starts[1] in starts;
    }
    if c :| c in cuts && newFirst < c < newFirst + count {
      assert c in starts && newFirst in starts;
    }
  }

  lemma StartLineIs(p: Hunk, oldFirst: nat, newFirst: nat, lines: seq<string>)
    requires ReadsAs(p, oldFirst, newFirst, lines) && NewCount(lines) > 0
    ensures p.startLine == newFirst
  {
  }

  function StartLines(pieces: seq<Hunk>): seq<nat> {
    seq(|pieces|, i requires 0 <= i < |pieces| => pieces[i].startLine)
  }

  function BodyStartLines(bodies: seq<seq<string>>, newFirst: nat): seq<nat> {
    seq(|bodies|, i requires 0 <= i < |bodies| => NewAt(bodies, i, newFirst))
  }

  lemma PieceStartLines(h: Hunk, cuts: set<nat>)
    requires Fits(h) && |SplitPieces(h, cuts)| > 1 && NewCount(HunkBody(h)) > 0
    ensures var r := HunkRanges(HunkHeader(h)).value;
      var n := First(r.newStart, r.newLen);
      StartLines(SplitPieces(h, cuts)) == BodyStartLines(SplitBodies(HunkBody(h), n, cuts), n)
  {
    var r, pieces := HunkRanges(HunkHeader(h)).value, SplitPieces(h, cuts);
    var o, n := First(r.oldStart, r.oldLen), First(r.newStart, r.newLen);
    var bodies := SplitBodies(HunkBody(h), n, cuts);
    BodyStarts(HunkBody(h), n, cuts);
    SplitIsContiguous(h, cuts);
    hide SplitBodies, SplitPieces, NewCount, OldCount, HunkBody, HunkHeader, HunkRanges, NewAt, OldAt, StartAtCuts,
      ReadsAs, Fits, Flat, Marked, StartsFromOne;
    forall i | 0 <= i < |pieces| ensures pieces[i].startLine == NewAt(bodies, i, n) {
      StartLineIs(pieces[i], OldAt(bodies, i, o), NewAt(bodies, i, n), bodies[i]);
    }
    SameStarts(pieces, bodies, n);
  }

  lemma SameStarts(pieces: seq<Hunk>, bodies: seq<seq<string>>, newFirst: nat)
    requires |pieces| == |bodies| && forall i :: 0 <= i < |pieces| ==> pieces[i].startLine == NewAt(bodies, i, newFirst)
    ensures StartLines(pieces) == BodyStartLines(bodies, newFirst)
  {
    hide NewAt;
  }

  /**
   * A hunk is really split exactly when some cut lies strictly inside its new lines; then the
   * pieces start, in increasing order, at the hunk's first new line and at exactly those cuts.
   */
  lemma PieceStarts(h: Hunk, cuts: set<nat>)
    requires Fits(h)
    ensures var r := HunkRanges(HunkHeader(h)).value;
      var n, count, pieces := First(r.newStart, r.newLen), NewCount(HunkBody(h)), SplitPieces(h, cuts);
      && (|pieces| > 1 <==> exists c :: c in cuts && n < c < n + count)
      && (|pieces| > 1 ==> StartAtCuts(StartLines(pieces), n, count, cuts))
  {
    var body, r, pieces := HunkBody(h), HunkRanges(HunkHeader(h)).value, SplitPieces(h, cuts);
    var n := First(r.newStart, r.newLen);
    var bodies := SplitBodies(body, n, cuts);
    assert |pieces| == |bodies|;
    hide SplitBodies, SplitPieces, NewCount, HunkBody, HunkHeader, HunkRanges, NewAt, StartAtCuts, PieceHunk;
    if NewCount(body) == 0 {
      NoNewLineNoSplit(body, n, cuts);
    } else {
      BodyStarts(body, n, cuts);
      OneStart(BodyStartLines(bodies, n), n, NewCount(body), cuts);
      if |pieces| > 1 { PieceStartLines(h, cuts); }
    }
  }

  lemma NewCountAppend(a: seq<string>, b: seq<string>)
    ensures NewCount(a + b) == NewCount(a) + NewCount(b)
  {
    CountAppend(IsKept, a, b);
  }

  lemma BodyHasNewLine(groups: seq<seq<seq<string>>>, tail: seq<string>, i: nat)
    requires i < |groups| && groups[i] != [] && GoodUnits(groups[i])
    ensures NewCount(WithTail(FlatEach(groups), tail)[i]) > 0
  {
    hide NewCount, Flat, GoodUnits;
    UnitsCountNewLines(groups[i]);
    NewCountAppend(Flat(groups[i]), tail);
    assert FlatEach(groups)[i] == Flat(groups[i]);
  }

  // ----- reading the pieces back -----

  lemma KeptIsNotHeader(lines: seq<string>)
    requires NoOther(lines)
    ensures forall l :: l in lines ==> !IsHeader(l)
  {
  }

  function PieceGroup(oldFirst: nat, newFirst: nat, lines: seq<string>): seq<string>
    requires oldFirst > 0 && newFirst > 0
  {
    [Header(PieceRanges(oldFirst, newFirst, lines))] + lines
  }

  lemma PieceGroupIsPrinted(oldFirst: nat, newFirst: nat, lines: seq<string>)
    requires oldFirst > 0 && newFirst > 0 && OneLiners(lines) && NoOther(lines)
    requires oldFirst + OldCount(lines) <= USIZE_MAX && newFirst + NewCount(lines) <= USIZE_MAX
    ensures IsPrinted(PieceGroup(oldFirst, newFirst, lines))
    ensures NewStart(PieceGroup(oldFirst, newFirst, lines)[0]) == PieceHunk(oldFirst, newFirst, lines).startLine
    ensures Join(PieceGroup(oldFirst, newFirst, lines), '\n') == PieceHunk(oldFirst, newFirst, lines).patch
  {
    var r := PieceRanges(oldFirst, newFirst, lines);
    hide Header, Dec;
    HeaderRoundTrip(r);
    HeaderIsOneLine(r);
    KeptIsNotHeader(lines);
  }

  function Patches(hunks: seq<Hunk>): seq<string> {
    seq(|hunks|, i requires 0 <= i < |hunks| => hunks[i].patch)
  }

  function PieceGroups(bodies: seq<seq<string>>, oldFirst: nat, newFirst: nat): seq<seq<string>>
    requires oldFirst > 0 && newFirst > 0
  {
    seq(|bodies|, i requires 0 <= i < |bodies| =>
      PieceGroup(OldAt(bodies, i, oldFirst), NewAt(bodies, i, newFirst), bodies[i]))
  }

  lemma PieceGroupsArePrinted(bodies: seq<seq<string>>, oldFirst: nat, newFirst: nat)
    requires oldFirst > 0 && newFirst > 0 && forall b :: b in bodies ==> OneLiners(b) && NoOther(b)
    requires oldFirst + OldCount(Flat(bodies)) <= USIZE_MAX && newFirst + NewCount(Flat(bodies)) <= USIZE_MAX
    ensures var groups, pieces := PieceGroups(bodies, oldFirst, newFirst), PieceHunks(bodies, oldFirst, newFirst);
      && |groups| == |pieces|
      && forall i :: 0 <= i < |groups| ==>
           && |groups[i]| > 0 && IsPrinted(groups[i])
           && Hunk("", NewStart(groups[i][0]), Join(groups[i], '\n')) == pieces[i]
  {
    var groups, pieces := PieceGroups(bodies, oldFirst, newFirst), PieceHunks(bodies, oldFirst, newFirst);
    forall i | 0 <= i < |groups|
      ensures && |groups[i]| > 0 && IsPrinted(groups[i])
              && Hunk("", NewStart(groups[i][0]), Join(groups[i], '\n')) == pieces[i]
    {
      PieceFits(bodies, i, oldFirst, newFirst);
      hide PieceGroup, PieceHunk, OldAt, NewAt, OldCount, NewCount, NewStart, IsPrinted;
      PieceGroupIsPrinted(OldAt(bodies, i, oldFirst), NewAt(bodies, i, newFirst), bodies[i]);
    }
  }

  /** Hunks as a patch holding them numbers them. */
  function Numbered(hunks: seq<Hunk>): (r: seq<Hunk>)
    ensures |r| == |hunks| && forall i :: 0 <= i < |r| ==> r[i] == hunks[i].(id := HunkId(i))
  {
    seq(|hunks|, i requires 0 <= i < |hunks| => hunks[i].(id := HunkId(i)))
  }

  /** Parsing printed groups gives the hunks they print, numbered. */
  lemma ParseGroups(groups: seq<seq<string>>, pieces: seq<Hunk>)
    requires groups != [] && |groups| == |pieces|
    requires forall i :: 0 <= i < |groups| ==>
      && |groups[i]| > 0 && IsPrinted(groups[i])
      && Hunk("", NewStart(groups[i][0]), Join(groups[i], '\n')) == pieces[i]
    ensures ParsedHunks(Join(Patches(pieces), '\n')) == Numbered(pieces)
  {
    hide IsPrinted, NewStart, HunkId, ParsedHunks, Join;
    assert Printed(groups) == Patches(pieces);
    ParsePrinted(groups);
    assert forall i :: 0 <= i < |pieces| ==> HunksOf(groups)[i] == Numbered(pieces)[i];
  }

  /** After a real split, parsing the joined pieces returns the pieces, numbered in order. */
  lemma SplitReparses(h: Hunk, cuts: set<nat>)
    requires Fits(h) && |SplitPieces(h, cuts)| > 1
    ensures ParsedHunks(Join(Patches(SplitPieces(h, cuts)), '\n')) == Numbered(SplitPieces(h, cuts))
  {
    var r := HunkRanges(HunkHeader(h)).value;
    var o, n := First(r.oldStart, r.oldLen), First(r.newStart, r.newLen);
    var bodies := SplitBodies(HunkBody(h), n, cuts);
    PiecesFit(h, cuts);
    assert SplitPieces(h, cuts) == PieceHunks(bodies, o, n);
    hide SplitBodies, SplitPieces, HunkBody, HunkHeader, HunkRanges, PieceHunk, PieceGroup, OldCount, NewCount,
         IsPrinted, ParsedHunks, NewStart, PieceHunks, Patches, Numbered, PieceGroups;
    PieceGroupsArePrinted(bodies, o, n);
    ParseGroups(PieceGroups(bodies, o, n), PieceHunks(bodies, o, n));
  }

  lemma PieceFits(bodies: seq<seq<string>>, i: nat, oldFirst: nat, newFirst: nat)
    requires i < |bodies|
    requires oldFirst + OldCount(Flat(bodies)) <= USIZE_MAX && newFirst + NewCount(Flat(bodies)) <= USIZE_MAX
    ensures OldAt(bodies, i, oldFirst) + OldCount(bodies[i]) <= USIZE_MAX
    ensures NewAt(bodies, i, newFirst) + NewCount(bodies[i]) <= USIZE_MAX
  {
    FlatPrefixCounts(bodies, i);
  }
}
