/** What hunks mean: applying them to a file, and why splitting changes nothing. */
module HunkApply {
  import opened Text
  import opened Patch
  import opened HunkSplit
  import opened HunkLaws
  import opened SplitLaws

  /** A line of a file and whether a newline ends it. */
  datatype Line = Line(text: string, newline: bool)

  predicate Takes(old': bool, line: string) { if old' then IsOldSide(line) else IsKept(line) }

  function SideCount(lines: seq<string>, old': bool): nat { if old' then OldCount(lines) else NewCount(lines) }

  /** The old or the new lines of a body; a marker takes the newline off the line before it. */
  function Side(lines: seq<string>, old': bool): (side: seq<Line>)
    ensures |side| == SideCount(lines, old')
  {
    if lines == [] then []
    else
      var init, line := lines[..|lines| - 1], lines[|lines| - 1];
      var before := Side(init, old');
      if Takes(old', line) then before + [Line(line[1..], true)]
      else if IsMarker(line) && init != [] && Takes(old', init[|init| - 1])
      then before[..|before| - 1] + [before[|before| - 1].(newline := false)]
      else before
  }

  /** Lines replaced at a place in the old file, which is a place in the new one (from 0). */
  datatype Edit = Edit(oldAt: nat, newAt: nat, before: seq<Line>, after: seq<Line>)

  /** What a hunk does, when its header's counts are its body's. */
  function EditOf(h: Hunk): Option<Edit> {
    match HunkRanges(HunkHeader(h))
    case None => None
    case Some(r) =>
      var body := Marked(HunkBody(h));
      if StartsFromOne(HunkHeader(h)) && OldCount(body) == r.oldLen && NewCount(body) == r.newLen
      then Some(BodyEdit(First(r.oldStart, r.oldLen), First(r.newStart, r.newLen), body))
      else None
  }

  function BodyEdit(oldFirst: nat, newFirst: nat, body: seq<string>): Edit
    requires oldFirst > 0 && newFirst > 0
  {
    Edit(oldFirst - 1, newFirst - 1, Side(body, true), Side(body, false))
  }

  /** The edit's old lines are where it says, at or after `oldAt`, with no line unaccounted for. */
  predicate Matches(old': seq<Line>, oldAt: nat, newAt: nat, e: Edit) {
    && oldAt <= e.oldAt && e.newAt - newAt == e.oldAt - oldAt
    && e.oldAt + |e.before| <= |old'| && old'[e.oldAt..e.oldAt + |e.before|] == e.before
  }

  /** The new lines from `newAt` on, the old file having been read up to `oldAt`. */
  function ApplyFrom(old': seq<Line>, oldAt: nat, newAt: nat, edits: seq<Edit>): Option<seq<Line>>
    decreases edits
  {
    if edits == [] then if oldAt <= |old'| then Some(old'[oldAt..]) else None
    else
      var e := edits[0];
      if !Matches(old', oldAt, newAt, e) then None
      else
        match ApplyFrom(old', e.oldAt + |e.before|, e.newAt + |e.after|, edits[1..])
        case None => None
        case Some(rest) => Some(old'[oldAt..e.oldAt] + e.after + rest)
  }

  /** What applying a list of edits says of the first of them. */
  lemma ApplyFirst(old': seq<Line>, oldAt: nat, newAt: nat, edits: seq<Edit>, new': seq<Line>)
    requires edits != [] && ApplyFrom(old', oldAt, newAt, edits) == Some(new')
    ensures var e := edits[0];
      && Matches(old', oldAt, newAt, e) && oldAt <= e.oldAt <= |old'| && newAt <= e.newAt
      && e.oldAt - oldAt == e.newAt - newAt
      && var after := ApplyFrom(old', e.oldAt + |e.before|, e.newAt + |e.after|, edits[1..]);
      after.Some? && new' == old'[oldAt..e.oldAt] + e.after + after.value
  {
  }

  function EditsOf(hunks: seq<Hunk>): Option<seq<Edit>> {
    if hunks == [] then Some([])
    else
      match EditsOf(hunks[..|hunks| - 1])
      case None => None
      case Some(before) =>
        match EditOf(hunks[|hunks| - 1])
        case None => None
        case Some(e) => Some(before + [e])
  }

  /** Applies hunks in order to a whole file. */
  function Apply(old': seq<Line>, hunks: seq<Hunk>): Option<seq<Line>> {
    match EditsOf(hunks)
    case None => None
    case Some(edits) => ApplyFrom(old', 0, 0, edits)
  }

  // ----- sides of bodies put end to end -----

  /** How one more line changes a side; `taken` says whether the line before it is on that side. */
  function AddSide(side: seq<Line>, taken: bool, line: string, old': bool): seq<Line>
    requires taken ==> side != []
  {
    if Takes(old', line) then side + [Line(line[1..], true)]
    else if IsMarker(line) && taken then side[..|side| - 1] + [side[|side| - 1].(newline := false)]
    else side
  }

  lemma SideSnoc(lines: seq<string>, line: string, old': bool)
    ensures var taken := lines != [] && Takes(old', lines[|lines| - 1]);
      && (taken ==> Side(lines, old') != [])
      && Side(lines + [line], old') == AddSide(Side(lines, old'), taken, line, old')
  {
    DropLast(lines, line);
  }

  lemma AddSideAfter(x: seq<Line>, y: seq<Line>, takenAll: bool, taken: bool, line: string, old': bool)
    requires takenAll ==> x + y != []
    requires taken ==> y != []
    requires IsMarker(line) ==> takenAll == taken
    ensures AddSide(x + y, takenAll, line, old') == x + AddSide(y, taken, line, old')
  {
    if y != [] {
      assert (x + y)[..|x + y| - 1] == x + y[..|y| - 1];
    }
  }

  lemma {:induction false} SideAppend(a: seq<string>, b: seq<string>, old': bool)
    requires b != [] ==> !IsMarker(b[0])
    ensures Side(a + b, old') == Side(a, old') + Side(b, old')
  {
    if b == [] {
      assert a + b == a;
    } else {
      var init, line := b[..|b| - 1], b[|b| - 1];
      SideAppend(a, init, old');
      SideAppendSnoc(a, init, line, old');
      LastSplit(b);
      Assoc(a, init, [line]);
    }
  }

  lemma SideAppendSnoc(a: seq<string>, init: seq<string>, line: string, old': bool)
    requires Side(a + init, old') == Side(a, old') + Side(init, old')
    requires init == [] ==> !IsMarker(line)
    ensures Side(a + init + [line], old') == Side(a, old') + Side(init + [line], old')
  {
    hide Side, AddSide, IsMarker;
    var all := a + init;
    SideSnoc(all, line, old');
    SideSnoc(init, line, old');
    var takenAll := all != [] && Takes(old', all[|all| - 1]);
    var taken := init != [] && Takes(old', init[|init| - 1]);
    AddSideAfter(Side(a, old'), Side(init, old'), takenAll, taken, line, old');
  }

  // ----- two edits side by side -----

  ghost predicate Adjoin(e: Edit, f: Edit) {
    f.oldAt == e.oldAt + |e.before| && f.newAt == e.newAt + |e.after|
  }

  function Joined(e: Edit, f: Edit): Edit { Edit(e.oldAt, e.newAt, e.before + f.before, e.after + f.after) }

  lemma MatchJoined(old': seq<Line>, oldAt: nat, newAt: nat, e: Edit, f: Edit)
    requires Adjoin(e, f)
    ensures Matches(old', oldAt, newAt, Joined(e, f))
        <==> Matches(old', oldAt, newAt, e) && Matches(old', e.oldAt + |e.before|, e.newAt + |e.after|, f)
  {
    var whole := e.oldAt + |e.before| + |f.before|;
    if oldAt <= e.oldAt && whole <= |old'| {
      var part := old'[e.oldAt..whole];
      assert part[..|e.before|] == old'[e.oldAt..f.oldAt] && part[|e.before|..] == old'[f.oldAt..whole];
      assert part == part[..|e.before|] + part[|e.before|..];
      assert (e.before + f.before)[..|e.before|] == e.before && (e.before + f.before)[|e.before|..] == f.before;
    }
  }

  /** Two edits that adjoin act as one. */
  lemma ApplyJoined(old': seq<Line>, oldAt: nat, newAt: nat, e: Edit, f: Edit, rest: seq<Edit>)
    requires Adjoin(e, f)
    ensures ApplyFrom(old', oldAt, newAt, [e] + ([f] + rest)) == ApplyFrom(old', oldAt, newAt, [Joined(e, f)] + rest)
  {
    MatchJoined(old', oldAt, newAt, e, f);
    var two := [e] + ([f] + rest);
    assert two[1..] == [f] + rest && ([f] + rest)[1..] == rest && ([Joined(e, f)] + rest)[1..] == rest;
    if Matches(old', oldAt, newAt, Joined(e, f)) {
      var last := ApplyFrom(old', f.oldAt + |f.before|, f.newAt + |f.after|, rest);
      if last.Some? {
        assert old'[f.oldAt..f.oldAt] == [];
        assert old'[oldAt..e.oldAt] + e.after + ([] + f.after + last.value)
            == old'[oldAt..e.oldAt] + (e.after + f.after) + last.value;
      }
    }
  }

  // ----- pieces -----

  /** The edits of bodies laid end to end. */
  function BodyEdits(bodies: seq<seq<string>>, oldFirst: nat, newFirst: nat): (edits: seq<Edit>)
    requires oldFirst > 0 && newFirst > 0
    ensures |edits| == |bodies|
  {
    seq(|bodies|, i requires 0 <= i < |bodies| =>
      BodyEdit(OldAt(bodies, i, oldFirst), NewAt(bodies, i, newFirst), bodies[i]))
  }

  lemma BodyEditsSnoc(init: seq<seq<string>>, last: seq<string>, oldFirst: nat, newFirst: nat)
    requires oldFirst > 0 && newFirst > 0
    ensures BodyEdits(init + [last], oldFirst, newFirst)
         == BodyEdits(init, oldFirst, newFirst)
            + [BodyEdit(oldFirst + OldCount(Flat(init)), newFirst + NewCount(Flat(init)), last)]
  {
    hide BodyEdit, OldCount, NewCount, Flat;
    forall i | 0 <= i <= |init| ensures (init + [last])[..i] == init[..i] {
      PrefixOfAppend(init, [last], i);
      assert init + [last][..0] == init;
    }
    assert init[..|init|] == init;
  }

  /** Edits of bodies laid end to end act as the edit of all their lines. */
  lemma {:induction false} ApplyBodies(old': seq<Line>, oldAt: nat, newAt: nat, bodies: seq<seq<string>>,
                                       oldFirst: nat, newFirst: nat, rest: seq<Edit>)
    requires oldFirst > 0 && newFirst > 0 && bodies != []
    requires forall i :: 0 < i < |bodies| ==> bodies[i] != [] && !IsMarker(bodies[i][0])
    ensures ApplyFrom(old', oldAt, newAt, BodyEdits(bodies, oldFirst, newFirst) + rest)
         == ApplyFrom(old', oldAt, newAt, [BodyEdit(oldFirst, newFirst, Flat(bodies))] + rest)
  {
    hide ApplyFrom, BodyEdit, BodyEdits, Flat, OldCount, NewCount, IsMarker;
    if |bodies| == 1 {
      OneBodyEdit(bodies, oldFirst, newFirst);
    } else {
      var init, last := bodies[..|bodies| - 1], bodies[|bodies| - 1];
      LastSplit(bodies);
      assert last == bodies[|bodies| - 1];
      var f := BodyEdit(oldFirst + OldCount(Flat(init)), newFirst + NewCount(Flat(init)), last);
      ApplyBodies(old', oldAt, newAt, init, oldFirst, newFirst, [f] + rest);
      ApplyOneMore(old', oldAt, newAt, init, last, oldFirst, newFirst, rest);
    }
  }

  /** One body more, given what the bodies before it do before any edits. */
  lemma ApplyOneMore(old': seq<Line>, oldAt: nat, newAt: nat, init: seq<seq<string>>, last: seq<string>,
                     oldFirst: nat, newFirst: nat, rest: seq<Edit>)
    requires oldFirst > 0 && newFirst > 0 && (last != [] ==> !IsMarker(last[0]))
    requires var f := BodyEdit(oldFirst + OldCount(Flat(init)), newFirst + NewCount(Flat(init)), last);
      ApplyFrom(old', oldAt, newAt, BodyEdits(init, oldFirst, newFirst) + ([f] + rest))
      == ApplyFrom(old', oldAt, newAt, [BodyEdit(oldFirst, newFirst, Flat(init))] + ([f] + rest))
    ensures ApplyFrom(old', oldAt, newAt, BodyEdits(init + [last], oldFirst, newFirst) + rest)
         == ApplyFrom(old', oldAt, newAt, [BodyEdit(oldFirst, newFirst, Flat(init + [last]))] + rest)
  {
    hide ApplyFrom, BodyEdit, BodyEdits, Joined, Adjoin, Flat, OldCount, NewCount, IsMarker;
    var e := BodyEdit(oldFirst, newFirst, Flat(init));
    var f := BodyEdit(oldFirst + OldCount(Flat(init)), newFirst + NewCount(Flat(init)), last);
    BodyEditsSnoc(init, last, oldFirst, newFirst);
    EditsJoin(init, last, oldFirst, newFirst);
    Assoc(BodyEdits(init, oldFirst, newFirst), [f], rest);
    ApplyJoined(old', oldAt, newAt, e, f, rest);
  }

  lemma OneBodyEdit(bodies: seq<seq<string>>, oldFirst: nat, newFirst: nat)
    requires oldFirst > 0 && newFirst > 0 && |bodies| == 1
    ensures BodyEdits(bodies, oldFirst, newFirst) == [BodyEdit(oldFirst, newFirst, Flat(bodies))]
  {
    hide BodyEdit;
    assert bodies[..0] == [] && bodies[..1] == bodies;
    FlatOne(bodies);
  }

  lemma EditsJoin(init: seq<seq<string>>, last: seq<string>, oldFirst: nat, newFirst: nat)
    requires oldFirst > 0 && newFirst > 0 && (last != [] ==> !IsMarker(last[0]))
    ensures var e := BodyEdit(oldFirst, newFirst, Flat(init));
      var f := BodyEdit(oldFirst + OldCount(Flat(init)), newFirst + NewCount(Flat(init)), last);
      Adjoin(e, f) && Joined(e, f) == BodyEdit(oldFirst, newFirst, Flat(init + [last]))
  {
    hide Flat, IsMarker, Side, OldCount, NewCount;
    FlatSnoc(init, last);
    SideAppend(Flat(init), last, true);
    SideAppend(Flat(init), last, false);
    assert |Side(Flat(init), true)| == OldCount(Flat(init)) && |Side(Flat(init), false)| == NewCount(Flat(init));
  }

  // ----- no piece but the first begins with a marker -----

  ghost predicate HeadsUnmarked(groups: seq<seq<seq<string>>>) {
    forall i :: 0 < i < |groups| ==> groups[i] != [] && groups[i][0] != [] && !IsMarker(groups[i][0][0])
  }

  lemma {:induction false} GroupHeads(units: seq<seq<string>>, newFirst: nat, cuts: set<nat>)
    requires GoodUnits(units)
    ensures HeadsUnmarked(Grouped(units, newFirst, cuts))
  {
    hide Grouped, IsMarker;
    if units != [] {
      var init, u := units[..|units| - 1], units[|units| - 1];
      assert IsUnit(u) && u != [] && GoodUnits(init);
      hide GoodUnits, IsUnit;
      GroupHeads(init, newFirst, cuts);
      LastSplit(units);
      GroupedSnoc(init, u, newFirst, cuts);
    }
  }

  lemma {:induction false} FlatHead(parts: seq<seq<string>>)
    requires parts != [] && parts[0] != []
    ensures Flat(parts) != [] && Flat(parts)[0] == parts[0][0]
  {
    if |parts| > 1 { FlatHead(parts[..|parts| - 1]); } else { FlatOne(parts); }
  }

  lemma BodiesBeginUnmarked(body: seq<string>, newFirst: nat, cuts: set<nat>)
    ensures var bodies := SplitBodies(body, newFirst, cuts);
      forall i :: 0 < i < |bodies| ==> bodies[i] != [] && !IsMarker(bodies[i][0])
  {
    var u, bodies := UnitsOf(body), SplitBodies(body, newFirst, cuts);
    var groups := Grouped(u.units, newFirst, cuts);
    UnitsAreGood(body);
    GroupHeads(u.units, newFirst, cuts);
    forall i | 0 < i < |bodies| ensures bodies[i] != [] && !IsMarker(bodies[i][0]) {
      FlatHead(groups[i]);
    }
  }

  // ----- a split hunk acts as the whole -----

  lemma EditOfPiece(oldFirst: nat, newFirst: nat, lines: seq<string>)
    requires oldFirst > 0 && newFirst > 0 && OneLiners(lines) && NoOther(lines)
    requires oldFirst + OldCount(lines) <= USIZE_MAX && newFirst + NewCount(lines) <= USIZE_MAX
    ensures EditOf(PieceHunk(oldFirst, newFirst, lines)) == Some(BodyEdit(oldFirst, newFirst, lines))
  {
    hide HunkHeader, HunkBody, HunkRanges, PieceHunk, BodyEdit, OldCount, NewCount;
    PieceReads(oldFirst, newFirst, lines);
    MarkedSame(lines);
  }

  lemma EditsSnoc(hunks: seq<Hunk>, last: Hunk)
    ensures EditsOf(hunks + [last]) ==
      if EditsOf(hunks).None? || EditOf(last).None? then None else Some(EditsOf(hunks).value + [EditOf(last).value])
  {
    DropLast(hunks, last);
  }

  lemma {:induction false} EditsAppend(a: seq<Hunk>, b: seq<Hunk>)
    ensures EditsOf(a + b) ==
      if EditsOf(a).None? || EditsOf(b).None? then None else Some(EditsOf(a).value + EditsOf(b).value)
  {
    hide EditOf;
    if b == [] {
      assert a + b == a;
      if EditsOf(a).Some? { assert EditsOf(a).value + [] == EditsOf(a).value; }
    } else {
      var init, last := b[..|b| - 1], b[|b| - 1];
      EditsAppend(a, init);
      LastSplit(b);
      Assoc(a, init, [last]);
      EditsSnoc(a + init, last);
      EditsSnoc(init, last);
      if EditsOf(a).Some? && EditsOf(init).Some? && EditOf(last).Some? {
        Assoc(EditsOf(a).value, EditsOf(init).value, [EditOf(last).value]);
      }
    }
  }

  lemma {:induction false} EditsOfPieces(bodies: seq<seq<string>>, oldFirst: nat, newFirst: nat)
    requires oldFirst > 0 && newFirst > 0 && forall b :: b in bodies ==> OneLiners(b) && NoOther(b)
    requires oldFirst + OldCount(Flat(bodies)) <= USIZE_MAX && newFirst + NewCount(Flat(bodies)) <= USIZE_MAX
    ensures EditsOf(PieceHunks(bodies, oldFirst, newFirst)) == Some(BodyEdits(bodies, oldFirst, newFirst))
  {
    if bodies != [] {
      var init, last := bodies[..|bodies| - 1], bodies[|bodies| - 1];
      var o, n := oldFirst + OldCount(Flat(init)), newFirst + NewCount(Flat(init));
      assert last in bodies && forall b :: b in init ==> b in bodies;
      LastSplit(bodies);
      FlatSnoc(init, last);
      CountAppend(IsOldSide, Flat(init), last);
      CountAppend(IsKept, Flat(init), last);
      EditsOfPieces(init, oldFirst, newFirst);
      EditsOfPiecesSnoc(init, last, oldFirst, newFirst);
    }
  }

  lemma EditsOfPiecesSnoc(init: seq<seq<string>>, last: seq<string>, oldFirst: nat, newFirst: nat)
    requires oldFirst > 0 && newFirst > 0 && OneLiners(last) && NoOther(last)
    requires oldFirst + OldCount(Flat(init)) + OldCount(last) <= USIZE_MAX
    requires newFirst + NewCount(Flat(init)) + NewCount(last) <= USIZE_MAX
    requires EditsOf(PieceHunks(init, oldFirst, newFirst)) == Some(BodyEdits(init, oldFirst, newFirst))
    ensures EditsOf(PieceHunks(init + [last], oldFirst, newFirst)) == Some(BodyEdits(init + [last], oldFirst, newFirst))
  {
    hide PieceHunk, PieceHunks, EditOf, EditsOf, BodyEdit, BodyEdits, OldCount, NewCount, Flat;
    var o, n := oldFirst + OldCount(Flat(init)), newFirst + NewCount(Flat(init));
    PieceHunksSnoc(init, last, oldFirst, newFirst);
    BodyEditsSnoc(init, last, oldFirst, newFirst);
    EditOfPiece(o, n, last);
    EditsSnoc(PieceHunks(init, oldFirst, newFirst), PieceHunk(o, n, last));
  }

  /** A fitting hunk's counts are its body's. */
  predicate Consistent(h: Hunk) { Fits(h) && EditOf(h).Some? }

  lemma SplitHunkEdits(h: Hunk, cuts: set<nat>)
    requires Consistent(h)
    ensures EditsOf(SplitPieces(h, cuts)).Some?
    ensures forall old', oldAt, newAt, rest ::
      ApplyFrom(old', oldAt, newAt, EditsOf(SplitPieces(h, cuts)).value + rest)
      == ApplyFrom(old', oldAt, newAt, [EditOf(h).value] + rest)
  {
    var r := HunkRanges(HunkHeader(h)).value;
    var o, n := First(r.oldStart, r.oldLen), First(r.newStart, r.newLen);
    var bodies := SplitBodies(HunkBody(h), n, cuts);
    if |bodies| == 1 {
      EditsSnoc([], h);
      assert [] + [h] == [h];
      assert [] + [EditOf(h).value] == [EditOf(h).value];
    } else {
      PiecesFit(h, cuts);
      EditsOfPieces(bodies, o, n);
      BodiesBeginUnmarked(HunkBody(h), n, cuts);
      SplitKeepsBody(HunkBody(h), n, cuts);
      hide ApplyFrom, BodyEdits, SplitBodies, HunkBody, HunkRanges, HunkHeader, PieceHunks, OldCount, NewCount, Flat;
      forall old', oldAt, newAt, rest
        ensures ApplyFrom(old', oldAt, newAt, EditsOf(SplitPieces(h, cuts)).value + rest)
             == ApplyFrom(old', oldAt, newAt, [EditOf(h).value] + rest)
      {
        ApplyBodies(old', oldAt, newAt, bodies, o, n, rest);
      }
    }
  }

  lemma ApplyStep(old': seq<Line>, oldAt: nat, newAt: nat, e: Edit, rest: seq<Edit>)
    ensures ApplyFrom(old', oldAt, newAt, [e] + rest) ==
      if !Matches(old', oldAt, newAt, e) then None
      else match ApplyFrom(old', e.oldAt + |e.before|, e.newAt + |e.after|, rest)
        case None => None
        case Some(after) => Some(old'[oldAt..e.oldAt] + e.after + after)
  {
    assert ([e] + rest)[1..] == rest;
  }

  lemma {:induction false} ApplyAfter(old': seq<Line>, oldAt: nat, newAt: nat, before: seq<Edit>, a: seq<Edit>,
                                      b: seq<Edit>)
    requires forall o, n :: ApplyFrom(old', o, n, a) == ApplyFrom(old', o, n, b)
    ensures ApplyFrom(old', oldAt, newAt, before + a) == ApplyFrom(old', oldAt, newAt, before + b)
    decreases before
  {
    hide ApplyFrom, Matches;
    if before == [] {
      assert before + a == a && before + b == b;
    } else {
      var e, rest := before[0], before[1..];
      assert before + a == [e] + (rest + a) && before + b == [e] + (rest + b);
      ApplyStep(old', oldAt, newAt, e, rest + a);
      ApplyStep(old', oldAt, newAt, e, rest + b);
      ApplyAfter(old', e.oldAt + |e.before|, e.newAt + |e.after|, rest, a, b);
    }
  }

  /**
   * Anywhere in a patch, a hunk may be replaced by its pieces: the patch then gives every old file
   * the same new file, and fails on the same old files.
   */
  lemma SplitApplies(old': seq<Line>, before: seq<Hunk>, h: Hunk, after: seq<Hunk>, cuts: set<nat>)
    requires Consistent(h)
    ensures Apply(old', before + SplitPieces(h, cuts) + after) == Apply(old', before + [h] + after)
  {
    var pieces := SplitPieces(h, cuts);
    SplitHunkEdits(h, cuts);
    EditsAppend(before + pieces, after);
    EditsAppend(before, pieces);
    EditsAppend(before + [h], after);
    EditsAppend(before, [h]);
    EditsSnoc([], h);
    assert [] + [h] == [h];
    hide EditsOf, ApplyFrom, SplitPieces, EditOf;
    if EditsOf(before).Some? && EditsOf(after).Some? {
      var es, ps, rest := EditsOf(before).value, EditsOf(pieces).value, EditsOf(after).value;
      assert [] + [EditOf(h).value] == [EditOf(h).value];
      ApplyAfter(old', 0, 0, es, ps + rest, [EditOf(h).value] + rest);
      Assoc(es, ps, rest);
      Assoc(es, [EditOf(h).value], rest);
    }
  }
}
