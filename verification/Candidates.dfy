/**
 * Evidence candidates (`candidate_hunks`, src/review/judgments.rs) and the lines a review comment
 * can target (`commentable_lines`, src/domain/github_review.rs).
 */
module Candidates {
  import opened Text
  import opened Patch
  import opened HunkSplit
  import opened SplitLaws
  import opened HunkApply
  import opened Reparse

  const MAX_EVIDENCE_LINES := 80

  /** `count` lines from `from`. */
  function Interval(from: nat, count: nat): (lines: set<nat>)
    ensures forall x :: x in lines <==> from <= x < from + count
  {
    if count == 0 then {} else Interval(from, count - 1) + {from + count - 1}
  }

  /** The new-file lines a hunk's body stands for. */
  function NewLines(h: Hunk): set<nat> { Interval(h.startLine, NewCount(HunkBody(h))) }

  function LinesOf(hunks: seq<Hunk>): set<nat> {
    if hunks == [] then {} else LinesOf(hunks[..|hunks| - 1]) + NewLines(hunks[|hunks| - 1])
  }

  function Commentable(patch: string): set<nat> { LinesOf(ParsedHunks(patch)) }

  method CommentableLines(patch: string) returns (lines: set<nat>)
    ensures lines == Commentable(patch)
  {
    var hunks := ParseHunks(patch);
    lines := {};
    hide ParsedHunks, HunkBody;
    for i := 0 to |hunks|
      invariant lines == LinesOf(hunks[..i])
    {
      assert hunks[..i + 1][..i] == hunks[..i];
      lines := AddLines(HunkBody(hunks[i]), hunks[i].startLine, lines);
    }
    assert hunks[..|hunks|] == hunks;
  }

  /** The inner loop: the kept lines of one body. */
  method AddLines(body: seq<string>, start: nat, before: set<nat>) returns (lines: set<nat>)
    ensures lines == before + Interval(start, NewCount(body))
  {
    lines := before;
    var line := start;
    for j := 0 to |body|
      invariant line == start + NewCount(body[..j])
      invariant lines == before + Interval(start, NewCount(body[..j]))
    {
      assert body[..j + 1][..j] == body[..j];
      if IsKept(body[j]) {
        lines := lines + {line};
        line := line + 1;
      }
    }
    assert body[..|body|] == body;
  }

  // ----- choosing candidates -----

  type Positive = n: nat | n > 0 witness 1

  /** The new-side text of a hunk. */
  function NewSide(body: seq<string>): (side: seq<string>)
    ensures |side| == NewCount(body)
  {
    if body == [] then []
    else
      var init, line := body[..|body| - 1], body[|body| - 1];
      if IsKept(line) then NewSide(init) + [line[1..]] else NewSide(init)
  }

  /** Where the regions after the first begin, as lines of the new file. */
  function StartCuts(h: Hunk, starts: seq<Positive>): set<nat> {
    set i | 1 <= i < |starts| :: h.startLine + starts[i] - 1
  }

  function RegionCuts(h: Hunk, regions: string -> seq<Positive>): set<nat> {
    StartCuts(h, regions(Join(NewSide(HunkBody(h)), '\n')))
  }

  function CandidatesOf(h: Hunk, regions: string -> seq<Positive>): (pieces: seq<Hunk>)
    ensures |pieces| > 0
  {
    if NewCount(HunkBody(h)) <= MAX_EVIDENCE_LINES then [h] else SplitPieces(h, RegionCuts(h, regions))
  }

  /** The hunk is split where its first piece cannot be printed. */
  predicate CannotSplit(h: Hunk, regions: string -> seq<Positive>) {
    NewCount(HunkBody(h)) > MAX_EVIDENCE_LINES && Underflows(h, RegionCuts(h, regions))
  }

  function AllCandidates(hunks: seq<Hunk>, regions: string -> seq<Positive>): seq<Hunk> {
    if hunks == [] then []
    else AllCandidates(hunks[..|hunks| - 1], regions) + CandidatesOf(hunks[|hunks| - 1], regions)
  }

  /** The cuts of one hunk's regions, as the source collects them. */
  method CutsOf(h: Hunk, starts: seq<Positive>) returns (cuts: seq<nat>)
    ensures CutSet(cuts) == StartCuts(h, starts)
  {
    cuts := [];
    var i := 1;
    while i < |starts|
      invariant 1 <= i
      invariant CutSet(cuts) == set k | 1 <= k < i && k < |starts| :: h.startLine + starts[k] - 1
    {
      ghost var before := CutSet(cuts);
      cuts := cuts + [h.startLine + starts[i] - 1];
      assert CutSet(cuts) == before + {h.startLine + starts[i] - 1};
      i := i + 1;
    }
  }

  method Renumber(hunks: seq<Hunk>) returns (numbered: seq<Hunk>)
    ensures numbered == Numbered(hunks)
  {
    numbered := hunks;
    for i := 0 to |numbered|
      invariant |numbered| == |hunks|
      invariant forall k :: 0 <= k < i ==> numbered[k] == hunks[k].(id := HunkId(k))
      invariant forall k :: i <= k < |numbered| ==> numbered[k] == hunks[k]
    {
      numbered := numbered[i := numbered[i].(id := HunkId(i))];
    }
  }

  lemma AllCandidatesNext(hunks: seq<Hunk>, i: nat, regions: string -> seq<Positive>)
    requires i < |hunks|
    ensures AllCandidates(hunks[..i + 1], regions) ==
      AllCandidates(hunks[..i], regions) + CandidatesOf(hunks[i], regions)
  {
    hide CandidatesOf;
    assert hunks[..i + 1][..i] == hunks[..i];
  }

  /** One hunk's candidates. The regions of a text come from `function_regions`, which is not part of this model. */
  method HunkCandidates(h: Hunk, regions: string -> seq<Positive>) returns (pieces: Option<seq<Hunk>>)
    ensures pieces == if CannotSplit(h, regions) then None else Some(CandidatesOf(h, regions))
  {
    hide SplitPieces, Underflows, StartCuts, HunkHeader, HunkBody, NewSide, NewCount;
    var side := NewSide(HunkBody(h));
    if |side| <= MAX_EVIDENCE_LINES { return Some([h]); }
    var cuts := CutsOf(h, regions(Join(side, '\n')));
    pieces := SplitHunk(h, cuts);
  }

  method CandidateHunks(patch: string, regions: string -> seq<Positive>) returns (candidates: Option<seq<Hunk>>)
    ensures candidates ==
      if exists h :: h in ParsedHunks(patch) && CannotSplit(h, regions) then None
      else Some(Numbered(AllCandidates(ParsedHunks(patch), regions)))
  {
    hide ParsedHunks, CandidatesOf, CannotSplit;
    var hunks := ParseHunks(patch);
    var all: seq<Hunk> := [];
    for i := 0 to |hunks|
      invariant all == AllCandidates(hunks[..i], regions)
      invariant forall h :: h in hunks[..i] ==> !CannotSplit(h, regions)
    {
      AllCandidatesNext(hunks, i, regions);
      assert hunks[..i + 1] == hunks[..i] + [hunks[i]];
      var pieces := HunkCandidates(hunks[i], regions);
      if pieces.None? { return None; }
      all := all + pieces.value;
    }
    assert hunks[..|hunks|] == hunks;
    var numbered := Renumber(all);
    candidates := Some(numbered);
  }

  /** Valid headers never stop the candidates. */
  lemma SoundCanSplit(patch: string, regions: string -> seq<Positive>)
    requires forall h :: h in ParsedHunks(patch) ==> StartsFromOne(HunkHeader(h))
    ensures !exists h :: h in ParsedHunks(patch) && CannotSplit(h, regions)
  {
    hide ParsedHunks, StartsFromOne, Underflows, HunkHeader, RegionCuts;
    forall h | h in ParsedHunks(patch) ensures !CannotSplit(h, regions) {
      StartsFromOneSplits(h, RegionCuts(h, regions));
    }
  }

  // ----- coverage -----

  lemma {:induction false} LinesAppend(a: seq<Hunk>, b: seq<Hunk>)
    ensures LinesOf(a + b) == LinesOf(a) + LinesOf(b)
  {
    hide NewLines;
    if b == [] {
      assert a + b == a;
    } else {
      AppendLast(a, b);
      DropLast(a + b[..|b| - 1], b[|b| - 1]);
      LinesAppend(a, b[..|b| - 1]);
    }
  }

  lemma StartIsRangeStart(header: string)
    requires HunkRanges(header).Some?
    ensures NewStart(header) == HunkRanges(header).value.newStart
  {
  }

  /** Each hunk has its body and starts where that lies. */
  predicate LaidOut(hunks: seq<Hunk>, bodies: seq<seq<string>>, newFirst: nat) {
    && |hunks| == |bodies|
    && forall i :: 0 <= i < |hunks| ==>
        HunkBody(hunks[i]) == bodies[i] && hunks[i].startLine == NewAt(bodies, i, newFirst)
  }

  lemma LaidOutInit(hunks: seq<Hunk>, bodies: seq<seq<string>>, newFirst: nat)
    requires LaidOut(hunks, bodies, newFirst) && |hunks| > 0
    ensures LaidOut(hunks[..|hunks| - 1], bodies[..|hunks| - 1], newFirst)
    ensures var n := |hunks| - 1;
      NewLines(hunks[n]) == Interval(newFirst + NewCount(Flat(bodies[..n])), NewCount(bodies[n]))
  {
    var n := |hunks| - 1;
    hide HunkBody, NewCount, Flat, Interval;
    forall i | 0 <= i < n ensures NewAt(bodies[..n], i, newFirst) == NewAt(bodies, i, newFirst) {
      assert bodies[..n][..i] == bodies[..i];
    }
  }

  lemma NothingLaidOut(hunks: seq<Hunk>, bodies: seq<seq<string>>, newFirst: nat)
    requires LaidOut(hunks, bodies, newFirst) && |hunks| == 0
    ensures LinesOf(hunks) == Interval(newFirst, NewCount(Flat(bodies)))
  {
    assert Flat(bodies) == [];
  }

  lemma SameLength(hunks: seq<Hunk>, bodies: seq<seq<string>>, newFirst: nat)
    requires LaidOut(hunks, bodies, newFirst)
    ensures |hunks| == |bodies|
  {
  }

  lemma LinesInit(hunks: seq<Hunk>)
    requires |hunks| > 0
    ensures LinesOf(hunks) == LinesOf(hunks[..|hunks| - 1]) + NewLines(hunks[|hunks| - 1])
  {
    hide NewLines;
  }

  /** Hunks that start where their bodies lie stand for one interval of new lines. */
  lemma {:induction false} LaidOutLines(hunks: seq<Hunk>, bodies: seq<seq<string>>, newFirst: nat)
    requires LaidOut(hunks, bodies, newFirst)
    ensures LinesOf(hunks) == Interval(newFirst, NewCount(Flat(bodies)))
  {
    hide LaidOut, NewLines, NewCount, Interval, Flat, LinesOf;
    if |hunks| == 0 {
      NothingLaidOut(hunks, bodies, newFirst);
    } else {
      var n := |hunks| - 1;
      LaidOutInit(hunks, bodies, newFirst);
      SameLength(hunks, bodies, newFirst);
      LaidOutLines(hunks[..n], bodies[..n], newFirst);
      LastSplit(bodies);
      FlatSnoc(bodies[..n], bodies[n]);
      NewCountAppend(Flat(bodies[..n]), bodies[n]);
      LinesInit(hunks);
      IntervalsMeet(newFirst, NewCount(Flat(bodies[..n])), NewCount(bodies[n]));
    }
  }

  lemma IntervalsMeet(from: nat, a: nat, b: nat)
    ensures Interval(from, a) + Interval(from + a, b) == Interval(from, a + b)
  {
  }

  lemma SplitCovers(h: Hunk, cuts: set<nat>)
    requires Consistent(h) && h.startLine == NewStart(HunkHeader(h))
    ensures LinesOf(SplitPieces(h, cuts)) == NewLines(h)
  {
    var pieces := SplitPieces(h, cuts);
    if |pieces| == 1 {
      assert pieces == [h] by { assert pieces[0] == h; }
      assert pieces[..0] == [];
    } else {
      var r := HunkRanges(HunkHeader(h)).value;
      var o, n := First(r.oldStart, r.oldLen), First(r.newStart, r.newLen);
      var bodies := SplitBodies(HunkBody(h), n, cuts);
      StartIsRangeStart(HunkHeader(h));
      MarkedCounts(HunkBody(h));
      PieceStarts(h, cuts);
      SplitIsContiguous(h, cuts);
      assert |bodies| == |pieces| && Flat(bodies) == Marked(HunkBody(h));
      assert NewCount(HunkBody(h)) > 0;
      PieceStartLines(h, cuts);
      hide SplitBodies, SplitPieces, HunkBody, HunkHeader, HunkRanges, EditOf, NewCount, OldCount, Fits, Flat, Marked,
        NewLines, LinesOf, NewAt, OldAt, LaidOut, StartLines, BodyStartLines, ReadsAs;
      PiecesLaidOut(pieces, bodies, o, n);
      LaidOutLines(pieces, bodies, n);
    }
  }

  lemma PiecesLaidOut(pieces: seq<Hunk>, bodies: seq<seq<string>>, oldFirst: nat, newFirst: nat)
    requires |pieces| == |bodies| && StartLines(pieces) == BodyStartLines(bodies, newFirst)
    requires forall i :: 0 <= i < |pieces| ==>
      ReadsAs(pieces[i], OldAt(bodies, i, oldFirst), NewAt(bodies, i, newFirst), bodies[i])
    ensures LaidOut(pieces, bodies, newFirst)
  {
    hide HunkBody, HunkHeader, HunkRanges, NewAt, OldAt, Fits;
    forall i | 0 <= i < |pieces|
      ensures HunkBody(pieces[i]) == bodies[i] && pieces[i].startLine == NewAt(bodies, i, newFirst)
    {
      assert StartLines(pieces)[i] == BodyStartLines(bodies, newFirst)[i];
      assert ReadsAs(pieces[i], OldAt(bodies, i, oldFirst), NewAt(bodies, i, newFirst), bodies[i]);
    }
  }

  /** Every hunk of the patch has a readable header whose counts are its body's. */
  ghost predicate SoundPatch(patch: string) { AllSound(ParsedHunks(patch)) }

  ghost predicate AllSound(hunks: seq<Hunk>) {
    forall h :: h in hunks ==> Consistent(h) && StartsFromOne(HunkHeader(h))
  }

  ghost predicate AllStart(hunks: seq<Hunk>) { forall h :: h in hunks ==> h.startLine == NewStart(HunkHeader(h)) }

  lemma ParsedStarts(patch: string)
    ensures AllStart(ParsedHunks(patch))
  {
    var groups := Groups(Split(patch, '\n'));
    SplitPartsLackSep(patch, '\n');
    GroupsOfOneLiners(Split(patch, '\n'));
    hide Split, NewStart;
    forall i | 0 <= i < |groups| ensures HunkHeader(HunksOf(groups)[i]) == groups[i][0] {
      GroupHeader(groups, i);
    }
  }

  lemma {:induction false} CandidatesCoverHunks(hunks: seq<Hunk>, regions: string -> seq<Positive>)
    requires AllSound(hunks) && AllStart(hunks)
    ensures LinesOf(AllCandidates(hunks, regions)) == LinesOf(hunks)
  {
    if hunks != [] {
      hide Consistent, SplitPieces, NewLines, HunkBody, HunkHeader, StartsFromOne, RegionCuts, NewCount, CandidatesOf;
      var init, h := hunks[..|hunks| - 1], hunks[|hunks| - 1];
      assert h in hunks && forall k :: k in init ==> k in hunks;
      CandidatesCoverHunks(init, regions);
      LinesAppend(AllCandidates(init, regions), CandidatesOf(h, regions));
      HunkCandidatesCover(h, regions);
    }
  }

  lemma LinesOfOne(h: Hunk)
    ensures LinesOf([h]) == NewLines(h)
  {
    hide NewLines;
    assert [h][..0] == [];
    assert LinesOf([h]) == {} + NewLines(h);
  }

  lemma HunkCandidatesCover(h: Hunk, regions: string -> seq<Positive>)
    requires Consistent(h) && StartsFromOne(HunkHeader(h)) && h.startLine == NewStart(HunkHeader(h))
    ensures LinesOf(CandidatesOf(h, regions)) == NewLines(h)
  {
    hide SplitPieces, NewLines, HunkBody, HunkHeader, RegionCuts, NewCount, Consistent, LinesOf;
    SplitCovers(h, RegionCuts(h, regions));
    LinesOfOne(h);
  }

  lemma {:induction false} NumberedLines(hunks: seq<Hunk>)
    ensures LinesOf(Numbered(hunks)) == LinesOf(hunks)
  {
    if hunks != [] {
      var n := |hunks| - 1;
      NumberedLines(hunks[..n]);
      assert Numbered(hunks)[..n] == Numbered(hunks[..n]);
    }
  }

  /** Whatever the regions, the candidates stand for exactly the commentable lines of the patch. */
  lemma CandidatesCover(patch: string, regions: string -> seq<Positive>)
    requires SoundPatch(patch)
    ensures LinesOf(Numbered(AllCandidates(ParsedHunks(patch), regions))) == Commentable(patch)
  {
    ParsedStarts(patch);
    CandidatesCoverHunks(ParsedHunks(patch), regions);
    NumberedLines(AllCandidates(ParsedHunks(patch), regions));
  }

  /** Candidate ids are distinct. */
  lemma CandidateIdsDiffer(hunks: seq<Hunk>, i: nat, j: nat)
    requires i < j < |hunks|
    ensures Numbered(hunks)[i].id != Numbered(hunks)[j].id
  {
    DecIsInjective(i + 1, j + 1);
    assert HunkId(i)[5..] == Dec(i + 1) && HunkId(j)[5..] == Dec(j + 1);
  }

  lemma NewCountPrefix(body: seq<string>, i: nat)
    requires i < |body| && IsKept(body[i])
    ensures NewCount(body[..i]) < NewCount(body)
  {
    assert body == body[..i] + ([body[i]] + body[i + 1..]);
    NewCountAppend(body[..i], [body[i]] + body[i + 1..]);
    NewCountAppend([body[i]], body[i + 1..]);
    assert [body[i]][..0] == [];
  }

  lemma {:induction false} LinesContain(hunks: seq<Hunk>, h: Hunk)
    requires h in hunks
    ensures NewLines(h) <= LinesOf(hunks)
  {
    hide NewLines;
    if h != hunks[|hunks| - 1] { LinesContain(hunks[..|hunks| - 1], h); }
  }

  /** A candidate with an added line anchors on a line a review comment can target. */
  lemma CandidateAnchors(patch: string, regions: string -> seq<Positive>, c: Hunk)
    requires SoundPatch(patch)
    requires c in Numbered(AllCandidates(ParsedHunks(patch), regions))
    requires exists l :: l in HunkBody(c) && KindOf(l).Added?
    ensures FirstAdded(c) in Commentable(patch)
  {
    CandidatesCover(patch, regions);
    LinesContain(Numbered(AllCandidates(ParsedHunks(patch), regions)), c);
    var body := HunkBody(c);
    var i := FirstAddedIndex(body);
    if i < |body| { NewCountPrefix(body, i); }
  }

  // ----- the candidates are the same change -----

  lemma {:induction false} NumberedEdits(hunks: seq<Hunk>)
    ensures EditsOf(Numbered(hunks)) == EditsOf(hunks)
  {
    if hunks != [] {
      var n := |hunks| - 1;
      NumberedEdits(hunks[..n]);
      assert Numbered(hunks)[..n] == Numbered(hunks[..n]);
      assert EditOf(Numbered(hunks)[n]) == EditOf(hunks[n]);
    }
  }

  lemma {:induction false} CandidatesApplyBefore(old': seq<Line>, hunks: seq<Hunk>, after: seq<Hunk>,
          regions: string -> seq<Positive>)
    requires AllSound(hunks)
    ensures Apply(old', AllCandidates(hunks, regions) + after) == Apply(old', hunks + after)
    decreases |hunks|
  {
    if hunks != [] {
      hide Consistent, Apply, CandidatesOf, StartsFromOne, HunkHeader;
      var init, h := hunks[..|hunks| - 1], hunks[|hunks| - 1];
      assert h in hunks && forall k :: k in init ==> k in hunks;
      var before := AllCandidates(init, regions);
      HunkCandidatesApply(old', before, h, after, regions);
      Assoc(before, [h], after);
      CandidatesApplyBefore(old', init, [h] + after, regions);
      LastSplit(hunks);
      Assoc(init, [h], after);
    } else {
      assert AllCandidates(hunks, regions) == hunks;
    }
  }

  lemma HunkCandidatesApply(old': seq<Line>, before: seq<Hunk>, h: Hunk, after: seq<Hunk>,
                            regions: string -> seq<Positive>)
    requires Consistent(h) && StartsFromOne(HunkHeader(h))
    ensures Apply(old', before + CandidatesOf(h, regions) + after) == Apply(old', before + [h] + after)
  {
    SplitApplies(old', before, h, after, RegionCuts(h, regions));
    hide SplitPieces, Apply, HunkBody, RegionCuts, NewCount, Consistent, StartsFromOne;
  }

  /** Applying the candidates to a file gives what applying the patch gives. */
  lemma CandidatesApply(old': seq<Line>, patch: string, regions: string -> seq<Positive>)
    requires SoundPatch(patch)
    ensures Apply(old', Numbered(AllCandidates(ParsedHunks(patch), regions))) == Apply(old', ParsedHunks(patch))
  {
    var hunks := ParsedHunks(patch);
    var candidates := AllCandidates(hunks, regions);
    CandidatesApplyBefore(old', hunks, [], regions);
    assert candidates + [] == candidates && hunks + [] == hunks;
    NumberedEdits(candidates);
  }
}
