/**
 * Which lines a review comment can target (src/domain/github_review.rs:141-158) and where the evidence
 * candidates of a hunk start (src/review/judgments.rs:278-308), line by line.
 */
module CandidateLaws {
  import opened Text
  import opened Patch
  import opened HunkSplit
  import opened SplitLaws
  import opened Candidates

  // ----- the new side of a hunk -----

  /** An added or a context line. */
  predicate IsNew(line: string) { line != "" && (line[0] == '+' || line[0] == ' ') }

  lemma {:induction false} LinesBefore(body: seq<string>, x: nat)
    ensures x < NewCount(body) <==> exists j :: 0 <= j < |body| && IsNew(body[j]) && x == NewCount(body[..j])
  {
    if body != [] {
      var n := |body| - 1;
      var init, last := body[..n], body[n];
      LinesBefore(init, x);
      hide IsNew;
      assert NewCount(body) == NewCount(init) + if IsNew(last) then 1 else 0 by {
        assert IsNew(last) <==> IsKept(last);
      }
      assert forall j :: 0 <= j < n ==> init[j] == body[j] && init[..j] == body[..j];
      if j :| 0 <= j < n && IsNew(init[j]) && x == NewCount(init[..j]) {
        assert IsNew(body[j]) && x == NewCount(body[..j]);
      }
      if j :| 0 <= j <= n && IsNew(body[j]) && x == NewCount(body[..j]) {
        if j < n { assert IsNew(init[j]) && x == NewCount(init[..j]); }
      }
    }
  }

  /** The line of the new file that body line `j` of a hunk is. */
  predicate IsLine(h: Hunk, j: nat, x: nat) {
    j < |HunkBody(h)| && IsNew(HunkBody(h)[j]) && x == h.startLine + NewCount(HunkBody(h)[..j])
  }

  lemma NewLinesExactly(h: Hunk, x: nat)
    ensures x in NewLines(h) <==> exists j :: IsLine(h, j, x)
  {
    hide HunkBody, NewCount, IsNew;
    var body := HunkBody(h);
    if x >= h.startLine {
      var y: nat := x - h.startLine;
      LinesBefore(body, y);
      if j :| 0 <= j < |body| && IsNew(body[j]) && y == NewCount(body[..j]) { assert IsLine(h, j, x); }
      if j: nat :| IsLine(h, j, x) { assert j < |body| && IsNew(body[j]) && y == NewCount(body[..j]); }
    }
  }

  lemma {:induction false} LinesOfExactly(hunks: seq<Hunk>, x: nat)
    ensures x in LinesOf(hunks) <==> exists h :: h in hunks && x in NewLines(h)
  {
    hide NewLines;
    if hunks != [] { LinesOfExactly(hunks[..|hunks| - 1], x); }
  }

  /** A comment can target exactly the lines that the added and context lines of the hunks are. */
  lemma CommentableExactly(patch: string, x: nat)
    ensures x in Commentable(patch) <==> exists h, j :: h in ParsedHunks(patch) && IsLine(h, j, x)
  {
    hide NewLines, ParsedHunks, IsLine, LinesOf;
    LinesOfExactly(ParsedHunks(patch), x);
    forall h ensures x in NewLines(h) <==> exists j :: IsLine(h, j, x) { NewLinesExactly(h, x); }
  }

  /** The text whose regions are asked for is that of the added and context lines, without their first character. */
  lemma {:induction false} NewSideExactly(body: seq<string>, j: nat)
    requires j < |body| && IsNew(body[j])
    ensures |NewSide(body)| == NewCount(body) > NewCount(body[..j])
    ensures NewSide(body)[NewCount(body[..j])] == body[j][1..]
    decreases |body|
  {
    LinesBefore(body, NewCount(body[..j]));
    var n := |body| - 1;
    if j < n {
      NewSideExactly(body[..n], j);
      assert body[..n][..j] == body[..j];
    }
  }

  predicate IsAdded(line: string) { line != "" && line[0] == '+' }

  lemma FirstAddedIs(h: Hunk, j: nat)
    requires j <= |HunkBody(h)| && forall i :: 0 <= i < j ==> !IsAdded(HunkBody(h)[i])
    requires j < |HunkBody(h)| ==> IsAdded(HunkBody(h)[j])
    ensures FirstAddedIndex(HunkBody(h)) == j
  {
    hide HunkBody;
    forall l ensures IsAdded(l) <==> KindOf(l).Added? {}
    hide KindOf, IsAdded;
    FirstAddedIndexIs(HunkBody(h), j);
  }

  /** A hunk anchors on the line of the new file that its first added line is. */
  lemma AnchorsOnAdded(h: Hunk, j: nat)
    requires j < |HunkBody(h)| && IsAdded(HunkBody(h)[j]) && forall i :: 0 <= i < j ==> !IsAdded(HunkBody(h)[i])
    ensures IsLine(h, j, FirstAdded(h))
  {
    FirstAddedIs(h, j);
    hide HunkBody, NewCount, FirstAddedIndex;
  }

  /** It anchors on its start when nothing is added. */
  lemma AnchorsOnStart(h: Hunk)
    requires forall l :: l in HunkBody(h) ==> !IsAdded(l)
    ensures FirstAdded(h) == h.startLine
  {
    FirstAddedIs(h, |HunkBody(h)|);
    hide HunkBody, NewCount, FirstAddedIndex;
  }

  // ----- where candidates start -----

  /** Where region `i` of a hunk's new side begins, as a line of the new file; regions count lines from 1. */
  function RegionLine(h: Hunk, regions: string -> seq<Positive>, i: nat): nat
    requires i < |regions(Join(NewSide(HunkBody(h)), '\n'))|
  {
    h.startLine + regions(Join(NewSide(HunkBody(h)), '\n'))[i] - 1
  }

  /** Some region after the first begins at `x`. */
  predicate IsRegion(h: Hunk, regions: string -> seq<Positive>, x: nat) {
    exists i :: 1 <= i < |regions(Join(NewSide(HunkBody(h)), '\n'))| && x == RegionLine(h, regions, i)
  }

  lemma CutsAre(h: Hunk, regions: string -> seq<Positive>, x: nat)
    ensures x in RegionCuts(h, regions) <==> IsRegion(h, regions, x)
  {
    hide HunkBody, NewSide, Join;
    var starts := regions(Join(NewSide(HunkBody(h)), '\n'));
    if x in RegionCuts(h, regions) {
      var i :| 1 <= i < |starts| && x == h.startLine + starts[i] - 1;
      assert x == RegionLine(h, regions, i);
    }
  }

  /** A hunk of up to eighty new lines is a candidate as it is. */
  lemma SmallHunkStays(h: Hunk, regions: string -> seq<Positive>)
    requires NewCount(HunkBody(h)) <= 80
    ensures CandidatesOf(h, regions) == [h] && !CannotSplit(h, regions)
  {
  }

  /** With a later region inside the new lines, the starts are the first of those and all such regions. */
  ghost predicate StartAtRegions(h: Hunk, regions: string -> seq<Positive>, pieces: seq<Hunk>, first: nat, count: nat) {
    if exists x: nat :: IsRegion(h, regions, x) && first < x < first + count then
      && Increasing(StartLines(pieces))
      && forall x: nat :: x in StartLines(pieces) <==>
           x == first || (IsRegion(h, regions, x) && first < x < first + count)
    else pieces == [h]
  }

  /**
   * The candidates of a larger one start at its first new line and at the beginning of every later
   * region inside it, in order; with no such region it is a candidate as it is.
   */
  lemma LargeHunkStarts(h: Hunk, regions: string -> seq<Positive>, r: Ranges)
    requires Fits(h) && HunkRanges(HunkHeader(h)) == Some(r) && NewCount(HunkBody(h)) > 80
    ensures !CannotSplit(h, regions)
    ensures StartAtRegions(h, regions, CandidatesOf(h, regions), First(r.newStart, r.newLen), NewCount(HunkBody(h)))
  {
    var cuts := RegionCuts(h, regions);
    StartsFromOneSplits(h, cuts);
    PieceStarts(h, cuts);
    OnePieceIsHunk(h, cuts);
    hide HunkBody, HunkHeader, HunkRanges, NewCount, SplitPieces, IsRegion, RegionCuts, Underflows, Increasing;
    forall x ensures x in cuts <==> IsRegion(h, regions, x) { CutsAre(h, regions, x); }
  }

  lemma OnePieceIsHunk(h: Hunk, cuts: set<nat>)
    ensures |SplitPieces(h, cuts)| == 1 ==> SplitPieces(h, cuts) == [h]
  {
    hide HunkBody, HunkHeader, HunkRanges, SplitBodies;
  }
}
