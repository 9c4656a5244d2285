/**
 * Which lines the pieces of a split hunk hold, and when `split_hunk` (src/domain/patch.rs:128-212) has no
 * pieces to print, in terms of the lines themselves.
 */
module PieceLaws {
  import opened Text
  import opened Patch
  import opened HunkSplit
  import opened SplitLaws

  predicate StartsWith(line: string, c: char) { line != "" && line[0] == c }

  /** The last line that is not a no-newline marker is an added or a context line. */
  predicate EndsKept(lines: seq<string>) {
    lines != [] &&
    if StartsWith(lines[|lines| - 1], '\\') then EndsKept(lines[..|lines| - 1])
    else StartsWith(lines[|lines| - 1], '+') || StartsWith(lines[|lines| - 1], ' ')
  }

  lemma EndsKeptSnoc(lines: seq<string>, line: string)
    ensures EndsKept(lines + [line]) <==>
      if StartsWith(line, '\\') then EndsKept(lines) else StartsWith(line, '+') || StartsWith(line, ' ')
  {
    assert (lines + [line])[..|lines|] == lines;
  }

  lemma {:induction false} EndsKeptAfter(before: seq<string>, lines: seq<string>)
    requires EndsKept(lines)
    ensures EndsKept(before + lines)
    decreases |lines|
  {
    var init, last := lines[..|lines| - 1], lines[|lines| - 1];
    if StartsWith(last, '\\') { EndsKeptAfter(before, init); }
    EndsKeptSnoc(before + init, last);
    assert before + lines == before + init + [last];
  }

  predicate AllEndKept(units: seq<seq<string>>) { forall u :: u in units ==> EndsKept(u) }

  lemma AddLineEndsKept(u: Units, line: string)
    requires AllEndKept(u.units)
    ensures AllEndKept(AddLine(u, line).units)
  {
    EndsKeptSnoc(u.tail, line);
    if u.units != [] { EndsKeptSnoc(u.units[|u.units| - 1], line); }
    hide EndsKept;
    if u.units != [] { assert u.units[|u.units| - 1] in u.units; }
  }

  lemma {:induction false} UnitsEndKept(body: seq<string>)
    ensures AllEndKept(UnitsOf(body).units)
  {
    hide AllEndKept, AddLine;
    if body != [] {
      UnitsEndKept(body[..|body| - 1]);
      AddLineEndsKept(UnitsOf(body[..|body| - 1]), body[|body| - 1]);
    } else {
      NoneEndKept();
    }
  }

  lemma NoneEndKept()
    ensures AllEndKept([])
  {
  }

  predicate GroupsEndKept(groups: seq<seq<seq<string>>>) { forall g :: g in groups ==> g != [] && AllEndKept(g) }

  lemma AddUnitEndsKept(groups: seq<seq<seq<string>>>, u: seq<string>, starts: bool)
    requires GroupsEndKept(groups) && EndsKept(u)
    ensures GroupsEndKept(AddUnit(groups, u, starts))
  {
    hide EndsKept;
    if groups != [] { assert groups[|groups| - 1] in groups; }
  }

  lemma {:induction false} GroupedEndKept(units: seq<seq<string>>, newFirst: nat, cuts: set<nat>)
    requires AllEndKept(units)
    ensures GroupsEndKept(Grouped(units, newFirst, cuts))
  {
    if units != [] {
      var n := |units| - 1;
      assert units[n] in units;
      hide EndsKept;
      GroupedEndKept(units[..n], newFirst, cuts);
      hide GroupsEndKept;
      AddUnitEndsKept(Grouped(units[..n], newFirst, cuts), units[n], newFirst + n in cuts);
    }
  }

  lemma FlatEndsKept(group: seq<seq<string>>)
    requires group != [] && AllEndKept(group)
    ensures EndsKept(Flat(group))
  {
    var n := |group| - 1;
    assert group[n] in group;
    EndsKeptAfter(Flat(group[..n]), group[n]);
  }

  /**
   * Removed lines stay with the lines that follow them: every piece but the last ends in an added or a
   * context line and the markers after it.
   */
  lemma RemovalsStay(body: seq<string>, newFirst: nat, cuts: set<nat>, i: nat)
    requires i < |SplitBodies(body, newFirst, cuts)| - 1
    ensures EndsKept(SplitBodies(body, newFirst, cuts)[i])
  {
    var u := UnitsOf(body);
    UnitsEndKept(body);
    GroupedEndKept(u.units, newFirst, cuts);
    hide UnitsOf, EndsKept, Grouped, AllEndKept, Flat;
    var groups := Grouped(u.units, newFirst, cuts);
    assert groups[i] in groups;
    FlatEndsKept(groups[i]);
  }

  // ----- when nothing can be printed -----

  lemma {:induction false} NoOldLines(lines: seq<string>)
    ensures OldCount(lines) == 0 <==> forall l :: l in lines ==> !StartsWith(l, '-') && !StartsWith(l, ' ')
  {
    if lines != [] {
      var init, last := lines[..|lines| - 1], lines[|lines| - 1];
      NoOldLines(init);
      assert lines == init + [last];
      assert IsOldSide(last) <==> StartsWith(last, '-') || StartsWith(last, ' ');
      hide IsOldSide, StartsWith;
    }
  }

  /**
   * Nothing can be printed exactly when the header puts a nonempty old range at line 0, some cut lies
   * inside the new range, and the first piece holds no removed or context line.
   */
  lemma UnderflowsExactly(h: Hunk, cuts: set<nat>)
    ensures Underflows(h, cuts) <==>
      HunkRanges(HunkHeader(h)).Some? &&
      (var r := HunkRanges(HunkHeader(h)).value;
       var n, count := First(r.newStart, r.newLen), NewCount(HunkBody(h));
       && r.oldStart == 0 && r.oldLen > 0
       && (exists c :: c in cuts && n < c < n + count)
       && forall l :: l in SplitBodies(HunkBody(h), n, cuts)[0] ==> !StartsWith(l, '-') && !StartsWith(l, ' '))
  {
    hide HunkRanges, HunkHeader, HunkBody, SplitBodies, OldCount, NewCount, StartAtCuts;
    match HunkRanges(HunkHeader(h))
    case None =>
    case Some(r) =>
      var n, body := First(r.newStart, r.newLen), HunkBody(h);
      var bodies := SplitBodies(body, n, cuts);
      NoOldLines(bodies[0]);
      if NewCount(body) == 0 {
        NoNewLineNoSplit(body, n, cuts);
      } else {
        BodyStarts(body, n, cuts);
        OneStart(BodyStartLines(bodies, n), n, NewCount(body), cuts);
      }
  }
}
