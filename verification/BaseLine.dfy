/** Mapping a new-file line to a base line (`base_line`, src/domain/patch.rs). */
module BaseLines {
  import opened Text
  import opened Patch
  import opened HunkSplit
  import opened HunkApply
  import opened Reparse

  /** The ranges of the headers that can be read, in order. */
  function ReadRanges(lines: seq<string>): seq<Ranges> {
    if lines == [] then []
    else
      var before, line := ReadRanges(lines[..|lines| - 1]), lines[|lines| - 1];
      if IsHeader(line) && HunkRanges(line).Some? then before + [HunkRanges(line).value] else before
  }

  function AtLeastOne(line: int): nat { if line < 1 then 1 else line }

  predicate IsBefore(r: Ranges, line: nat) { if r.newLen == 0 then line <= r.newStart else line < r.newStart }

  function Inside(r: Ranges, line: nat): nat
    requires !IsBefore(r, line)
  {
    if r.oldLen == 0 then AtLeastOne(r.oldStart)
    else
      var mapped, last := r.oldStart + (line - r.newStart), r.oldStart + r.oldLen - 1;
      if mapped <= last then mapped else last
  }

  /** Old-minus-new shift of the lines after a range. */
  function ShiftAfter(r: Ranges): int {
    (if r.oldLen == 0 then r.oldStart + 1 else r.oldStart + r.oldLen)
    - (if r.newLen == 0 then r.newStart + 1 else r.newStart + r.newLen)
  }

  function MapLine(ranges: seq<Ranges>, line: nat, shift: int): nat {
    if ranges == [] || IsBefore(ranges[0], line) then AtLeastOne(line + shift)
    else if line < ranges[0].newStart + ranges[0].newLen then Inside(ranges[0], line)
    else MapLine(ranges[1..], line, ShiftAfter(ranges[0]))
  }

  method BaseLine(patch: string, newLine: nat) returns (line: nat)
    ensures line == MapLine(ReadRanges(Lines(patch)), newLine, 0)
  {
    hide HunkRanges, IsHeader, Lines, Inside, ShiftAfter, AtLeastOne, IsBefore;
    var shift := 0;
    var lines := Lines(patch);
    ghost var ranges := ReadRanges(lines);
    ghost var seen := 0;
    for i := 0 to |lines|
      invariant seen == |ReadRanges(lines[..i])| <= |ranges|
      invariant ranges[..seen] == ReadRanges(lines[..i])
      invariant MapLine(ranges, newLine, 0) == MapLine(ranges[seen..], newLine, shift)
    {
      ReadRangesPrefix(lines, i);
      ReadRangesNext(lines, i);
      if IsHeader(lines[i]) {
        var r := HunkRanges(lines[i]);
        if r.Some? {
          assert ranges[seen..] == [r.value] + ranges[seen + 1..];
          if IsBefore(r.value, newLine) { return AtLeastOne(newLine + shift); }
          if newLine < r.value.newStart + r.value.newLen { return Inside(r.value, newLine); }
          shift := ShiftAfter(r.value);
          seen := seen + 1;
        }
      }
    }
    assert lines[..|lines|] == lines;
    return AtLeastOne(newLine + shift);
  }

  lemma ReadRangesNext(lines: seq<string>, i: nat)
    requires i < |lines|
    ensures ReadRanges(lines[..i + 1]) == ReadRanges(lines[..i])
      + if IsHeader(lines[i]) && HunkRanges(lines[i]).Some? then [HunkRanges(lines[i]).value] else []
  {
    hide HunkRanges, IsHeader;
    assert lines[..i + 1][..i] == lines[..i];
  }

  lemma {:induction false} ReadRangesPrefix(lines: seq<string>, i: nat)
    requires i < |lines|
    ensures ReadRanges(lines[..i + 1]) <= ReadRanges(lines)
    decreases |lines|
  {
    hide HunkRanges, IsHeader;
    var n := |lines| - 1;
    if i == n {
      assert lines[..i + 1] == lines;
    } else {
      ReadRangesPrefix(lines[..n], i);
      assert lines[..n][..i + 1] == lines[..i + 1];
    }
  }

  // ----- against the files the hunks relate -----

  /** The ranges name the lines an edit replaces. */
  ghost predicate Names(r: Ranges, e: Edit) {
    && e.oldAt + 1 == First(r.oldStart, r.oldLen) && |e.before| == r.oldLen
    && e.newAt + 1 == First(r.newStart, r.newLen) && |e.after| == r.newLen
  }

  ghost predicate NameAll(ranges: seq<Ranges>, edits: seq<Edit>) {
    |ranges| == |edits| && forall i :: 0 <= i < |edits| ==> Names(ranges[i], edits[i])
  }

  predicate InHunk(r: Ranges, line: nat) { r.newStart <= line < r.newStart + r.newLen }

  /**
   * Inside a hunk: as far into the old range as the line is into the new one, at most its last line;
   * the line before the hunk, if there is one, when the old range is empty.
   */
  predicate LandsIn(r: Ranges, line: nat, base: nat)
    requires InHunk(r, line)
  {
    if r.oldLen == 0 then base == (if r.oldStart == 0 then 1 else r.oldStart)
    else if line - r.newStart < r.oldLen then base - r.oldStart == line - r.newStart
    else base == r.oldStart + r.oldLen - 1
  }

  /** What `base_line` promises of one new line of files that the hunks relate. */
  ghost predicate MapsWell(old': seq<Line>, oldAt: nat, newAt: nat, ranges: seq<Ranges>, rest: seq<Line>, line: nat,
                           base: nat)
    requires newAt < line <= newAt + |rest|
  {
    && ((forall i :: 0 <= i < |ranges| ==> !InHunk(ranges[i], line)) ==>
          oldAt < base <= |old'| && rest[line - 1 - newAt] == old'[base - 1])
    && (forall i :: 0 <= i < |ranges| && InHunk(ranges[i], line) ==>
          LandsIn(ranges[i], line, base))
  }

  /** Ranges of later edits lie after the edits before them. */
  lemma {:induction false} LaterRanges(old': seq<Line>, oldAt: nat, newAt: nat, ranges: seq<Ranges>, edits: seq<Edit>)
    requires NameAll(ranges, edits) && ApplyFrom(old', oldAt, newAt, edits).Some?
    ensures forall i, line :: 0 <= i < |ranges| && InHunk(ranges[i], line) ==> newAt < line
    decreases edits
  {
    if edits != [] {
      var e := edits[0];
      assert Names(ranges[0], e);
      forall i | 0 <= i < |edits| - 1 ensures Names(ranges[1..][i], edits[1..][i]) {
        assert Names(ranges[i + 1], edits[i + 1]);
      }
      LaterRanges(old', e.oldAt + |e.before|, e.newAt + |e.after|, ranges[1..], edits[1..]);
      forall i, line | 0 <= i < |ranges| && InHunk(ranges[i], line) ensures newAt < line {
        if i > 0 { assert ranges[i] == ranges[1..][i - 1]; }
      }
    }
  }

  lemma NameTail(ranges: seq<Ranges>, edits: seq<Edit>)
    requires NameAll(ranges, edits) && edits != []
    ensures |ranges| == |edits| && Names(ranges[0], edits[0]) && NameAll(ranges[1..], edits[1..])
  {
    forall i | 0 <= i < |edits| - 1 ensures Names(ranges[1..][i], edits[1..][i]) {
      assert Names(ranges[i + 1], edits[i + 1]);
    }
  }

  /** A line after the first edit maps as the rest of the hunks map it. */
  lemma MapsWellAfter(old': seq<Line>, oldAt: nat, newAt: nat, r: Ranges, e: Edit, ranges: seq<Ranges>,
                      after: seq<Line>, rest: seq<Line>, line: nat, base: nat)
    requires Names(r, e) && oldAt <= e.oldAt && newAt <= e.newAt
    requires ranges != [] && ranges[0] == r
    requires e.newAt + |e.after| < line <= e.newAt + |e.after| + |after|
    requires newAt < line <= newAt + |rest| && rest[line - 1 - newAt] == after[line - 1 - e.newAt - |e.after|]
    requires MapsWell(old', e.oldAt + |e.before|, e.newAt + |e.after|, ranges[1..], after, line, base)
    ensures MapsWell(old', oldAt, newAt, ranges, rest, line, base)
  {
    assert !InHunk(r, line);
    forall i | 0 <= i < |ranges| && InHunk(ranges[i], line) ensures i > 0 && InHunk(ranges[1..][i - 1], line) {
    }
    if forall i :: 0 <= i < |ranges| ==> !InHunk(ranges[i], line) {
      assert forall i :: 0 <= i < |ranges[1..]| ==> !InHunk(ranges[1..][i], line);
    }
  }

  /** A line before the first edit, or one it adds, maps as the edit's own ranges say. */
  lemma MapsWellAt(old': seq<Line>, oldAt: nat, newAt: nat, r: Ranges, e: Edit, ranges: seq<Ranges>, after: seq<Line>,
                   rest: seq<Line>, line: nat)
    requires Names(r, e) && Matches(old', oldAt, newAt, e)
    requires ranges != [] && ranges[0] == r
    requires rest == old'[oldAt..e.oldAt] + e.after + after
    requires newAt < line <= e.newAt + |e.after|
    requires forall i :: 0 < i < |ranges| ==> !InHunk(ranges[i], line)
    ensures MapsWell(old', oldAt, newAt, ranges, rest, line, MapLine(ranges, line, oldAt - newAt))
  {
    if line <= e.newAt {
      assert rest[line - 1 - newAt] == old'[oldAt..e.oldAt][line - 1 - newAt];
    } else {
      assert InHunk(ranges[0], line);
    }
  }

  lemma NameNothing(ranges: seq<Ranges>)
    requires NameAll(ranges, [])
    ensures ranges == []
  {
  }

  lemma MapsWithoutEdits(old': seq<Line>, oldAt: nat, newAt: nat, rest: seq<Line>, line: nat)
    requires ApplyFrom(old', oldAt, newAt, []) == Some(rest) && newAt < line <= newAt + |rest|
    ensures MapsWell(old', oldAt, newAt, [], rest, line, MapLine([], line, oldAt - newAt))
  {
  }

  /** Past the first hunk the shift is that after it. */
  lemma MapLineAfter(ranges: seq<Ranges>, e: Edit, line: nat, shift: int)
    requires ranges != [] && Names(ranges[0], e) && line > e.newAt + |e.after|
    ensures MapLine(ranges, line, shift)
         == MapLine(ranges[1..], line, e.oldAt + |e.before| - (e.newAt + |e.after|))
  {
  }

  lemma IndexAfter<T>(a: seq<T>, b: seq<T>, i: nat)
    requires |a| <= i < |a + b|
    ensures (a + b)[i] == b[i - |a|]
  {
  }

  /** A line at or before the first edit's end lies in no later hunk. */
  lemma NotLater(old': seq<Line>, oldNext: nat, newNext: nat, ranges: seq<Ranges>, edits: seq<Edit>, line: nat)
    requires ranges != [] && edits != [] && NameAll(ranges[1..], edits[1..]) && line <= newNext
    requires ApplyFrom(old', oldNext, newNext, edits[1..]).Some?
    ensures forall i :: 0 < i < |ranges| ==> !InHunk(ranges[i], line)
  {
    hide ApplyFrom, NameAll, InHunk;
    LaterRanges(old', oldNext, newNext, ranges[1..], edits[1..]);
    forall i | 0 < i < |ranges| ensures !InHunk(ranges[i], line) {
      assert ranges[i] == ranges[1..][i - 1];
    }
  }

  /** A line that maps well past the first edit maps well. */
  lemma ExactAfter(old': seq<Line>, oldAt: nat, newAt: nat, ranges: seq<Ranges>, e: Edit, after: seq<Line>, line: nat)
    requires ranges != [] && Names(ranges[0], e) && oldAt <= e.oldAt <= |old'| && newAt <= e.newAt
    requires e.oldAt - oldAt == e.newAt - newAt
    requires e.newAt + |e.after| < line <= e.newAt + |e.after| + |after|
    requires var (o, n) := (e.oldAt + |e.before|, e.newAt + |e.after|);
      MapsWell(old', o, n, ranges[1..], after, line, MapLine(ranges[1..], line, o - n))
    ensures MapsWell(old', oldAt, newAt, ranges, old'[oldAt..e.oldAt] + e.after + after, line,
                     MapLine(ranges, line, oldAt - newAt))
  {
    hide MapsWell, MapLine, Names;
    var front := old'[oldAt..e.oldAt] + e.after;
    MapLineAfter(ranges, e, line, oldAt - newAt);
    IndexAfter(front, after, line - 1 - newAt);
    MapsWellAfter(old', oldAt, newAt, ranges[0], e, ranges, after, front + after, line,
                  MapLine(ranges, line, oldAt - newAt));
  }

  /** A line up to the end of the first edit maps well. */
  lemma ExactAt(old': seq<Line>, oldAt: nat, newAt: nat, ranges: seq<Ranges>, edits: seq<Edit>, rest: seq<Line>,
                line: nat)
    requires NameAll(ranges, edits) && edits != [] && ApplyFrom(old', oldAt, newAt, edits) == Some(rest)
    requires newAt < line <= newAt + |rest| && line <= edits[0].newAt + |edits[0].after|
    ensures MapsWell(old', oldAt, newAt, ranges, rest, line, MapLine(ranges, line, oldAt - newAt))
  {
    assert |ranges| == |edits|;
    hide NameAll, MapsWell, ApplyFrom, Matches, MapLine, Names, InHunk;
    var e := edits[0];
    NameTail(ranges, edits);
    ApplyFirst(old', oldAt, newAt, edits, rest);
    var oldNext, newNext := e.oldAt + |e.before|, e.newAt + |e.after|;
    NotLater(old', oldNext, newNext, ranges, edits, line);
    var after := ApplyFrom(old', oldNext, newNext, edits[1..]).value;
    MapsWellAt(old', oldAt, newAt, ranges[0], e, ranges, after, rest, line);
  }

  /** Before, at and after the first edit. */
  lemma {:induction false} MapLineIsExact(old': seq<Line>, oldAt: nat, newAt: nat, ranges: seq<Ranges>,
                                          edits: seq<Edit>, rest: seq<Line>, line: nat)
    requires NameAll(ranges, edits) && ApplyFrom(old', oldAt, newAt, edits) == Some(rest)
    requires newAt < line <= newAt + |rest|
    ensures MapsWell(old', oldAt, newAt, ranges, rest, line, MapLine(ranges, line, oldAt - newAt))
    decreases edits
  {
    hide NameAll, MapsWell, ApplyFrom, MapLine;
    if edits == [] {
      NameNothing(ranges);
      MapsWithoutEdits(old', oldAt, newAt, rest, line);
    } else {
      var e := edits[0];
      ApplyFirst(old', oldAt, newAt, edits, rest);
      if line > e.newAt + |e.after| {
        var oldNext, newNext := e.oldAt + |e.before|, e.newAt + |e.after|;
        var after := ApplyFrom(old', oldNext, newNext, edits[1..]).value;
        NameTail(ranges, edits);
        hide Matches, Names, InHunk;
        MapLineIsExact(old', oldNext, newNext, ranges[1..], edits[1..], after, line);
        ExactAfter(old', oldAt, newAt, ranges, e, after, line);
      } else {
        ExactAt(old', oldAt, newAt, ranges, edits, rest, line);
      }
    }
  }

  /** Lines after an edit map no lower than the line that ends it. */
  lemma {:induction false} MapLineAtLeast(old': seq<Line>, oldAt: nat, newAt: nat, ranges: seq<Ranges>,
                                          edits: seq<Edit>, line: nat)
    requires NameAll(ranges, edits) && ApplyFrom(old', oldAt, newAt, edits).Some? && line > newAt
    ensures MapLine(ranges, line, oldAt - newAt) >= AtLeastOne(oldAt)
    decreases edits
  {
    if edits != [] {
      var e := edits[0];
      NameTail(ranges, edits);
      assert ShiftAfter(ranges[0]) == e.oldAt + |e.before| - (e.newAt + |e.after|);
      hide NameAll;
      if line > e.newAt + |e.after| {
        MapLineAtLeast(old', e.oldAt + |e.before|, e.newAt + |e.after|, ranges[1..], edits[1..], line);
      }
    }
  }

  /** Later new lines never map to earlier base lines. */
  lemma {:induction false} MapLineIsMonotone(old': seq<Line>, oldAt: nat, newAt: nat, ranges: seq<Ranges>,
                                             edits: seq<Edit>, line: nat, later: nat)
    requires NameAll(ranges, edits) && ApplyFrom(old', oldAt, newAt, edits).Some? && newAt < line <= later
    ensures MapLine(ranges, line, oldAt - newAt) <= MapLine(ranges, later, oldAt - newAt)
    decreases edits
  {
    if edits != [] {
      var e := edits[0];
      var oldNext, newNext := e.oldAt + |e.before|, e.newAt + |e.after|;
      NameTail(ranges, edits);
      assert ShiftAfter(ranges[0]) == oldNext - newNext;
      assert ApplyFrom(old', oldNext, newNext, edits[1..]).Some?;
      hide NameAll, ApplyFrom;
      if line > newNext {
        MapLineIsMonotone(old', oldNext, newNext, ranges[1..], edits[1..], line, later);
      } else if later > newNext {
        MapLineAtLeast(old', oldNext, newNext, ranges[1..], edits[1..], later);
      }
    }
  }

  // ----- the headers `base_line` reads are the headers of the parsed hunks -----

  /** The ranges of hunks whose headers can all be read. */
  function RangesOf(hunks: seq<Hunk>): (ranges: seq<Ranges>)
    requires EditsOf(hunks).Some?
    ensures |ranges| == |hunks|
  {
    if hunks == [] then []
    else RangesOf(hunks[..|hunks| - 1]) + [HunkRanges(HunkHeader(hunks[|hunks| - 1])).value]
  }

  lemma EditRead(h: Hunk)
    requires EditOf(h).Some?
    ensures HunkRanges(HunkHeader(h)).Some?
  {
  }

  lemma EditsInit(hunks: seq<Hunk>)
    requires EditsOf(hunks).Some? && |hunks| > 0
    ensures EditsOf(hunks[..|hunks| - 1]).Some?
    ensures EditOf(hunks[|hunks| - 1]).Some? && HunkRanges(HunkHeader(hunks[|hunks| - 1])).Some?
    ensures EditsOf(hunks).value == EditsOf(hunks[..|hunks| - 1]).value + [EditOf(hunks[|hunks| - 1]).value]
  {
    EditRead(hunks[|hunks| - 1]);
    hide EditOf, HunkRanges, HunkHeader;
  }

  lemma RangesInit(hunks: seq<Hunk>)
    requires EditsOf(hunks).Some? && |hunks| > 0 && EditsOf(hunks[..|hunks| - 1]).Some?
    requires HunkRanges(HunkHeader(hunks[|hunks| - 1])).Some?
    ensures RangesOf(hunks) == RangesOf(hunks[..|hunks| - 1]) + [HunkRanges(HunkHeader(hunks[|hunks| - 1])).value]
  {
    hide EditsOf, HunkRanges, HunkHeader;
  }

  lemma EditIsNamed(h: Hunk)
    requires EditOf(h).Some? && HunkRanges(HunkHeader(h)).Some?
    ensures Names(HunkRanges(HunkHeader(h)).value, EditOf(h).value)
  {
    hide HunkRanges, HunkHeader;
  }

  lemma {:induction false} RangesNameEdits(hunks: seq<Hunk>)
    requires EditsOf(hunks).Some?
    ensures NameAll(RangesOf(hunks), EditsOf(hunks).value)
  {
    assert hunks == [] ==> EditsOf(hunks) == Some([]);
    hide HunkRanges, HunkHeader, EditsOf, RangesOf, Names;
    if hunks != [] {
      var init, last := hunks[..|hunks| - 1], hunks[|hunks| - 1];
      EditsInit(hunks);
      RangesInit(hunks);
      RangesNameEdits(init);
      EditIsNamed(last);
    }
  }

  lemma {:induction false} SplitLastChar(s: string, sep: char, c: char)
    requires c != sep
    ensures Split(s + [c], sep) == LastExtended(Split(s, sep), c)
  {
    if s == "" {
      assert s + [c] == [c] && [c][1..] == "";
      assert [c] + "" == "" + [c];
    } else {
      SplitLastChar(s[1..], sep, c);
      assert (s + [c])[1..] == s[1..] + [c];
      ExtendedCons(Split(s[1..], sep), s[0], c);
      hide LastExtended;
    }
  }

  lemma ExtendedCons(rest: seq<string>, first: char, c: char)
    requires rest != []
    ensures [""] + LastExtended(rest, c) == LastExtended([""] + rest, c)
    ensures [[first] + LastExtended(rest, c)[0]] + LastExtended(rest, c)[1..] ==
      LastExtended([[first] + rest[0]] + rest[1..], c)
  {
    Assoc([first], rest[0], [c]);
    if |rest| == 1 {
      assert LastExtended(rest, c) == [rest[0] + [c]];
    } else {
      assert LastExtended(rest, c)[0] == rest[0];
    }
  }

  function LastExtended(parts: seq<string>, c: char): seq<string>
    requires parts != []
  {
    parts[..|parts| - 1] + [parts[|parts| - 1] + [c]]
  }

  lemma BeginsWith(s: string, c: char)
    ensures [c] <= s <==> s != "" && s[0] == c
  {
    if s != "" { assert s[..1] == [s[0]]; }
  }

  lemma {:induction false} FirstTokenWithCr(tokens: seq<string>, prefix: char)
    requires tokens != [] && prefix != '\r'
    ensures var token, longer := FirstWithPrefix(tokens, prefix), FirstWithPrefix(LastExtended(tokens, '\r'), prefix);
      token.Some? == longer.Some? && (token.Some? ==> longer == token || longer.value == token.value + ['\r'])
  {
    if |tokens| > 1 {
      var longer := LastExtended(tokens, '\r');
      assert longer[1..] == LastExtended(tokens[1..], '\r') && longer[0] == tokens[0];
      FirstTokenWithCr(tokens[1..], prefix);
    } else {
      var longer := LastExtended(tokens, '\r');
      assert longer == [tokens[0] + ['\r']] && longer[1..] == [] && tokens[1..] == [];
      BeginsWith(tokens[0], prefix);
      BeginsWith(longer[0], prefix);
    }
  }

  lemma CrIsNoNumber(s: string)
    ensures ParseUsize(s + ['\r']).None?
  {
    var t := s + ['\r'];
    var digits := if "+" <= t && |t| > 1 then t[1..] else t;
    assert digits[|digits| - 1] == '\r';
  }

  /** A carriage return after a header that can be read does not change what it says. */
  lemma RangeWithoutCr(header: string, prefix: char)
    requires prefix == '-' || prefix == '+'
    requires RangeOf(header + ['\r'], prefix).Some?
    ensures RangeOf(header, prefix) == RangeOf(header + ['\r'], prefix)
  {
    hide TokenRange;
    SplitLastChar(header, ' ', '\r');
    FirstTokenWithCr(Split(header, ' '), prefix);
    hide Split, LastExtended;
    var token := FirstWithPrefix(Split(header, ' '), prefix).value;
    var longer := FirstWithPrefix(Split(header + ['\r'], ' '), prefix).value;
    if longer != token {
      assert longer[1..] == token[1..] + ['\r'];
      TokenWithoutCr(token[1..]);
    }
  }

  lemma TokenWithoutCr(token: string)
    requires TokenRange(token + ['\r']).Some?
    ensures TokenRange(token) == TokenRange(token + ['\r'])
  {
    var parts := Split(token, ',');
    SplitLastChar(token, ',', '\r');
    CrIsNoNumber(parts[|parts| - 1]);
    hide Split, ParseUsize;
  }

  lemma HeaderWithoutCr(line: string)
    requires IsHeader(line) ==> HunkRanges(line).Some?
    ensures IsHeader(StripCr(line)) == IsHeader(line)
    ensures IsHeader(line) ==> HunkRanges(StripCr(line)) == HunkRanges(line)
  {
    if line != "" && line[|line| - 1] == '\r' {
      LastSplit(line);
      hide RangeOf;
      if IsHeader(line) {
        RangeWithoutCr(StripCr(line), '-');
        RangeWithoutCr(StripCr(line), '+');
      }
    }
  }

  ghost predicate HeadersRead(lines: seq<string>) { forall l :: l in lines && IsHeader(l) ==> HunkRanges(l).Some? }

  lemma {:induction false} ReadRangesSame(a: seq<string>, b: seq<string>)
    requires |a| == |b| && HeadersRead(a) && forall i :: 0 <= i < |a| ==> b[i] == a[i] || b[i] == StripCr(a[i])
    ensures ReadRanges(b) == ReadRanges(a)
  {
    if a != [] {
      var n := |a| - 1;
      hide HunkRanges, IsHeader, StripCr;
      assert forall l :: l in a[..n] ==> l in a;
      ReadRangesSame(a[..n], b[..n]);
      assert a[n] in a;
      HeaderWithoutCr(a[n]);
    }
  }

  lemma ReadRangesOfLines(parts: seq<string>)
    requires |parts| > 0 && HeadersRead(parts)
    ensures ReadRanges(LinesOfParts(parts)) == ReadRanges(parts)
  {
    var n := |parts| - 1;
    hide HunkRanges, StripCr, ReadRanges, HeadersRead;
    var lines := seq(n, i requires 0 <= i < n => StripCr(parts[i]));
    ReadRangesSame(parts, lines + [parts[n]]);
    if parts[n] == "" {
      EmptyLineReadsNothing(lines);
      assert lines + [] == lines;
    }
  }

  lemma EmptyLineReadsNothing(lines: seq<string>)
    ensures ReadRanges(lines + [""]) == ReadRanges(lines)
  {
    DropLast(lines, "");
    hide HunkRanges;
  }

  /** The first lines of the groups. */
  function Heads(groups: seq<seq<string>>): (heads: seq<string>)
    requires forall g :: g in groups ==> |g| > 0
    ensures |heads| == |groups|
  {
    seq(|groups|, i requires 0 <= i < |groups| => groups[i][0])
  }

  function HeaderRanges(heads: seq<string>): seq<Ranges>
    requires AllRead(heads)
  {
    seq(|heads|, i requires 0 <= i < |heads| => HunkRanges(heads[i]).value)
  }

  lemma {:induction false} HeadsAreHeaders(lines: seq<string>)
    ensures forall l :: l in lines && IsHeader(l) ==> l in Heads(Groups(lines))
  {
    if lines != [] {
      hide IsHeader;
      var init, line := lines[..|lines| - 1], lines[|lines| - 1];
      HeadsAreHeaders(init);
      var before := Groups(init);
      LastSplit(lines);
      if IsHeader(line) {
        assert Heads(before + [[line]]) == Heads(before) + [line];
      } else if before != [] {
        assert Heads(Groups(lines)) == Heads(before);
      }
    }
  }

  lemma HeadsSnoc(lines: seq<string>, line: string)
    ensures Heads(Groups(lines + [line])) ==
      if IsHeader(line) then Heads(Groups(lines)) + [line] else Heads(Groups(lines))
  {
    hide IsHeader;
    DropLast(lines, line);
  }

  ghost predicate AllRead(heads: seq<string>) { forall i :: 0 <= i < |heads| ==> HunkRanges(heads[i]).Some? }

  /** Reading the headers of all lines reads the heads of the groups. */
  lemma {:induction false} ReadRangesOfGroups(lines: seq<string>)
    requires AllRead(Heads(Groups(lines)))
    ensures ReadRanges(lines) == HeaderRanges(Heads(Groups(lines)))
  {
    if lines != [] {
      var init, line := lines[..|lines| - 1], lines[|lines| - 1];
      LastSplit(lines);
      HeadsSnoc(init, line);
      hide IsHeader, HunkRanges, Heads, Groups, AllRead, HeaderRanges;
      var heads := Heads(Groups(init));
      if IsHeader(line) { HeaderRangesSnoc(heads, line); }
      ReadRangesOfGroups(init);
    }
  }

  lemma HeaderRangesSnoc(heads: seq<string>, line: string)
    requires AllRead(heads + [line])
    ensures AllRead(heads) && HunkRanges(line).Some?
    ensures HeaderRanges(heads + [line]) == HeaderRanges(heads) + [HunkRanges(line).value]
  {
    hide HunkRanges;
    assert (heads + [line])[|heads|] == line;
    forall i | 0 <= i < |heads| ensures HunkRanges(heads[i]).Some? { assert (heads + [line])[i] == heads[i]; }
  }

  lemma {:induction false} EditsReadAt(hunks: seq<Hunk>, i: nat)
    requires EditsOf(hunks).Some? && i < |hunks|
    ensures HunkRanges(HunkHeader(hunks[i])) == Some(RangesOf(hunks)[i])
  {
    hide EditOf, HunkRanges, HunkHeader, EditsOf, RangesOf;
    EditsInit(hunks);
    RangesInit(hunks);
    var n := |hunks| - 1;
    if i < n { EditsReadAt(hunks[..n], i); }
  }

  lemma EditsRead(hunks: seq<Hunk>)
    requires EditsOf(hunks).Some?
    ensures forall i :: 0 <= i < |hunks| ==> HunkRanges(HunkHeader(hunks[i])) == Some(RangesOf(hunks)[i])
  {
    hide EditsOf, HunkRanges, HunkHeader, RangesOf;
    forall i | 0 <= i < |hunks| ensures HunkRanges(HunkHeader(hunks[i])) == Some(RangesOf(hunks)[i]) {
      EditsReadAt(hunks, i);
    }
  }

  lemma HeadsAreHunkHeaders(patch: string)
    ensures var groups, hunks := Groups(Split(patch, '\n')), ParsedHunks(patch);
      |groups| == |hunks| && forall i :: 0 <= i < |hunks| ==> HunkHeader(hunks[i]) == Heads(groups)[i]
  {
    var groups, hunks := Groups(Split(patch, '\n')), ParsedHunks(patch);
    SplitPartsLackSep(patch, '\n');
    GroupsOfOneLiners(Split(patch, '\n'));
    hide Split, HunkHeader;
    forall i | 0 <= i < |hunks| ensures HunkHeader(hunks[i]) == Heads(groups)[i] {
      GroupHeader(groups, i);
    }
  }

  /** The ranges `base_line` reads are those of the parsed hunks. */
  lemma ReadsHunkRanges(patch: string)
    requires EditsOf(ParsedHunks(patch)).Some?
    ensures ReadRanges(Lines(patch)) == RangesOf(ParsedHunks(patch))
  {
    hide Split, Groups, Heads, ParsedHunks, HunkRanges, HunkHeader, RangesOf, ReadRanges, LinesOfParts, EditsOf,
      IsHeader,
      AllRead, HeaderRanges, HeadersRead;
    var lines, hunks := Split(patch, '\n'), ParsedHunks(patch);
    HeadsAreHunkHeaders(patch);
    HeadsGiveRanges(hunks, Heads(Groups(lines)));
    ReadRangesOfGroups(lines);
    AllHeadersRead(lines);
    ReadRangesOfLines(lines);
  }

  lemma HeadsGiveRanges(hunks: seq<Hunk>, heads: seq<string>)
    requires EditsOf(hunks).Some? && |heads| == |hunks|
    requires forall i :: 0 <= i < |hunks| ==> HunkHeader(hunks[i]) == heads[i]
    ensures AllRead(heads) && HeaderRanges(heads) == RangesOf(hunks)
  {
    EditsRead(hunks);
    hide HunkRanges, HunkHeader, RangesOf, EditsOf;
    forall i | 0 <= i < |heads| ensures HunkRanges(heads[i]) == Some(RangesOf(hunks)[i]) {
      assert HunkRanges(HunkHeader(hunks[i])) == Some(RangesOf(hunks)[i]);
    }
  }

  lemma AllHeadersRead(lines: seq<string>)
    requires AllRead(Heads(Groups(lines)))
    ensures HeadersRead(lines)
  {
    HeadsAreHeaders(lines);
    hide Groups, Heads, HunkRanges, IsHeader;
  }

  // ----- the laws of base_line -----

  /**
   * For any patch that takes `old'` to `new'`: outside every hunk the base line holds the same
   * text; inside a hunk with old lines it is one of those; later lines never map earlier.
   */
  lemma BaseLineIsExact(patch: string, old': seq<Line>, new': seq<Line>, line: nat, later: nat)
    requires Apply(old', ParsedHunks(patch)) == Some(new')
    requires 1 <= line <= |new'| && line <= later
    ensures MapsWell(old', 0, 0, RangesOf(ParsedHunks(patch)), new', line, MapLine(ReadRanges(Lines(patch)), line, 0))
    ensures MapLine(ReadRanges(Lines(patch)), line, 0) <= MapLine(ReadRanges(Lines(patch)), later, 0)
  {
    hide ParsedHunks, RangesOf, ReadRanges, Lines, EditsOf, ApplyFrom, MapLine, NameAll, MapsWell;
    var hunks := ParsedHunks(patch);
    ReadsHunkRanges(patch);
    RangesNameEdits(hunks);
    var ranges, edits := RangesOf(hunks), EditsOf(hunks).value;
    MapLineIsExact(old', 0, 0, ranges, edits, new', line);
    MapLineIsMonotone(old', 0, 0, ranges, edits, line, later);
  }

  // ----- the leading context of a hunk -----

  lemma AddContext(side: seq<Line>, taken: bool, line: string, old': bool)
    requires KindOf(line).Context? && (taken ==> side != [])
    ensures AddSide(side, taken, line, old') == side + [Line(line[1..], true)]
  {
  }

  lemma AddSideKeeps(side: seq<Line>, taken: bool, line: string, old': bool, k: nat)
    requires k <= |side| && (taken ==> |side| > k)
    ensures k <= |AddSide(side, taken, line, old')| && AddSide(side, taken, line, old')[..k] == side[..k]
  {
  }

  lemma AddSideBoth(x: seq<Line>, y: seq<Line>, line: string, k: nat)
    requires |x| == |y| == k > 0 && x[..k] == y[..k]
    ensures var a, b := AddSide(x, true, line, true), AddSide(y, true, line, false);
      k <= |a| && k <= |b| && a[..k] == b[..k]
  {
    assert x == x[..k] && y == y[..k];
  }

  /** The context lines a body begins with stand at the same places on both sides, whatever follows. */
  lemma {:induction false} LeadingSides(lines: seq<string>, k: nat)
    requires k <= |lines| && forall j :: 0 <= j < k ==> KindOf(lines[j]).Context?
    ensures k <= |Side(lines, true)| && k <= |Side(lines, false)| && Side(lines, true)[..k] == Side(lines, false)[..k]
    ensures |lines| == k ==> |Side(lines, true)| == |Side(lines, false)| == k
    decreases |lines|
  {
    hide Side, AddSide;
    if |lines| == 0 {
      NoSides(lines);
    } else {
      var init, line := lines[..|lines| - 1], lines[|lines| - 1];
      assert lines == init + [line];
      SideSnoc(init, line, true);
      SideSnoc(init, line, false);
      var x, y := Side(init, true), Side(init, false);
      if k == |lines| {
        LeadingSides(init, k - 1);
        assert x == x[..k - 1] && y == y[..k - 1] && KindOf(lines[k - 1]).Context?;
        AddContext(x, |init| > 0 && Takes(true, init[|init| - 1]), line, true);
        AddContext(y, |init| > 0 && Takes(false, init[|init| - 1]), line, false);
      } else {
        LeadingSides(init, k);
        if |init| == k {
          if k > 0 { AddSideBoth(x, y, line, k); }
        } else {
          LastTaken(init, k, true);
          LastTaken(init, k, false);
          AddSideKeeps(x, Takes(true, init[|init| - 1]), line, true, k);
          AddSideKeeps(y, Takes(false, init[|init| - 1]), line, false, k);
        }
      }
    }
  }

  lemma NoSides(lines: seq<string>)
    requires lines == []
    ensures Side(lines, true) == [] && Side(lines, false) == []
  {
  }

  /** A line taken after `k` context lines is not one of the first `k` of its side. */
  lemma LastTaken(lines: seq<string>, k: nat, old': bool)
    requires k < |lines| && forall j :: 0 <= j < k ==> KindOf(lines[j]).Context?
    ensures Takes(old', lines[|lines| - 1]) ==> |Side(lines, old')| > k
    decreases |lines|
  {
    var init, line := lines[..|lines| - 1], lines[|lines| - 1];
    assert lines == init + [line];
    LeadingSides(init, k);
    SideSnoc(init, line, old');
    hide Side;
  }

  lemma MarkedSnoc(init: seq<string>, line: string)
    ensures Marked(init + [line]) == if KindOf(line).Other? then Marked(init) else Marked(init) + [line]
  {
    assert (init + [line])[..|init|] == init;
  }

  lemma NothingMarked()
    ensures Marked([]) == []
  {
  }

  lemma {:induction false} MarkedLeading(body: seq<string>, k: nat)
    requires k <= |body| && forall j :: 0 <= j < k ==> KindOf(body[j]).Context?
    ensures k <= |Marked(body)| && Marked(body)[..k] == body[..k] && (k == |body| ==> Marked(body) == body)
    decreases |body|
  {
    hide Marked;
    if |body| == 0 {
      NothingMarked();
      assert body == [];
    } else {
      var init, line := body[..|body| - 1], body[|body| - 1];
      assert body == init + [line];
      MarkedSnoc(init, line);
      if k < |body| {
        MarkedLeading(init, k);
        assert (Marked(init) + [line])[..k] == Marked(init)[..k];
      } else {
        MarkedLeading(init, k - 1);
        assert line == body[k - 1] && Marked(body) == body;
      }
    }
  }

  lemma SliceAfter<T>(a: seq<T>, b: seq<T>, from: nat, to: nat)
    requires from <= to <= |b|
    ensures (a + b)[|a| + from..|a| + to] == b[from..to]
  {
  }

  /** The edit's lines are in the old file where it says, and in the new lines from `newAt` on. */
  predicate Stands(old': seq<Line>, newAt: nat, e: Edit, rest: seq<Line>) {
    && e.oldAt + |e.before| <= |old'| && old'[e.oldAt..e.oldAt + |e.before|] == e.before
    && newAt <= e.newAt && e.newAt - newAt + |e.after| <= |rest|
    && rest[e.newAt - newAt..e.newAt - newAt + |e.after|] == e.after
  }

  /** Every edit of a patch that applies stands in the old file and in the new one where it says. */
  lemma {:induction false} EditStands(old': seq<Line>, oldAt: nat, newAt: nat, edits: seq<Edit>, rest: seq<Line>,
                                      i: nat)
    requires ApplyFrom(old', oldAt, newAt, edits) == Some(rest) && i < |edits|
    ensures Stands(old', newAt, edits[i], rest)
    decreases i
  {
    hide ApplyFrom, Stands, Matches;
    ApplyFirst(old', oldAt, newAt, edits, rest);
    var first := edits[0];
    var oldNext, newNext := first.oldAt + |first.before|, first.newAt + |first.after|;
    var after := ApplyFrom(old', oldNext, newNext, edits[1..]).value;
    if i == 0 {
      FirstStands(old', oldAt, newAt, first, after);
    } else {
      EditStands(old', oldNext, newNext, edits[1..], after, i - 1);
      StandsAfter(old', newAt, newNext, edits[i], old'[oldAt..first.oldAt] + first.after, after);
    }
  }

  lemma FirstStands(old': seq<Line>, oldAt: nat, newAt: nat, e: Edit, after: seq<Line>)
    requires Matches(old', oldAt, newAt, e) && oldAt <= e.oldAt <= |old'| && newAt <= e.newAt
    ensures Stands(old', newAt, e, old'[oldAt..e.oldAt] + e.after + after)
  {
    var front := old'[oldAt..e.oldAt];
    assert (front + e.after + after)[|front|..|front| + |e.after|] == e.after;
  }

  lemma StandsAfter(old': seq<Line>, newAt: nat, newNext: nat, e: Edit, front: seq<Line>, after: seq<Line>)
    requires newAt <= newNext && |front| == newNext - newAt && Stands(old', newNext, e, after)
    ensures Stands(old', newAt, e, front + after)
  {
    SliceAfter(front, after, e.newAt - newNext, e.newAt - newNext + |e.after|);
  }

  /** The edit of a parsed hunk holds the sides of its marked lines. */
  lemma {:induction false} EditAt(hunks: seq<Hunk>, i: nat)
    requires EditsOf(hunks).Some? && i < |hunks|
    ensures |EditsOf(hunks).value| == |hunks| && EditOf(hunks[i]) == Some(EditsOf(hunks).value[i])
  {
    hide EditOf, HunkRanges, HunkHeader, EditsOf;
    EditsInit(hunks);
    EditsLength(hunks);
    EditsLength(hunks[..|hunks| - 1]);
    if i < |hunks| - 1 { EditAt(hunks[..|hunks| - 1], i); }
  }

  lemma {:induction false} EditsLength(hunks: seq<Hunk>)
    requires EditsOf(hunks).Some?
    ensures |EditsOf(hunks).value| == |hunks|
  {
    if |hunks| > 0 {
      EditsInit(hunks);
      EditsLength(hunks[..|hunks| - 1]);
      hide EditOf, HunkRanges, HunkHeader, EditsOf;
    }
  }

  /** Body lines 0 to `j` are context lines. */
  predicate LeadsWithContext(h: Hunk, j: nat) {
    j < |HunkBody(h)| && forall m :: 0 <= m <= j ==> KindOf(HunkBody(h)[m]).Context?
  }

  lemma EditSides(h: Hunk, r: Ranges)
    requires EditOf(h).Some? && HunkRanges(HunkHeader(h)) == Some(r)
    ensures var body, e := Marked(HunkBody(h)), EditOf(h).value;
      && e.before == Side(body, true) && e.after == Side(body, false)
      && |e.before| == r.oldLen && |e.after| == r.newLen
      && (r.oldLen > 0 ==> r.oldStart == e.oldAt + 1) && (r.newLen > 0 ==> r.newStart == e.newAt + 1)
  {
    hide Side, HunkRanges, HunkHeader, HunkBody, Marked;
  }

  lemma PrefixAt<T>(a: seq<T>, b: seq<T>, j: nat)
    requires j < |a| && j < |b| && a[..j + 1] == b[..j + 1]
    ensures a[j] == b[j]
  {
    assert a[..j + 1][j] == b[..j + 1][j];
  }

  /** A context line at the head of a hunk is the same on both sides of its edit. */
  lemma LeadingInEdit(h: Hunk, r: Ranges, j: nat)
    requires EditOf(h).Some? && HunkRanges(HunkHeader(h)) == Some(r) && LeadsWithContext(h, j)
    ensures var e := EditOf(h).value;
      && j < |e.before| == r.oldLen && j < |e.after| == r.newLen && e.before[j] == e.after[j]
      && r.oldStart == e.oldAt + 1 && r.newStart == e.newAt + 1
  {
    hide Side, EditOf, HunkRanges, HunkHeader, HunkBody, Marked, KindOf;
    var body := Marked(HunkBody(h));
    MarkedLeading(HunkBody(h), j + 1);
    forall m | 0 <= m < j + 1 ensures KindOf(body[m]).Context? { assert body[m] == body[..j + 1][m]; }
    LeadingSides(body, j + 1);
    EditSides(h, r);
    PrefixAt(Side(body, true), Side(body, false), j);
  }

  /** And so it stands in both files where the ranges say. */
  lemma LeadingStands(old': seq<Line>, hunks: seq<Hunk>, new': seq<Line>, i: nat, r: Ranges, j: nat)
    requires Apply(old', hunks) == Some(new') && i < |hunks|
    requires HunkRanges(HunkHeader(hunks[i])) == Some(r) && LeadsWithContext(hunks[i], j)
    ensures j < r.oldLen && j < r.newLen && 1 <= r.oldStart && 1 <= r.newStart
    ensures r.oldStart + j <= |old'| && r.newStart + j <= |new'|
    ensures old'[r.oldStart + j - 1] == new'[r.newStart + j - 1]
  {
    hide EditOf, EditsOf, HunkRanges, HunkHeader, ApplyFrom, LeadsWithContext;
    var edits := EditsOf(hunks).value;
    EditAt(hunks, i);
    EditStands(old', 0, 0, edits, new', i);
    LeadingInEdit(hunks[i], r, j);
    var e := edits[i];
    assert old'[e.oldAt + j] == old'[e.oldAt..e.oldAt + |e.before|][j];
    assert new'[e.newAt + j] == new'[e.newAt..e.newAt + |e.after|][j];
  }

  /**
   * For any patch that takes `old'` to `new'`, a context line at the head of a hunk maps to the old
   * line that has the same text.
   */
  lemma LeadingContextIsExact(patch: string, old': seq<Line>, new': seq<Line>, h: Hunk, r: Ranges, j: nat)
    requires Apply(old', ParsedHunks(patch)) == Some(new') && h in ParsedHunks(patch)
    requires HunkRanges(HunkHeader(h)) == Some(r) && LeadsWithContext(h, j)
    ensures 1 <= r.newStart && r.newStart + j <= |new'|
    ensures var base := MapLine(ReadRanges(Lines(patch)), r.newStart + j, 0);
      base == r.oldStart + j && 1 <= base <= |old'| && old'[base - 1] == new'[r.newStart + j - 1]
  {
    hide ParsedHunks, RangesOf, ReadRanges, Lines, EditsOf, ApplyFrom, MapLine, NameAll, HunkRanges, HunkHeader,
      LeadsWithContext;
    var hunks := ParsedHunks(patch);
    var i :| 0 <= i < |hunks| && hunks[i] == h;
    LeadingStands(old', hunks, new', i, r, j);
    BaseLineIsExact(patch, old', new', r.newStart + j, r.newStart + j);
    EditsReadAt(hunks, i);
    assert InHunk(RangesOf(hunks)[i], r.newStart + j);
  }
}
