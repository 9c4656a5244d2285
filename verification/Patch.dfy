/** Unified-diff hunks: parsing, headers, splitting and anchors (src/domain/patch.rs). */
module Patch {
  import opened Text

  datatype Hunk = Hunk(id: string, startLine: nat, patch: string)

  datatype Ranges = Ranges(oldStart: nat, oldLen: nat, newStart: nat, newLen: nat)

  /** What the first byte of a body line says about it. */
  datatype Kind = Added | Removed | Context | Marker | Other

  function KindOf(line: string): Kind {
    if line == "" then Other
    else match line[0]
      case '+' => Added
      case '-' => Removed
      case ' ' => Context
      case '\\' => Marker
      case _ => Other
  }

  predicate IsKept(line: string) { KindOf(line).Added? || KindOf(line).Context? }

  predicate IsRemoved(line: string) { KindOf(line).Removed? }

  predicate IsOldSide(line: string) { KindOf(line).Removed? || KindOf(line).Context? }

  predicate IsMarker(line: string) { KindOf(line).Marker? }

  // ----- counting -----

  function Count(p: string -> bool, lines: seq<string>): (n: nat)
    ensures n <= |lines|
  {
    if lines == [] then 0
    else Count(p, lines[..|lines| - 1]) + if p(lines[|lines| - 1]) then 1 else 0
  }

  function OldCount(lines: seq<string>): nat { Count(IsOldSide, lines) }

  function NewCount(lines: seq<string>): nat { Count(IsKept, lines) }

  lemma {:induction false} CountAppend(p: string -> bool, a: seq<string>, b: seq<string>)
    ensures Count(p, a + b) == Count(p, a) + Count(p, b)
  {
    if b == [] {
      assert a + b == a;
    } else {
      var init, last := b[..|b| - 1], b[|b| - 1];
      CountAppend(p, a, init);
      assert (a + b)[..|a + b| - 1] == a + init;
    }
  }

  // ----- parsing a patch into hunks -----

  predicate IsHeader(line: string) { "@@ " <= line }

  function FirstWithPrefix(tokens: seq<string>, prefix: char): (r: Option<string>)
    ensures r.Some? ==> [prefix] <= r.value && r.value in tokens
  {
    if tokens == [] then None
    else if [prefix] <= tokens[0] then Some(tokens[0])
    else FirstWithPrefix(tokens[1..], prefix)
  }

  /** The new start a header names; a start that cannot be read is 1. */
  function NewStart(header: string): nat {
    match FirstWithPrefix(Split(header, ' '), '+')
    case None => 1
    case Some(token) =>
      match ParseUsize(Split(token[1..], ',')[0])
      case None => 1
      case Some(n) => n
  }

  /** The lines from each recognised header up to the next one. */
  function Groups(lines: seq<string>): (groups: seq<seq<string>>)
    ensures forall g :: g in groups ==> |g| > 0
  {
    if lines == [] then []
    else
      var before, line := Groups(lines[..|lines| - 1]), lines[|lines| - 1];
      if IsHeader(line) then before + [[line]]
      else if before == [] then []
      else before[..|before| - 1] + [before[|before| - 1] + [line]]
  }

  function HunkId(index: nat): string { "hunk_" + Dec(index + 1) }

  function GroupHunk(group: seq<string>, index: nat): Hunk
    requires |group| > 0
  {
    Hunk(HunkId(index), NewStart(group[0]), Join(group, '\n'))
  }

  function HunksOf(groups: seq<seq<string>>): seq<Hunk>
    requires forall g :: g in groups ==> |g| > 0
  {
    seq(|groups|, i requires 0 <= i < |groups| => GroupHunk(groups[i], i))
  }

  function ParsedHunks(patch: string): seq<Hunk> { HunksOf(Groups(Split(patch, '\n'))) }

  lemma HunksOfSnoc(groups: seq<seq<string>>, group: seq<string>)
    requires |group| > 0 && forall g :: g in groups ==> |g| > 0
    ensures HunksOf(groups + [group]) == HunksOf(groups) + [GroupHunk(group, |groups|)]
  {
  }

  method ParseHunks(patch: string) returns (hunks: seq<Hunk>)
    ensures hunks == ParsedHunks(patch)
  {
    hunks := [];
    var current: Option<seq<string>> := None;
    var startLine := 1;
    var lines := Split(patch, '\n');
    ghost var closed: seq<seq<string>> := [];
    for i := 0 to |lines|
      invariant forall g :: g in closed ==> |g| > 0
      invariant hunks == HunksOf(closed)
      invariant current.None? ==> closed == [] && Groups(lines[..i]) == []
      invariant current.Some? ==>
        && |current.value| > 0 && startLine == NewStart(current.value[0])
        && Groups(lines[..i]) == closed + [current.value]
    {
      var line := lines[i];
      assert lines[..i + 1][..i] == lines[..i];
      if IsHeader(line) {
        if current.Some? {
          HunksOfSnoc(closed, current.value);
          hunks := hunks + [Hunk(HunkId(|hunks|), startLine, Join(current.value, '\n'))];
          closed := closed + [current.value];
        }
        startLine := NewStart(line);
        current := Some([line]);
      } else if current.Some? {
        current := Some(current.value + [line]);
      }
    }
    assert lines[..|lines|] == lines;
    if current.Some? {
      HunksOfSnoc(closed, current.value);
      hunks := hunks + [Hunk(HunkId(|hunks|), startLine, Join(current.value, '\n'))];
    }
  }

  // ----- headers -----

  function RangeOf(header: string, prefix: char): Option<(nat, nat)> {
    match FirstWithPrefix(Split(header, ' '), prefix)
    case None => None
    case Some(token) => TokenRange(token[1..])
  }

  /** `start[,len]`; an omitted length is 1. */
  function TokenRange(token: string): Option<(nat, nat)> {
    var parts := Split(token, ',');
    match ParseUsize(parts[0])
    case None => None
    case Some(start) =>
      if |parts| == 1 then Some((start, 1))
      else match ParseUsize(parts[1])
        case None => None
        case Some(len) => Some((start, len))
  }

  /** Parses `@@ -a[,b] +c[,d] @@`; an omitted count is 1. */
  function HunkRanges(header: string): Option<Ranges> {
    match RangeOf(header, '-')
    case None => None
    case Some(old') =>
      match RangeOf(header, '+')
      case None => None
      case Some(new') => Some(Ranges(old'.0, old'.1, new'.0, new'.1))
  }

  function RangeToken(prefix: char, start: nat, len: nat): string { [prefix] + (Dec(start) + "," + Dec(len)) }

  /** `@@ -{oldStart},{oldLen} +{newStart},{newLen} @@`. */
  function Header(r: Ranges): string {
    "@@ " + (RangeToken('-', r.oldStart, r.oldLen) + " " + (RangeToken('+', r.newStart, r.newLen) + " @@"))
  }

  predicate Bounded(r: Ranges) {
    r.oldStart <= USIZE_MAX && r.oldLen <= USIZE_MAX && r.newStart <= USIZE_MAX && r.newLen <= USIZE_MAX
  }

  /** Reading back a printed range token. */
  lemma RangeTokenReads(start: nat, len: nat)
    requires start <= USIZE_MAX && len <= USIZE_MAX
    ensures var parts := Split(Dec(start) + "," + Dec(len), ',');
      |parts| == 2 && ParseUsize(parts[0]) == Some(start) && ParseUsize(parts[1]) == Some(len)
  {
    SplitAtSep(Dec(start), ',', Dec(len));
    SplitWithoutSep(Dec(start), ',');
    SplitWithoutSep(Dec(len), ',');
    ParseDec(start);
    ParseDec(len);
  }

  lemma DigitsLack(s: string, c: char)
    requires AllDigits(s) && !IsDigit(c)
    ensures c !in s
  {
  }

  lemma RangeTokenLacks(prefix: char, start: nat, len: nat, c: char)
    requires c != prefix && c != ',' && !IsDigit(c)
    ensures c !in RangeToken(prefix, start, len)
  {
    DigitsLack(Dec(start), c);
    DigitsLack(Dec(len), c);
  }

  lemma HeaderTokens(r: Ranges)
    ensures Split(Header(r), ' ') ==
      ["@@", RangeToken('-', r.oldStart, r.oldLen), RangeToken('+', r.newStart, r.newLen), "@@"]
  {
    var old' := RangeToken('-', r.oldStart, r.oldLen);
    var new' := RangeToken('+', r.newStart, r.newLen);
    var last := "@@";
    var tail2 := new' + [' '] + last;
    var tail1 := old' + [' '] + tail2;
    assert tail2 == new' + " @@";
    assert tail1 == old' + " " + (new' + " @@");
    assert Header(r) == last + [' '] + tail1;
    SplitAtSep(last, ' ', tail1);
    SplitAtSep(old', ' ', tail2);
    SplitAtSep(new', ' ', last);
    RangeTokenLacks('-', r.oldStart, r.oldLen, ' ');
    RangeTokenLacks('+', r.newStart, r.newLen, ' ');
    SplitWithoutSep(old', ' ');
    SplitWithoutSep(new', ' ');
    SplitWithoutSep(last, ' ');
  }

  lemma SecondToken(tokens: seq<string>, a: string, b: string, c: string, prefix: char)
    requires |tokens| > 2 && tokens[0] == a && tokens[1] == b && tokens[2] == c
    requires !([prefix] <= a)
    ensures [prefix] <= b ==> FirstWithPrefix(tokens, prefix) == Some(b)
    ensures !([prefix] <= b) && [prefix] <= c ==> FirstWithPrefix(tokens, prefix) == Some(c)
  {
    var rest := tokens[1..];
    assert rest[0] == b && rest[1..][0] == c;
    assert FirstWithPrefix(tokens, prefix) == FirstWithPrefix(rest, prefix);
    if !([prefix] <= b) && [prefix] <= c { assert FirstWithPrefix(rest, prefix) == FirstWithPrefix(rest[1..], prefix); }
  }

  lemma TokenGivesRange(header: string, prefix: char, start: nat, len: nat)
    requires start <= USIZE_MAX && len <= USIZE_MAX
    requires FirstWithPrefix(Split(header, ' '), prefix) == Some(RangeToken(prefix, start, len))
    ensures RangeOf(header, prefix) == Some((start, len))
    ensures prefix == '+' ==> NewStart(header) == start
  {
    RangeTokenReads(start, len);
    assert RangeToken(prefix, start, len)[1..] == Dec(start) + "," + Dec(len);
  }

  /** Printing ranges as a header and reading it back loses nothing. */
  lemma HeaderRoundTrip(r: Ranges)
    requires Bounded(r)
    ensures HunkRanges(Header(r)) == Some(r) && NewStart(Header(r)) == r.newStart
  {
    HeaderTokens(r);
    var old', new' := RangeToken('-', r.oldStart, r.oldLen), RangeToken('+', r.newStart, r.newLen);
    SecondToken(Split(Header(r), ' '), "@@", old', new', '-');
    SecondToken(Split(Header(r), ' '), "@@", old', new', '+');
    TokenGivesRange(Header(r), '-', r.oldStart, r.oldLen);
    TokenGivesRange(Header(r), '+', r.newStart, r.newLen);
  }

  lemma HeaderIsOneLine(r: Ranges)
    ensures IsHeader(Header(r)) && '\n' !in Header(r)
  {
    var old', new' := RangeToken('-', r.oldStart, r.oldLen), RangeToken('+', r.newStart, r.newLen);
    RangeTokenLacks('-', r.oldStart, r.oldLen, '\n');
    RangeTokenLacks('+', r.newStart, r.newLen, '\n');
    var end := new' + " @@";
    assert '\n' !in end;
    var rest := old' + " " + end;
    assert '\n' !in rest;
    assert Header(r) == "@@ " + rest;
  }

  // ----- hunk text -----

  function HunkHeader(h: Hunk): string { Split(h.patch, '\n')[0] }

  function HunkBody(h: Hunk): seq<string> { Split(h.patch, '\n')[1..] }

  /** The new-file line of the first added line, or the hunk's start when there is none. */
  method FirstAddedLine(h: Hunk) returns (line: nat)
    ensures line == FirstAdded(h)
  {
    line := h.startLine;
    var body := HunkBody(h);
    for i := 0 to |body|
      invariant line == h.startLine + NewCount(body[..i])
      invariant forall j :: 0 <= j < i ==> !KindOf(body[j]).Added?
    {
      assert body[..i + 1][..i] == body[..i];
      match KindOf(body[i]) {
        case Added =>
          FirstAddedIndexIs(body, i);
          return;
        case Context => line := line + 1;
        case _ =>
      }
    }
    FirstAddedIndexIs(body, |body|);
    line := h.startLine;
  }

  /** The index of the first added line, or the length. */
  function FirstAddedIndex(body: seq<string>): (i: nat)
    ensures i <= |body|
    ensures forall j :: 0 <= j < i ==> !KindOf(body[j]).Added?
    ensures i < |body| ==> KindOf(body[i]).Added?
  {
    if body == [] || KindOf(body[0]).Added? then 0 else 1 + FirstAddedIndex(body[1..])
  }

  lemma FirstAddedIndexIs(body: seq<string>, i: nat)
    requires i <= |body|
    requires forall j :: 0 <= j < i ==> !KindOf(body[j]).Added?
    requires i < |body| ==> KindOf(body[i]).Added?
    ensures FirstAddedIndex(body) == i
  {
  }

  function FirstAdded(h: Hunk): nat {
    var body := HunkBody(h);
    var i := FirstAddedIndex(body);
    if i < |body| then h.startLine + NewCount(body[..i]) else h.startLine
  }
}
