/**
 * What `redact_pem` (src/domain/redact.rs:341-411) does to the lines of a text, block by block, in
 * terms of what the three regular expressions match.
 */
module PemLaws {
  import opened Text
  import opened Pem

  // ----- lines -----

  predicate HasBegin(rules: Rules, line: string, m: Span) {
    rules.begin(line) == Some(m) && m.from <= m.to <= |line|
  }

  predicate HasEnd(rules: Rules, text: string, m: Span) {
    rules.end(text) == Some(m) && m.from <= m.to <= |text|
  }

  /** The diff marker of a line, if it has one. */
  function Marker(line: string): (r: string)
    ensures |r| <= |line|
  {
    if line != "" && line[0] in ['+', '-', ' '] then line[..1] else ""
  }

  function Payload(line: string): string { line[|Marker(line)|..] }

  function Markers(lines: seq<string>): (r: seq<string>)
    ensures |r| == |lines|
  {
    seq(|lines|, k requires 0 <= k < |lines| => Marker(lines[k]))
  }

  function Payloads(lines: seq<string>): (r: seq<string>)
    ensures |r| == |lines|
  {
    seq(|lines|, k requires 0 <= k < |lines| => Payload(lines[k]))
  }

  /** A private key may begin on this line and go on below it. */
  predicate IsOpening(rules: Rules, line: string, m: Span) {
    HasBegin(rules, line, m) && rules.end(line[m.to..]).None? && rules.isBody(line[m.to..])
  }

  predicate IsBody(rules: Rules, line: string) {
    rules.end(Payload(line)).None? && rules.isBody(Payload(line))
  }

  predicate AreBody(rules: Rules, lines: seq<string>) { forall line :: line in lines ==> IsBody(rules, line) }

  // ----- the machine, one line more -----

  lemma {:induction false} Before(rules: Rules, a: seq<string>, b: seq<string>, k: nat)
    requires k <= |a|
    ensures OpenAt(rules, a + b, k) == OpenAt(rules, a, k)
    ensures Collected(rules, a + b, k) == Collected(rules, a, k)
    ensures MatchesAt(rules, a + b, k) == MatchesAt(rules, a, k)
  {
    hide RoleOf, Takes, OpenAt, Collected, MatchesAt, Redacted;
    if k == 0 {
      Start(rules, a);
      Start(rules, a + b);
    } else {
      Before(rules, a, b, k - 1);
      StepAt(rules, a, k - 1);
      StepAt(rules, a + b, k - 1);
      assert (a + b)[k - 1] == a[k - 1];
    }
  }

  /** Before line `k` of `b`, the machine on `a + b` is where the machine on `b` alone is. */
  predicate IsAfresh(rules: Rules, a: seq<string>, b: seq<string>, k: nat)
    requires k <= |b|
  {
    && OpenAt(rules, a + b, |a| + k) == OpenAt(rules, b, k)
    && Collected(rules, a + b, |a| + k) == Collected(rules, b, k)
    && MatchesAt(rules, a + b, |a| + k) == MatchesAt(rules, a, |a|) + MatchesAt(rules, b, k)
  }

  lemma AfreshStep(rules: Rules, a: seq<string>, b: seq<string>, k: nat)
    requires k < |b| && IsAfresh(rules, a, b, k)
    ensures IsAfresh(rules, a, b, k + 1)
  {
    hide RoleOf, Takes, OpenAt, Collected, MatchesAt, Redacted, Recorded;
    StepAt(rules, a + b, |a| + k);
    StepAt(rules, b, k);
    assert (a + b)[|a| + k] == b[k];
    assert |a| + k + 1 == |a| + (k + 1);
    var found, before := MatchesAt(rules, a, |a|), MatchesAt(rules, b, k);
    var more := MatchesAt(rules, b, k + 1)[|before|..];
    assert found + (before + more) == found + before + more;
  }

  lemma AfreshStart(rules: Rules, a: seq<string>, b: seq<string>)
    requires !OpenAt(rules, a, |a|)
    ensures IsAfresh(rules, a, b, 0)
  {
    hide OpenAt, Collected, MatchesAt;
    Before(rules, a, b, |a|);
    Start(rules, b);
    NotCollecting(rules, a, |a|);
  }

  /** After a closed state the machine starts afresh. */
  lemma {:induction false} Afresh(rules: Rules, a: seq<string>, b: seq<string>, k: nat)
    requires k <= |b| && !OpenAt(rules, a, |a|)
    ensures IsAfresh(rules, a, b, k)
  {
    hide IsAfresh, OpenAt;
    if k == 0 {
      AfreshStart(rules, a, b);
    } else {
      Afresh(rules, a, b, k - 1);
      AfreshStep(rules, a, b, k - 1);
    }
  }

  /** Lines that leave no block open and those after them are redacted without regard to each other. */
  lemma ClosedAppend(rules: Rules, a: seq<string>, b: seq<string>)
    requires !OpenAt(rules, a, |a|)
    ensures Redacted(rules, a + b) == Redacted(rules, a) + Redacted(rules, b)
    ensures Matches(rules, a + b) == Matches(rules, a) + Matches(rules, b)
  {
    hide RoleOf, Leaves, OpenAt, Collected, MatchesAt;
    forall k | 0 <= k < |a| ensures OpenAt(rules, a + b, k) == OpenAt(rules, a, k) { Before(rules, a, b, k); }
    forall k | 0 <= k < |b| ensures OpenAt(rules, a + b, |a| + k) == OpenAt(rules, b, k) { Afresh(rules, a, b, k); }
    assert Redacted(rules, a + b) == Redacted(rules, a) + Redacted(rules, b);
    Afresh(rules, a, b, |b|);
    assert MatchesAt(rules, a, |a|) + [] == MatchesAt(rules, a, |a|);
  }

  /** The machine after the lines read so far: whether a block is open, what it holds, the matches, the output. */
  predicate Stands(rules: Rules, lines: seq<string>, open: bool, body: string, found: seq<string>, out: seq<string>) {
    && OpenAt(rules, lines, |lines|) == open
    && Collected(rules, lines, |lines|) == body
    && MatchesAt(rules, lines, |lines|) == found
    && Redacted(rules, lines) == out
  }

  lemma RedactedSnoc(rules: Rules, lines: seq<string>, line: string)
    ensures Redacted(rules, lines + [line]) ==
      Redacted(rules, lines) + [Leaves(rules, OpenAt(rules, lines, |lines|), line)]
  {
    hide RoleOf, Leaves, OpenAt;
    forall k | 0 <= k <= |lines| ensures OpenAt(rules, lines + [line], k) == OpenAt(rules, lines, k) {
      Before(rules, lines, [line], k);
    }
  }

  lemma StandsSnoc(rules: Rules, lines: seq<string>, line: string,
                   open: bool, body: string, found: seq<string>, out: seq<string>)
    requires Stands(rules, lines, open, body, found, out)
    ensures var role, taken := RoleOf(rules, open, line), Takes(rules, open, line);
      Stands(rules, lines + [line], OpenAfter(role), if OpenAfter(role) then body + taken else "",
             found + Recorded(role, body, taken), out + [Leaves(rules, open, line)])
  {
    hide RoleOf, Takes, Leaves, OpenAt, Collected, MatchesAt, Redacted, Recorded;
    Before(rules, lines, [line], |lines|);
    StepAt(rules, lines + [line], |lines|);
    RedactedSnoc(rules, lines, line);
    assert (lines + [line])[|lines|] == line;
  }

  lemma StandsAtStart(rules: Rules)
    ensures Stands(rules, [], false, "", [], [])
  {
  }

  // ----- what each line is -----

  lemma MarkerIs(line: string)
    ensures |Marker(line)| == MarkerLength(line) && Marker(line) == line[..MarkerLength(line)]
  {
  }

  lemma OpeningIs(rules: Rules, line: string, m: Span)
    requires IsOpening(rules, line, m)
    ensures RoleOf(rules, false, line).Opening? && Takes(rules, false, line) == line[m.to..]
    ensures Leaves(rules, false, line) == line[..m.from] + PLACEHOLDER
  {
  }

  lemma BodyIs(rules: Rules, line: string)
    requires IsBody(rules, line)
    ensures RoleOf(rules, true, line).Inside?
    ensures Takes(rules, true, line) == Payload(line) && Leaves(rules, true, line) == Marker(line)
  {
    MarkerIs(line);
  }

  lemma ClosingIs(rules: Rules, line: string, m: Span)
    requires HasEnd(rules, Payload(line), m)
    ensures RoleOf(rules, true, line).Closing? && Takes(rules, true, line) == Payload(line)[..m.from]
    ensures Leaves(rules, true, line) == Marker(line) + Payload(line)[m.to..]
  {
    MarkerIs(line);
  }

  lemma CutIs(rules: Rules, line: string)
    requires rules.end(Payload(line)).None? && !rules.isBody(Payload(line))
    ensures RoleOf(rules, true, line).Cut? && Takes(rules, true, line) == "" && Leaves(rules, true, line) == line
  {
    MarkerIs(line);
  }

  // ----- outside blocks -----

  lemma ClosedLine(rules: Rules, line: string, rest: seq<string>)
    requires !OpenAfter(RoleOf(rules, false, line))
    ensures Redacted(rules, [line] + rest) == [Leaves(rules, false, line)] + Redacted(rules, rest)
    ensures Matches(rules, [line] + rest) ==
      Recorded(RoleOf(rules, false, line), "", Takes(rules, false, line)) + Matches(rules, rest)
  {
    hide RoleOf, Leaves, Takes, OpenAt, Collected, MatchesAt, Redacted, Recorded, OpenAfter;
    StandsAtStart(rules);
    StandsSnoc(rules, [], line, false, "", [], []);
    assert [] + [line] == [line];
    ClosedAppend(rules, [line], rest);
  }

  /** A line without BEGIN, or with BEGIN followed by what is neither END nor key text, is copied. */
  lemma LineIsCopied(rules: Rules, line: string, m: Span, rest: seq<string>)
    requires rules.begin(line).None? ||
      (HasBegin(rules, line, m) && rules.end(line[m.to..]).None? && !rules.isBody(line[m.to..]))
    ensures Redacted(rules, [line] + rest) == [line] + Redacted(rules, rest)
    ensures Matches(rules, [line] + rest) == Matches(rules, rest)
  {
    assert RoleOf(rules, false, line).Outside?;
    ClosedLine(rules, line, rest);
    assert [] + Matches(rules, rest) == Matches(rules, rest);
  }

  /** With BEGIN and END on one line, the placeholder stands for both and what is between them. */
  lemma BlockOnOneLine(rules: Rules, line: string, b: Span, e: Span, rest: seq<string>)
    requires HasBegin(rules, line, b) && HasEnd(rules, line[b.to..], e)
    ensures Redacted(rules, [line] + rest) ==
      [line[..b.from] + PLACEHOLDER + line[b.to + e.to..]] + Redacted(rules, rest)
    ensures Matches(rules, [line] + rest) == [line[b.to..b.to + e.from]] + Matches(rules, rest)
  {
    assert RoleOf(rules, false, line).Whole?;
    ClosedLine(rules, line, rest);
    assert line[b.to..][e.to..] == line[b.to + e.to..] && line[b.to..][..e.from] == line[b.to..b.to + e.from];
  }

  // ----- blocks -----

  lemma NothingTaken()
    ensures Concat([]) == ""
  {
  }

  /** The opening line leaves its head and the placeholder, and each body line its marker. */
  lemma {:induction false} BlockRuns(rules: Rules, first: string, m: Span, body: seq<string>)
    requires IsOpening(rules, first, m) && AreBody(rules, body)
    ensures Stands(rules, [first] + body, true, first[m.to..] + Concat(Payloads(body)), [],
                   [first[..m.from] + PLACEHOLDER] + Markers(body))
    decreases |body|
  {
    hide Stands, RoleOf, Takes, Leaves, Concat, IsBody;
    if body == [] {
      StandsAtStart(rules);
      StandsSnoc(rules, [], first, false, "", [], []);
      OpeningIs(rules, first, m);
      assert [] + [first] == [first] == [first] + body;
      NothingTaken();
      assert Payloads(body) == [] && Markers(body) == [] && first[m.to..] + "" == first[m.to..];
      assert "" + first[m.to..] == first[m.to..];
      assert [] + Recorded(RoleOf(rules, false, first), "", first[m.to..]) == [];
      var head := first[..m.from] + PLACEHOLDER;
      assert [] + [head] == [head] == [head] + Markers(body);
    } else {
      var front, line := body[..|body| - 1], body[|body| - 1];
      BlockRuns(rules, first, m, front);
      BodyIs(rules, line);
      StandsSnoc(rules, [first] + front, line, true, first[m.to..] + Concat(Payloads(front)), [],
                 [first[..m.from] + PLACEHOLDER] + Markers(front));
      assert [first] + front + [line] == [first] + body;
      assert Payloads(body) == Payloads(front) + [Payload(line)] && Markers(body) == Markers(front) + [Marker(line)];
      ConcatSnoc(Payloads(front), Payload(line));
      var taken := first[m.to..] + Concat(Payloads(front));
      assert taken + Payload(line) == first[m.to..] + Concat(Payloads(body));
      assert [] + Recorded(RoleOf(rules, true, line), taken, Takes(rules, true, line)) == [];
      assert [first[..m.from] + PLACEHOLDER] + Markers(front) + [Marker(line)] ==
        [first[..m.from] + PLACEHOLDER] + Markers(body);
    }
  }

  /** The line after the body of a block. */
  lemma BlockStops(rules: Rules, first: string, m: Span, body: seq<string>, last: string, rest: seq<string>)
    requires IsOpening(rules, first, m) && AreBody(rules, body) && !OpenAfter(RoleOf(rules, true, last))
    ensures Redacted(rules, [first] + body + [last] + rest) ==
      [first[..m.from] + PLACEHOLDER] + Markers(body) + [Leaves(rules, true, last)] + Redacted(rules, rest)
    ensures Matches(rules, [first] + body + [last] + rest) ==
      Recorded(RoleOf(rules, true, last), first[m.to..] + Concat(Payloads(body)), Takes(rules, true, last))
      + Matches(rules, rest)
  {
    hide RoleOf, Takes, Leaves, OpenAt, Collected, MatchesAt, Redacted, Concat, Recorded, OpenAfter;
    BlockRuns(rules, first, m, body);
    StandsSnoc(rules, [first] + body, last, true, first[m.to..] + Concat(Payloads(body)), [],
               [first[..m.from] + PLACEHOLDER] + Markers(body));
    ClosedAppend(rules, [first] + body + [last], rest);
  }

  /**
   * A private key over several lines: its opening line leaves what stands before BEGIN and the
   * placeholder, each line of its body its diff marker, the line with END its marker and what follows
   * END; one match is recorded, the text taken from all of them.
   */
  lemma BlockIsRedacted(rules: Rules, first: string, m: Span, body: seq<string>, last: string, e: Span,
                        rest: seq<string>)
    requires IsOpening(rules, first, m) && AreBody(rules, body) && HasEnd(rules, Payload(last), e)
    ensures Redacted(rules, [first] + body + [last] + rest) ==
      [first[..m.from] + PLACEHOLDER] + Markers(body) + [Marker(last) + Payload(last)[e.to..]] + Redacted(rules, rest)
    ensures Matches(rules, [first] + body + [last] + rest) ==
      [first[m.to..] + Concat(Payloads(body)) + Payload(last)[..e.from]] + Matches(rules, rest)
  {
    hide Takes, Leaves, RoleOf, Redacted, Matches, Concat, IsOpening, AreBody;
    ClosingIs(rules, last, e);
    BlockStops(rules, first, m, body, last, rest);
  }

  /** A line that is neither END nor key text ends the block; it is copied, and those after it are redacted afresh. */
  lemma BlockIsCut(rules: Rules, first: string, m: Span, body: seq<string>, last: string, rest: seq<string>)
    requires IsOpening(rules, first, m) && AreBody(rules, body)
    requires rules.end(Payload(last)).None? && !rules.isBody(Payload(last))
    ensures Redacted(rules, [first] + body + [last] + rest) ==
      [first[..m.from] + PLACEHOLDER] + Markers(body) + [last] + Redacted(rules, rest)
    ensures Matches(rules, [first] + body + [last] + rest) ==
      [first[m.to..] + Concat(Payloads(body))] + Matches(rules, rest)
  {
    hide Takes, Leaves, RoleOf, Redacted, Matches, Concat, IsOpening, AreBody;
    CutIs(rules, last);
    BlockStops(rules, first, m, body, last, rest);
  }

  /** A block that is still open at the end is recorded with what it holds. */
  lemma BlockRunsOut(rules: Rules, first: string, m: Span, body: seq<string>)
    requires IsOpening(rules, first, m) && AreBody(rules, body)
    ensures Redacted(rules, [first] + body) == [first[..m.from] + PLACEHOLDER] + Markers(body)
    ensures Matches(rules, [first] + body) == [first[m.to..] + Concat(Payloads(body))]
  {
    hide OpenAt, Collected, MatchesAt, Redacted, Concat, IsOpening, AreBody;
    BlockRuns(rules, first, m, body);
  }
}
