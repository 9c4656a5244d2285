/**
 * The PEM line machine `redact_pem` (src/domain/redact.rs:341-411), over any recognisers for the
 * BEGIN and END markers and for body lines.
 */
module Pem {
  import opened Text

  const PLACEHOLDER := "<redacted:private-key>"

  datatype Span = Span(from: nat, to: nat)

  /** The regular expressions: where BEGIN and END match first, and which text looks like PEM body. */
  datatype Rules = Rules(begin: string -> Option<Span>, end: string -> Option<Span>, isBody: string -> bool,
                         mentions: string -> bool)

  function Begin(rules: Rules, s: string): (m: Option<Span>)
    ensures m.Some? ==> m.value.from <= m.value.to <= |s|
  {
    var m := rules.begin(s);
    if m.Some? && m.value.from <= m.value.to <= |s| then m else None
  }

  function End(rules: Rules, s: string): (m: Option<Span>)
    ensures m.Some? ==> m.value.from <= m.value.to <= |s|
  {
    var m := rules.end(s);
    if m.Some? && m.value.from <= m.value.to <= |s| then m else None
  }

  // ----- one line -----

  datatype State = State(open: bool, body: string)

  function MarkerLength(content: string): (n: nat)
    ensures n <= 1 && n <= |content|
  {
    if |content| > 0 && (content[0] == '+' || content[0] == '-' || content[0] == ' ') then 1 else 0
  }

  datatype Role = Outside | Whole | Opening | Inside | Closing | Cut

  /** What a line is to the machine. `Cut` is a line that ends an open block by not looking like its body. */
  function RoleOf(rules: Rules, open: bool, content: string): Role {
    if !open then
      match Begin(rules, content)
      case None => Outside
      case Some(begin) =>
        var rest := content[begin.to..];
        if End(rules, rest).Some? then Whole else if rules.isBody(rest) then Opening else Outside
    else
      var payload := content[MarkerLength(content)..];
      if End(rules, payload).Some? then Closing else if rules.isBody(payload) then Inside else Cut
  }

  predicate OpenAfter(role: Role) { role.Opening? || role.Inside? }

  /** What a line leaves in the output. */
  function Leaves(rules: Rules, open: bool, content: string): string {
    match RoleOf(rules, open, content)
    case Outside => content
    case Cut => content
    case Whole =>
      var begin := Begin(rules, content).value;
      var rest := content[begin.to..];
      content[..begin.from] + PLACEHOLDER + rest[End(rules, rest).value.to..]
    case Opening => content[..Begin(rules, content).value.from] + PLACEHOLDER
    case Inside => content[..MarkerLength(content)]
    case Closing =>
      var payload := content[MarkerLength(content)..];
      content[..MarkerLength(content)] + payload[End(rules, payload).value.to..]
  }

  /** What a line hands to the match: the secret text on it. */
  function Takes(rules: Rules, open: bool, content: string): string {
    match RoleOf(rules, open, content)
    case Outside => ""
    case Cut => ""
    case Whole => var rest := content[Begin(rules, content).value.to..]; rest[..End(rules, rest).value.from]
    case Opening => content[Begin(rules, content).value.to..]
    case Inside => content[MarkerLength(content)..]
    case Closing => var payload := content[MarkerLength(content)..]; payload[..End(rules, payload).value.from]
  }

  // ----- all lines -----

  predicate OpenAt(rules: Rules, lines: seq<string>, k: nat)
    requires k <= |lines|
  {
    k > 0 && OpenAfter(RoleOf(rules, OpenAt(rules, lines, k - 1), lines[k - 1]))
  }

  function RoleAt(rules: Rules, lines: seq<string>, k: nat): Role
    requires k < |lines|
  {
    RoleOf(rules, OpenAt(rules, lines, k), lines[k])
  }

  /** The lines of the output. */
  function Redacted(rules: Rules, lines: seq<string>): (r: seq<string>)
    ensures |r| == |lines|
  {
    seq(|lines|, k requires 0 <= k < |lines| => Leaves(rules, OpenAt(rules, lines, k), lines[k]))
  }

  /** The secret collected so far by the block that is open before line `k`. */
  function Collected(rules: Rules, lines: seq<string>, k: nat): string
    requires k <= |lines|
  {
    if k == 0 || !OpenAt(rules, lines, k) then ""
    else Collected(rules, lines, k - 1) + Takes(rules, OpenAt(rules, lines, k - 1), lines[k - 1])
  }

  /** The matches recorded before line `k`, in order. */
  function MatchesAt(rules: Rules, lines: seq<string>, k: nat): seq<string>
    requires k <= |lines|
  {
    if k == 0 then []
    else
      var open := OpenAt(rules, lines, k - 1);
      MatchesAt(rules, lines, k - 1)
      + Recorded(RoleAt(rules, lines, k - 1), Collected(rules, lines, k - 1), Takes(rules, open, lines[k - 1]))
  }

  /** The match that a line completes, given what its block collected before it. */
  function Recorded(role: Role, collected: string, taken: string): seq<string> {
    match role
    case Whole => [taken]
    case Closing => [collected + taken]
    case Cut => [collected]
    case _ => []
  }

  function Matches(rules: Rules, lines: seq<string>): seq<string> {
    MatchesAt(rules, lines, |lines|) + if OpenAt(rules, lines, |lines|) then [Collected(rules, lines, |lines|)] else []
  }

  /** `split_inclusive('\n')` without the newlines: no line after a final newline. */
  function LinesIn(text: string): seq<string> {
    var parts := Split(text, '\n');
    if parts[|parts| - 1] == "" then parts[..|parts| - 1] else parts
  }

  /** Lines put back with the newlines of `text`. */
  function WithNewlines(text: string, lines: seq<string>): string {
    var parts := Split(text, '\n');
    Join(if parts[|parts| - 1] == "" then lines + [""] else lines, '\n')
  }

  method RedactLine(rules: Rules, st: State, content: string) returns (next: State, out: string, found: seq<string>)
    requires st.open || st.body == ""
    ensures out == Leaves(rules, st.open, content)
    ensures next.open == OpenAfter(RoleOf(rules, st.open, content))
    ensures next.body == if next.open then st.body + Takes(rules, st.open, content) else ""
    ensures found == Recorded(RoleOf(rules, st.open, content), st.body, Takes(rules, st.open, content))
  {
    found := [];
    var open, body := st.open, st.body;
    if !open {
      match Begin(rules, content)
      case Some(begin) =>
        var rest := content[begin.to..];
        var end := End(rules, rest);
        if end.Some? {
          found := [rest[..end.value.from]];
          out := content[..begin.from] + PLACEHOLDER + rest[end.value.to..];
        } else if rules.isBody(rest) {
          body := rest;
          out := content[..begin.from] + PLACEHOLDER;
          open := true;
        } else {
          out := content;
        }
      case None => out := content;
    } else {
      var n := MarkerLength(content);
      var payload := content[n..];
      var end := End(rules, payload);
      if end.Some? {
        body := body + payload[..end.value.from];
        found := [body];
        body := "";
        out := content[..n] + payload[end.value.to..];
        open := false;
      } else if rules.isBody(payload) {
        body := body + payload;
        out := content[..n];
      } else {
        found := [body];
        body := "";
        out := content;
        open := false;
      }
    }
    next := State(open, body);
  }

  lemma OpenStep(rules: Rules, lines: seq<string>, k: nat)
    requires k < |lines|
    ensures OpenAt(rules, lines, k + 1) == OpenAfter(RoleOf(rules, OpenAt(rules, lines, k), lines[k]))
  {
    hide RoleOf;
  }

  lemma RedactedStep(rules: Rules, lines: seq<string>, k: nat)
    requires k < |lines|
    ensures Redacted(rules, lines)[..k + 1]
         == Redacted(rules, lines)[..k] + [Leaves(rules, OpenAt(rules, lines, k), lines[k])]
  {
    hide Leaves, OpenAt;
  }

  lemma NotCollecting(rules: Rules, lines: seq<string>, k: nat)
    requires k <= |lines| && !OpenAt(rules, lines, k)
    ensures Collected(rules, lines, k) == ""
  {
    hide OpenAt;
  }

  /** The machine after one line more. */
  lemma StepAt(rules: Rules, lines: seq<string>, k: nat)
    requires k < |lines|
    ensures var open, line := OpenAt(rules, lines, k), lines[k];
      var role, taken := RoleOf(rules, open, line), Takes(rules, open, line);
      && OpenAt(rules, lines, k + 1) == OpenAfter(role)
      && Collected(rules, lines, k + 1) == (if OpenAfter(role) then Collected(rules, lines, k) + taken else "")
      && MatchesAt(rules, lines, k + 1) ==
          MatchesAt(rules, lines, k) + Recorded(role, Collected(rules, lines, k), taken)
      && Redacted(rules, lines)[..k + 1] == Redacted(rules, lines)[..k] + [Leaves(rules, open, line)]
      && (!open ==> Collected(rules, lines, k) == "")
  {
    hide RoleOf, Takes, Leaves, OpenAt, Redacted;
    OpenStep(rules, lines, k);
    RedactedStep(rules, lines, k);
    if !OpenAt(rules, lines, k) { NotCollecting(rules, lines, k); }
  }

  lemma Start(rules: Rules, lines: seq<string>)
    ensures !OpenAt(rules, lines, 0) && Collected(rules, lines, 0) == "" && MatchesAt(rules, lines, 0) == []
  {
  }

  method RedactPem(rules: Rules, text: string) returns (result: string, found: seq<string>)
    ensures !rules.mentions(text) ==> result == text && found == []
    ensures rules.mentions(text) ==>
      result == WithNewlines(text, Redacted(rules, LinesIn(text))) && found == Matches(rules, LinesIn(text))
  {
    found := [];
    if !rules.mentions(text) { return text, found; }
    hide Leaves, Takes, RoleOf, OpenAt, Collected, MatchesAt, Redacted;
    var lines := LinesIn(text);
    Start(rules, lines);
    var st := State(false, "");
    var out: seq<string> := [];
    for k := 0 to |lines|
      invariant out == Redacted(rules, lines)[..k]
      invariant st.open == OpenAt(rules, lines, k) && st.body == Collected(rules, lines, k)
      invariant found == MatchesAt(rules, lines, k)
    {
      StepAt(rules, lines, k);
      var next, line, more := RedactLine(rules, st, lines[k]);
      out := out + [line];
      found := found + more;
      st := next;
    }
    if st.open { found := found + [st.body]; }
    assert Redacted(rules, lines)[..|lines|] == Redacted(rules, lines);
    result := WithNewlines(text, out);
  }

  // ----- what the machine guarantees -----

  /** The line with one stretch of it replaced by the placeholder. */
  ghost predicate Around(line: string, out: string) { exists i, j :: Splice(line, i, j, out) }

  predicate Splice(line: string, i: nat, j: nat, out: string) {
    i <= j <= |line| && out == line[..i] + PLACEHOLDER + line[j..]
  }

  lemma WholeLeaves(rules: Rules, line: string)
    requires RoleOf(rules, false, line).Whole?
    ensures Around(line, Leaves(rules, false, line))
  {
    var begin := Begin(rules, line).value;
    var rest := line[begin.to..];
    var to := begin.to + End(rules, rest).value.to;
    assert rest[to - begin.to..] == line[to..];
    assert Splice(line, begin.from, to, Leaves(rules, false, line));
  }

  lemma OpeningLeaves(rules: Rules, line: string)
    requires RoleOf(rules, false, line).Opening?
    ensures Around(line, Leaves(rules, false, line))
  {
    assert Splice(line, Begin(rules, line).value.from, |line|, Leaves(rules, false, line));
  }

  /** END's first match after at most one diff marker ends at `to`; the marker and the rest are left. */
  predicate ClosesAt(rules: Rules, line: string, n: nat, to: nat, out: string) {
    && n <= 1 && n <= to <= |line| && (n == 1 ==> line[0] in "+- ")
    && End(rules, line[n..]).Some? && End(rules, line[n..]).value.to == to - n
    && out == line[..n] + line[to..]
  }

  lemma ClosingLeaves(rules: Rules, line: string)
    requires RoleOf(rules, true, line).Closing?
    ensures exists n, to :: ClosesAt(rules, line, n, to, Leaves(rules, true, line))
  {
    var n := MarkerLength(line);
    var to := n + End(rules, line[n..]).value.to;
    assert line[n..][to - n..] == line[to..];
    assert ClosesAt(rules, line, n, to, Leaves(rules, true, line));
  }

  lemma OtherLeaves(rules: Rules, open: bool, line: string)
    ensures var role, out := RoleOf(rules, open, line), Leaves(rules, open, line);
      && (role.Outside? || role.Cut? ==> out == line)
      && (role.Inside? ==> |out| <= 1 && out == line[..|out|] && (out != "" ==> out[0] in "+- "))
      && (role.Whole? || role.Opening? ==> !open) && (role.Closing? ==> open)
  {
  }

  /**
   * Lines outside blocks are copied; a line inside a block leaves at most its diff marker; the line
   * that closes a block leaves its marker and what follows END; one stretch of a line on which a
   * block begins becomes the placeholder.
   */
  lemma EachLine(rules: Rules, lines: seq<string>, k: nat)
    requires k < |lines|
    ensures var role, line, out := RoleAt(rules, lines, k), lines[k], Redacted(rules, lines)[k];
      && (role.Outside? || role.Cut? ==> out == line)
      && (role.Inside? ==> |out| <= 1 && out == line[..|out|] && (out != "" ==> out[0] in "+- "))
      && (role.Closing? ==> exists n, to :: ClosesAt(rules, line, n, to, out))
      && (role.Whole? || role.Opening? ==> Around(line, out))
  {
    hide RoleOf, Leaves, Around, ClosesAt, OpenAt;
    var open, line := OpenAt(rules, lines, k), lines[k];
    OtherLeaves(rules, open, line);
    match RoleOf(rules, open, line)
    case Whole => WholeLeaves(rules, line);
    case Opening => OpeningLeaves(rules, line);
    case Closing => ClosingLeaves(rules, line);
    case _ =>
  }

  /** A block runs from an opening line over body lines only. */
  lemma {:induction false} BlockHasOpening(rules: Rules, lines: seq<string>, k: nat) returns (o: nat)
    requires k <= |lines| && OpenAt(rules, lines, k)
    ensures o < k && RoleAt(rules, lines, o).Opening?
    ensures forall j :: o < j < k ==> RoleAt(rules, lines, j).Inside?
  {
    if RoleAt(rules, lines, k - 1).Opening? { o := k - 1; }
    else { o := BlockHasOpening(rules, lines, k - 1); }
  }

  /** Placeholders written on the lines before `k`. */
  function Placeholders(rules: Rules, lines: seq<string>, k: nat): nat
    requires k <= |lines|
  {
    if k == 0 then 0
    else
      var role := RoleAt(rules, lines, k - 1);
      Placeholders(rules, lines, k - 1) + if role.Whole? || role.Opening? then 1 else 0
  }

  lemma NoPlaceholder(rules: Rules, lines: seq<string>)
    ensures Placeholders(rules, lines, 0) == 0
  {
  }

  lemma PlaceholderStep(rules: Rules, lines: seq<string>, k: nat)
    requires k < |lines|
    ensures var role := RoleAt(rules, lines, k);
      Placeholders(rules, lines, k + 1) == Placeholders(rules, lines, k) + if role.Whole? || role.Opening? then 1 else 0
  {
    hide RoleOf, OpenAt;
  }

  lemma RolesWhen(rules: Rules, open: bool, line: string)
    ensures var role := RoleOf(rules, open, line); role.Outside? || role.Whole? || role.Opening? <==> !open
  {
  }

  lemma {:induction false} MatchesSoFar(rules: Rules, lines: seq<string>, k: nat)
    requires k <= |lines|
    ensures |MatchesAt(rules, lines, k)| + (if OpenAt(rules, lines, k) then 1 else 0) == Placeholders(rules, lines, k)
  {
    hide RoleOf, Takes, Leaves, OpenAt, Collected, MatchesAt, Placeholders;
    if k > 0 {
      MatchesSoFar(rules, lines, k - 1);
      StepAt(rules, lines, k - 1);
      PlaceholderStep(rules, lines, k - 1);
      RolesWhen(rules, OpenAt(rules, lines, k - 1), lines[k - 1]);
    } else {
      Start(rules, lines);
      NoPlaceholder(rules, lines);
    }
  }

  /** Exactly one match is recorded for each placeholder. */
  lemma OneMatchPerPlaceholder(rules: Rules, lines: seq<string>)
    ensures |Matches(rules, lines)| == Placeholders(rules, lines, |lines|)
  {
    MatchesSoFar(rules, lines, |lines|);
  }

  function Concat(parts: seq<string>): string {
    if |parts| == 0 then "" else Concat(parts[..|parts| - 1]) + parts[|parts| - 1]
  }

  /** Every secret text on the lines before `k`, in order. */
  function TakenAt(rules: Rules, lines: seq<string>, k: nat): string
    requires k <= |lines|
  {
    if k == 0 then "" else TakenAt(rules, lines, k - 1) + Takes(rules, OpenAt(rules, lines, k - 1), lines[k - 1])
  }

  lemma ConcatSnoc(parts: seq<string>, last: string)
    ensures Concat(parts + [last]) == Concat(parts) + last
  {
    assert (parts + [last])[..|parts|] == parts;
  }

  lemma TakenStep(before: seq<string>, collected: string, taken: string, role: Role)
    requires role.Outside? || role.Whole? || role.Opening? ==> collected == ""
    requires role.Outside? || role.Cut? ==> taken == ""
    ensures Concat(before + Recorded(role, collected, taken)) + (if OpenAfter(role) then collected + taken else "")
         == Concat(before) + collected + taken
  {
    ConcatSnoc(before, taken);
    ConcatSnoc(before, collected + taken);
    ConcatSnoc(before, collected);
    var c := Concat(before);
    hide Concat;
    assert before + [] == before && c + "" == c;
    assert c + (collected + taken) == c + collected + taken;
    match role
    case Whole => assert c + taken + "" == c + collected + taken;
    case Closing =>
    case Cut => assert c + collected + "" == c + collected + taken;
    case _ =>
  }

  lemma {:induction false} TakenSoFar(rules: Rules, lines: seq<string>, k: nat)
    requires k <= |lines|
    ensures Concat(MatchesAt(rules, lines, k)) + Collected(rules, lines, k) == TakenAt(rules, lines, k)
  {
    if k == 0 {
      Start(rules, lines);
    } else {
      TakenSoFar(rules, lines, k - 1);
      StepAt(rules, lines, k - 1);
      var open, line := OpenAt(rules, lines, k - 1), lines[k - 1];
      var role, taken := RoleOf(rules, open, line), Takes(rules, open, line);
      assert role.Outside? || role.Whole? || role.Opening? ==> !open;
      assert role.Outside? || role.Cut? ==> taken == "";
      hide RoleOf, Takes, OpenAt, Collected, MatchesAt, Concat;
      TakenStep(MatchesAt(rules, lines, k - 1), Collected(rules, lines, k - 1), taken, role);
    }
  }

  /** The recorded matches hold all the secret text that was taken out, and nothing else. */
  lemma MatchesHoldTheSecrets(rules: Rules, lines: seq<string>)
    ensures Concat(Matches(rules, lines)) == TakenAt(rules, lines, |lines|)
  {
    TakenSoFar(rules, lines, |lines|);
    var all, last := MatchesAt(rules, lines, |lines|), Collected(rules, lines, |lines|);
    if OpenAt(rules, lines, |lines|) { ConcatSnoc(all, last); }
    else { assert all + [] == all && Concat(all) + "" == Concat(all); }
  }

  /** What a line takes the place of its secret with. */
  function Hole(role: Role): string { if role.Whole? || role.Opening? then PLACEHOLDER else "" }

  /** The stretch `[i..j)` of the line is gone, and what is taken lies within it. */
  predicate Removes(line: string, out: string, taken: string, hole: string, i: nat, from: nat, to: nat, j: nat) {
    && i <= from <= to <= j <= |line|
    && out == line[..i] + hole + line[j..] && taken == line[from..to]
  }

  lemma WholeIsGone(rules: Rules, line: string) returns (i: nat, from: nat, to: nat, j: nat)
    requires RoleOf(rules, false, line).Whole?
    ensures Removes(line, Leaves(rules, false, line), Takes(rules, false, line), PLACEHOLDER, i, from, to, j)
  {
    var begin := Begin(rules, line).value;
    var end := End(rules, line[begin.to..]).value;
    i, from, to, j := begin.from, begin.to, begin.to + end.from, begin.to + end.to;
    assert line[from..][..end.from] == line[from..to] && line[from..][end.to..] == line[j..];
  }

  lemma ClosingIsGone(rules: Rules, line: string) returns (i: nat, from: nat, to: nat, j: nat)
    requires RoleOf(rules, true, line).Closing?
    ensures Removes(line, Leaves(rules, true, line), Takes(rules, true, line), "", i, from, to, j)
  {
    var n := MarkerLength(line);
    var end := End(rules, line[n..]).value;
    i, from, to, j := n, n, n + end.from, n + end.to;
    assert line[n..][..end.from] == line[from..to] && line[n..][end.to..] == line[j..];
    assert line[..i] + "" + line[j..] == line[..i] + line[j..];
  }

  /** On every line, whatever its role, what is taken lies within the one stretch that the output leaves out. */
  lemma TakenIsGone(rules: Rules, open: bool, line: string) returns (i: nat, from: nat, to: nat, j: nat)
    ensures Removes(line, Leaves(rules, open, line), Takes(rules, open, line), Hole(RoleOf(rules, open, line)),
                    i, from, to, j)
  {
    i, from, to, j := 0, 0, 0, 0;
    RolesWhen(rules, open, line);
    match RoleOf(rules, open, line)
    case Whole => i, from, to, j := WholeIsGone(rules, line);
    case Opening =>
      var begin := Begin(rules, line).value;
      i, from, to, j := begin.from, begin.to, |line|, |line|;
    case Inside => i, from, to, j := MarkerLength(line), MarkerLength(line), |line|, |line|;
    case Closing => i, from, to, j := ClosingIsGone(rules, line);
    case _ =>
  }

  // ----- newlines -----

  predicate OneLine(s: string) { '\n' !in s }

  lemma LeavesOneLine(rules: Rules, open: bool, content: string)
    requires OneLine(content)
    ensures OneLine(Leaves(rules, open, content))
  {
  }

  lemma RedactedOneLiners(rules: Rules, text: string)
    ensures forall line :: line in Redacted(rules, LinesIn(text)) ==> OneLine(line)
  {
    hide RoleOf, Leaves, OpenAt, Split;
    var lines, parts := LinesIn(text), Split(text, '\n');
    SplitPartsLackSep(text, '\n');
    forall k | 0 <= k < |lines| ensures OneLine(Redacted(rules, lines)[k]) {
      assert lines[k] == parts[k] && parts[k] in parts;
      LeavesOneLine(rules, OpenAt(rules, lines, k), lines[k]);
    }
  }

  /** The part after the last separator is empty just when nothing follows it. */
  lemma {:induction false} LastPartIs(text: string, sep: char)
    ensures Split(text, sep)[|Split(text, sep)| - 1] == "" <==> text == "" || text[|text| - 1] == sep
  {
    if text != "" { LastPartIs(text[1..], sep); }
  }

  /** The empty line after a final newline. */
  function LastLine(text: string): seq<string> { if text == "" || text[|text| - 1] == '\n' then [""] else [] }

  lemma LinesAre(text: string)
    ensures Split(text, '\n') == LinesIn(text) + LastLine(text)
  {
    hide Split;
    LastPartIs(text, '\n');
  }

  lemma LinesPutBack(text: string, lines: seq<string>)
    requires |lines| == |LinesIn(text)| && forall line :: line in lines ==> OneLine(line)
    ensures Split(WithNewlines(text, lines), '\n') == lines + LastLine(text)
  {
    hide Split, Join;
    LastPartIs(text, '\n');
    var whole := lines + LastLine(text);
    assert lines + [] == lines;
    SplitJoin(whole, '\n');
  }

  /**
   * The redacted text splits into exactly the redacted lines, so every newline stays in place between
   * them; a text that ends in a newline has no line after it, before or after redaction.
   */
  lemma LinesStay(rules: Rules, text: string)
    ensures Split(text, '\n') == LinesIn(text) + LastLine(text)
    ensures Split(WithNewlines(text, Redacted(rules, LinesIn(text))), '\n') ==
      Redacted(rules, LinesIn(text)) + LastLine(text)
  {
    hide Redacted, LinesIn, WithNewlines, LastLine;
    LinesAre(text);
    RedactedOneLiners(rules, text);
    LinesPutBack(text, Redacted(rules, LinesIn(text)));
  }
}
