/**
 * Which hunk headers `hunk_ranges` and `parse_hunks` (src/domain/patch.rs:20-48, 254-271) read, and as
 * what: either count may be omitted, and any text may follow the ranges.
 */
module HeaderLaws {
  import opened Text
  import opened Patch

  /** A range as a diff writes it: the count may be left out. */
  datatype Written = Written(start: nat, count: Option<nat>)

  function Token(sign: char, w: Written): string {
    [sign] + (Dec(w.start) + match w.count case None => "" case Some(n) => "," + Dec(n))
  }

  /** An omitted count is one line. */
  function CountOf(w: Written): nat { match w.count case None => 1 case Some(n) => n }

  /** The numbers fit the machine's words. */
  predicate Fits(w: Written) { w.start <= 0xFFFF_FFFF_FFFF_FFFF && CountOf(w) <= 0xFFFF_FFFF_FFFF_FFFF }

  /** `rest` is empty, or begins with a space: `@@`, or `@@ fn name() {`, and so on. */
  function HeaderText(o: Written, n: Written, rest: string): string {
    "@@ " + (Token('-', o) + " " + (Token('+', n) + rest))
  }

  lemma TooBig(n: nat)
    ensures ParseUsize(Dec(n)) == if n <= 0xFFFF_FFFF_FFFF_FFFF then Some(n) else None
  {
    DecValue(n);
    assert IsDigit(Dec(n)[0]);
  }

  lemma StartReads(start: nat)
    ensures var text := Dec(start);
      && Split(text, ',') == [text]
      && TokenRange(text) == if start <= 0xFFFF_FFFF_FFFF_FFFF then Some((start, 1)) else None
  {
    TooBig(start);
    SplitWithoutSep(Dec(start), ',');
  }

  lemma PairReads(start: nat, n: nat)
    ensures var text := Dec(start) + "," + Dec(n);
      && Split(text, ',') == [Dec(start), Dec(n)]
      && TokenRange(text) ==
           if start <= 0xFFFF_FFFF_FFFF_FFFF && n <= 0xFFFF_FFFF_FFFF_FFFF then Some((start, n)) else None
  {
    TooBig(start);
    TooBig(n);
    SplitWithoutSep(Dec(start), ',');
    SplitWithoutSep(Dec(n), ',');
    SplitAtSep(Dec(start), ',', Dec(n));
    assert Dec(start) + "," + Dec(n) == Dec(start) + [','] + Dec(n);
  }

  lemma TokenReads(sign: char, w: Written)
    ensures TokenRange(Token(sign, w)[1..]) == if Fits(w) then Some((w.start, CountOf(w))) else None
    ensures ParseUsize(Split(Token(sign, w)[1..], ',')[0]) ==
      if w.start <= 0xFFFF_FFFF_FFFF_FFFF then Some(w.start) else None
  {
    hide TokenRange, Split, ParseUsize;
    TooBig(w.start);
    match w.count
    case None =>
      StartReads(w.start);
      assert Token(sign, w)[1..] == Dec(w.start);
    case Some(n) =>
      PairReads(w.start, n);
      assert Token(sign, w)[1..] == Dec(w.start) + "," + Dec(n);
  }

  lemma TokenLacksSpace(sign: char, w: Written)
    requires sign != ' '
    ensures ' ' !in Token(sign, w)
  {
    DigitsLack(Dec(w.start), ' ');
    if w.count.Some? { DigitsLack(Dec(w.count.value), ' '); }
  }

  lemma SplitToken(token: string, rest: string)
    requires ' ' !in token && (rest == "" || rest[0] == ' ')
    ensures Split(token + rest, ' ')[0] == token
  {
    SplitWithoutSep(token, ' ');
    if rest == "" {
      assert token + rest == token;
    } else {
      assert token + rest == token + [' '] + rest[1..];
      SplitAtSep(token, ' ', rest[1..]);
    }
  }

  lemma AfterSpace(token: string, rest: string)
    requires ' ' !in token
    ensures Split(token + " " + rest, ' ') == [token] + Split(rest, ' ')
  {
    SplitAtSep(token, ' ', rest);
    SplitWithoutSep(token, ' ');
    assert token + " " + rest == token + [' '] + rest;
  }

  lemma Tokens(o: Written, n: Written, rest: string)
    requires rest == "" || rest[0] == ' '
    ensures var tokens := Split(HeaderText(o, n, rest), ' ');
      |tokens| > 2 && tokens[0] == "@@" && tokens[1] == Token('-', o) && tokens[2] == Token('+', n)
  {
    TokenLacksSpace('-', o);
    TokenLacksSpace('+', n);
    hide Split, Token;
    var last := Token('+', n) + rest;
    SplitToken(Token('+', n), rest);
    AfterSpace(Token('-', o), last);
    AfterSpace("@@", Token('-', o) + " " + last);
    assert HeaderText(o, n, rest) == "@@" + " " + (Token('-', o) + " " + last);
  }

  /** A header with either count written or omitted, whatever follows the ranges, is read as what it says. */
  lemma HeaderReads(o: Written, n: Written, rest: string)
    requires rest == "" || rest[0] == ' '
    ensures HunkRanges(HeaderText(o, n, rest)) ==
      if Fits(o) && Fits(n) then Some(Ranges(o.start, CountOf(o), n.start, CountOf(n))) else None
    ensures NewStart(HeaderText(o, n, rest)) == if n.start <= 0xFFFF_FFFF_FFFF_FFFF then n.start else 1
  {
    Tokens(o, n, rest);
    var tokens := Split(HeaderText(o, n, rest), ' ');
    SecondToken(tokens, "@@", Token('-', o), Token('+', n), '-');
    SecondToken(tokens, "@@", Token('-', o), Token('+', n), '+');
    assert ['-'] <= Token('-', o) && ['+'] <= Token('+', n) && !(['+'] <= Token('-', o));
    TokenReads('-', o);
    TokenReads('+', n);
  }

  lemma {:induction false} NoToken(tokens: seq<string>, sign: char)
    requires forall t :: t in tokens ==> t == "" || t[0] != sign
    ensures FirstWithPrefix(tokens, sign) == None
  {
    if tokens != [] {
      assert tokens[0] in tokens;
      NoToken(tokens[1..], sign);
    }
  }

  /** A header that lacks a range is not read; without a new range its hunk starts at line 1. */
  lemma HeaderLacksRange(header: string, sign: char)
    requires sign == '-' || sign == '+'
    requires forall t :: t in Split(header, ' ') ==> t == "" || t[0] != sign
    ensures HunkRanges(header) == None
    ensures sign == '+' ==> NewStart(header) == 1
  {
    NoToken(Split(header, ' '), sign);
    hide Split, TokenRange;
  }
}
