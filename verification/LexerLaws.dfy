/**
 * What `lexical_code` (src/review/docs_drift.rs:526-610) leaves of a text, in terms of its bytes: code up
 * to the first comment or literal is kept, that comment or literal is blanked up to its end, and the
 * text after it is cleaned as a text of its own.
 */
module LexerLaws {
  import opened Utf8
  import opened Lexer

  // ----- code -----

  /** A quote, `//`, `/ *`, `'x'` or `'\x'` stands at `k`. */
  predicate Begins(s: seq<byte>, k: nat)
    requires k < |s|
  {
    || s[k] == QUOTE
    || (s[k] == SLASH && k + 1 < |s| && (s[k + 1] == SLASH || s[k + 1] == STAR))
    || (s[k] == TICK && k + 2 < |s| && s[k + 2] == TICK)
    || (s[k] == TICK && k + 3 < |s| && s[k + 1] == BACKSLASH && s[k + 3] == TICK)
  }

  /** No comment or literal begins in the first `n` bytes. */
  predicate IsCode(s: seq<byte>, n: nat)
    requires n <= |s|
  {
    forall k :: 0 <= k < n ==> !Begins(s, k)
  }

  lemma BeginsIs(s: seq<byte>, k: nat)
    requires k < |s|
    ensures Opens(s, k) <==> Begins(s, k)
  {
  }

  lemma {:induction false} CodeStays(s: seq<byte>, i: nat, n: nat)
    requires i <= n <= |s| && IsCode(s, n)
    ensures CleanFrom(s, i) == s[i..n] + CleanFrom(s, n)
    decreases n - i
  {
    hide CleanFrom, Opens, Begins;
    if i < n {
      BeginsIs(s, i);
      CodeIsKept(s, i);
      CodeStays(s, i + 1, n);
      assert s[i..n] == [s[i]] + s[i + 1..n];
    }
  }

  /** A text in which nothing begins is left as it is. */
  lemma OnlyCode(s: seq<byte>)
    requires IsCode(s, |s|)
    ensures Clean(s) == s
  {
    CodeStays(s, 0, |s|);
  }

  // ----- the text after a token -----

  lemma {:induction false} LineShift(s: seq<byte>, e: nat, i: nat)
    requires e <= i <= |s|
    ensures LineEnd(s, i) == e + LineEnd(s[e..], i - e)
    decreases |s| - i
  {
    if i < |s| && s[i] != NEWLINE { LineShift(s, e, i + 1); }
  }

  lemma BlockStep(s: seq<byte>, i: nat, depth: nat)
    requires i < |s| && depth > 0
    ensures BlockEnd(s, i, depth) ==
      if Two(s, i, SLASH, STAR) then BlockEnd(s, i + 2, depth + 1)
      else if Two(s, i, STAR, SLASH) then BlockEnd(s, i + 2, depth - 1)
      else BlockEnd(s, i + 1, depth)
  {
  }

  lemma BlockStops(s: seq<byte>, i: nat, depth: nat)
    requires i <= |s| && (i == |s| || depth == 0)
    ensures BlockEnd(s, i, depth) == i
  {
  }

  lemma {:induction false} BlockShift(s: seq<byte>, e: nat, i: nat, depth: nat)
    requires e <= i <= |s|
    ensures BlockEnd(s, i, depth) == e + BlockEnd(s[e..], i - e, depth)
    decreases |s| - i
  {
    hide BlockEnd;
    if i < |s| && depth > 0 {
      BlockStep(s, i, depth);
      BlockStep(s[e..], i - e, depth);
      if Two(s, i, SLASH, STAR) { BlockShift(s, e, i + 2, depth + 1); }
      else if Two(s, i, STAR, SLASH) { BlockShift(s, e, i + 2, depth - 1); }
      else { BlockShift(s, e, i + 1, depth); }
    } else {
      BlockStops(s, i, depth);
      BlockStops(s[e..], i - e, depth);
    }
  }

  lemma ClosesShift(s: seq<byte>, e: nat, i: nat, raw: bool, hashes: nat, others: nat)
    requires e <= i < |s| && (raw ==> hashes == others)
    ensures Closes(s, i, raw, hashes) == Closes(s[e..], i - e, raw, others)
  {
    var rest := s[e..];
    if raw && i + 1 + hashes <= |s| {
      assert forall k :: i + 1 <= k < i + 1 + hashes ==> s[k] == rest[k - e];
      assert forall k :: i + 1 - e <= k < i + 1 - e + hashes ==> rest[k] == s[k + e];
    }
  }

  lemma {:induction false} StringShift(s: seq<byte>, e: nat, i: nat, raw: bool, hashes: nat, others: nat)
    requires e <= i <= |s| && (raw ==> hashes == others)
    ensures StringEnd(s, i, raw, hashes) == e + StringEnd(s[e..], i - e, raw, others)
    decreases |s| - i
  {
    hide StringEnd, Closes;
    var rest := s[e..];
    if i == |s| {
      StringStops(s, raw, hashes);
      StringStops(rest, raw, others);
    } else {
      StringStep(s, i, raw, hashes);
      StringStep(rest, i - e, raw, others);
      ClosesShift(s, e, i, raw, hashes, others);
      if !Closes(s, i, raw, hashes) {
        StringShift(s, e, if raw || s[i] != BACKSLASH then i + 1 else if i + 2 <= |s| then i + 2 else |s|,
                    raw, hashes, others);
      }
    }
  }

  lemma {:induction false} HashShift(s: seq<byte>, e: nat, i: nat)
    requires e <= i <= |s|
    ensures HashStart(s, i) ==
      if HashStart(s[e..], i - e) > 0 then e + HashStart(s[e..], i - e) else HashStart(s, e)
    decreases i
  {
    if i > e && s[i - 1] == HASH { HashShift(s, e, i - 1); }
  }

  lemma RawShift(s: seq<byte>, e: nat, i: nat)
    requires e <= i <= |s| && !IsRaw(s, e)
    ensures IsRaw(s, i) == IsRaw(s[e..], i - e)
    ensures IsRaw(s, i) ==> i - HashStart(s, i) == i - e - HashStart(s[e..], i - e)
  {
    HashShift(s, e, i);
    hide HashStart;
  }

  lemma TokenShift(s: seq<byte>, e: nat, i: nat)
    requires e <= i < |s| && !IsRaw(s, e)
    ensures TokenAt(s, i).kind == TokenAt(s[e..], i - e).kind && TokenAt(s, i).end == e + TokenAt(s[e..], i - e).end
  {
    hide LineEnd, BlockEnd, StringEnd, IsRaw, HashStart;
    var rest := s[e..];
    assert s[i] == rest[i - e];
    if Two(s, i, SLASH, SLASH) {
      LineShift(s, e, i);
    } else if Two(s, i, SLASH, STAR) {
      BlockShift(s, e, i + 2, 1);
    } else if s[i] == QUOTE {
      RawShift(s, e, i);
      StringShift(s, e, i + 1, IsRaw(s, i), i - HashStart(s, i), i - e - HashStart(rest, i - e));
    }
  }

  /** Away from the `r` and hashes of a raw string, text is cleaned without regard to what precedes it. */
  lemma {:induction false} CleanShift(s: seq<byte>, e: nat, i: nat)
    requires e <= i <= |s| && !IsRaw(s, e)
    ensures CleanFrom(s, i) == CleanFrom(s[e..], i - e)
    decreases |s| - i
  {
    hide TokenAt, IsRaw, CleanFrom, Leaves;
    var rest := s[e..];
    if i == |s| {
      assert CleanFrom(s, |s|) == [] == CleanFrom(rest, |rest|);
    } else {
      var t := TokenAt(s, i);
      TokenShift(s, e, i);
      CleanStep(s, i);
      CleanStep(rest, i - e);
      assert s[i..t.end] == rest[i - e..t.end - e];
      CleanShift(s, e, t.end);
    }
  }

  /** The text from `e` on is cleaned by itself. */
  predicate Parts(s: seq<byte>, e: nat)
    requires e <= |s|
  {
    e == |s| || s[e] == NEWLINE || !IsRaw(s, e)
  }

  lemma NewlineIsKept(s: seq<byte>, e: nat)
    requires e < |s| && s[e] == NEWLINE
    ensures CleanFrom(s, e) == [NEWLINE] + CleanFrom(s, e + 1) && !IsRaw(s, e + 1)
  {
    CodeIsKept(s, e);
  }

  lemma CleanParts(s: seq<byte>, e: nat)
    requires e <= |s| && Parts(s, e)
    ensures CleanFrom(s, e) == Clean(s[e..])
  {
    hide CleanFrom, IsRaw;
    var rest := s[e..];
    if e == |s| {
      assert CleanFrom(s, e) == [] == Clean(rest);
    } else if !IsRaw(s, e) {
      CleanShift(s, e, e);
    } else {
      NewlineIsKept(s, e);
      NewlineIsKept(rest, 0);
      CleanShift(s, e + 1, e + 1);
      CleanShift(rest, 1, 1);
      assert s[e + 1..] == rest[1..];
    }
  }

  /** Code, then a token, then a text that is cleaned by itself. */
  lemma CodeThenToken(s: seq<byte>, n: nat)
    requires n < |s| && IsCode(s, n) && Parts(s, TokenAt(s, n).end)
    ensures var t := TokenAt(s, n); Clean(s) == s[..n] + Leaves(t.kind, s[n..t.end]) + Clean(s[t.end..])
  {
    hide TokenAt, Parts, CleanFrom, Leaves, IsCode;
    var t := TokenAt(s, n);
    CodeStays(s, 0, n);
    CleanStep(s, n);
    CleanParts(s, t.end);
    assert s[0..n] == s[..n];
    assert s[..n] + (Leaves(t.kind, s[n..t.end]) + Clean(s[t.end..])) ==
      s[..n] + Leaves(t.kind, s[n..t.end]) + Clean(s[t.end..]);
  }

  // ----- what each token leaves -----

  /** Newlines stay and every other byte becomes a space. */
  function Spaces(part: seq<byte>): (r: seq<byte>)
    ensures |r| == |part|
  {
    seq(|part|, k requires 0 <= k < |part| => if part[k] == NEWLINE then NEWLINE else SPACE)
  }

  lemma CommentLeaves(part: seq<byte>)
    ensures Leaves(Comment, part) == Spaces(part)
  {
  }

  lemma CommentIsBlanked(s: seq<byte>, n: nat, e: nat)
    requires n < e <= |s| && IsCode(s, n) && TokenAt(s, n) == Token(Comment, e) && Parts(s, e)
    ensures Clean(s) == s[..n] + Spaces(s[n..e]) + Clean(s[e..])
  {
    hide Clean, TokenAt, Leaves, IsCode, Parts;
    CodeThenToken(s, n);
    CommentLeaves(s[n..e]);
  }

  /** Where the parts of a text stand. */
  lemma Cuts(a: seq<byte>, b: seq<byte>, c: seq<byte>)
    ensures var s, n := a + b + c, |a|; s[..n] == a && s[n..n + |b|] == b && s[n + |b|..] == c
  {
  }

  lemma PairIsBlanked(a: byte, b: byte, part: seq<byte>)
    requires a != NEWLINE && b != NEWLINE
    ensures Spaces([a, b] + part) == [SPACE, SPACE] + Spaces(part)
  {
  }

  lemma TextLeaves(part: seq<byte>)
    requires part != []
    ensures Leaves(Text, part) == [ZERO] + Spaces(part[1..])
  {
  }

  lemma TextIsBlanked(s: seq<byte>, n: nat, e: nat)
    requires n < e <= |s| && IsCode(s, n) && TokenAt(s, n) == Token(Text, e) && Parts(s, e)
    ensures Clean(s) == s[..n] + ([ZERO] + Spaces(s[n + 1..e])) + Clean(s[e..])
  {
    hide Clean, TokenAt, IsCode, Parts;
    CodeThenToken(s, n);
    TextLeaves(s[n..e]);
    hide Leaves;
    assert s[n..e][1..] == s[n + 1..e];
  }

  // ----- line comments -----

  lemma {:induction false} LineReads(s: seq<byte>, i: nat, e: nat)
    requires i <= e <= |s| && NEWLINE !in s[i..e] && (e < |s| ==> s[e] == NEWLINE)
    ensures LineEnd(s, i) == e
    decreases e - i
  {
    if i < e {
      assert s[i] == s[i..e][0] && s[i + 1..e] == s[i..e][1..];
      LineReads(s, i + 1, e);
    }
  }

  lemma LineToken(s: seq<byte>, n: nat, e: nat)
    requires n + 2 <= e <= |s| && s[n] == SLASH == s[n + 1]
    requires NEWLINE !in s[n..e] && (e < |s| ==> s[e] == NEWLINE)
    requires IsCode(s, n)
    ensures Clean(s) == s[..n] + Spaces(s[n..e]) + Clean(s[e..])
  {
    LineReads(s, n, e);
    hide LineEnd, Clean, IsCode;
    CommentIsBlanked(s, n, e);
  }

  /** A line comment is blanked up to its newline, and the lines after it are cleaned by themselves. */
  lemma LineComment(code: seq<byte>, text: seq<byte>, rest: seq<byte>)
    requires NEWLINE !in text
    requires IsCode(code + [SLASH, SLASH] + text + [NEWLINE] + rest, |code|)
    ensures Clean(code + [SLASH, SLASH] + text + [NEWLINE] + rest) ==
      code + [SPACE, SPACE] + Spaces(text) + [NEWLINE] + Clean(rest)
  {
    hide CleanFrom, IsCode;
    var s, n := code + [SLASH, SLASH] + text + [NEWLINE] + rest, |code|;
    var e := n + 2 + |text|;
    assert s[n..e] == [SLASH, SLASH] + text && s[e..] == [NEWLINE] + rest && s[..n] == code;
    LineToken(s, n, e);
    NewlineIsKept(s[e..], 0);
    CleanParts(s[e..], 1);
    assert s[e..][1..] == rest;
    assert Spaces(s[n..e]) == [SPACE, SPACE] + Spaces(text);
  }

  /** A line comment without a newline runs to the end of the text. */
  lemma LastLineComment(code: seq<byte>, text: seq<byte>)
    requires NEWLINE !in text && IsCode(code + [SLASH, SLASH] + text, |code|)
    ensures Clean(code + [SLASH, SLASH] + text) == code + [SPACE, SPACE] + Spaces(text)
  {
    hide CleanFrom, IsCode;
    var s, n := code + [SLASH, SLASH] + text, |code|;
    assert s[n..|s|] == [SLASH, SLASH] + text && s[..n] == code;
    LineToken(s, n, |s|);
    assert Spaces(s[n..|s|]) == [SPACE, SPACE] + Spaces(text);
  }

  // ----- block comments -----

  /** A block comment as it is read: `/ *`, `* /` or one byte at a time. */
  datatype Mark = Opener | Closer | Byte(b: byte)

  function Bytes(mark: Mark): seq<byte> {
    match mark
    case Opener => [SLASH, STAR]
    case Closer => [STAR, SLASH]
    case Byte(b) => [b]
  }

  function Spell(marks: seq<Mark>): seq<byte> {
    if marks == [] then [] else Bytes(marks[0]) + Spell(marks[1..])
  }

  /** `b` and the byte after it make an opener or a closer. */
  predicate IsPair(b: byte, rest: seq<byte>) {
    rest != [] && ((b == SLASH && rest[0] == STAR) || (b == STAR && rest[0] == SLASH))
  }

  /** No opener or closer is read as two separate bytes. */
  predicate IsGreedy(marks: seq<Mark>) {
    marks == [] ||
    ((marks[0].Byte? ==> !IsPair(marks[0].b, Spell(marks[1..]))) && IsGreedy(marks[1..]))
  }

  function Weight(mark: Mark): int {
    match mark
    case Opener => 1
    case Closer => -1
    case Byte(_) => 0
  }

  /** Openers less closers. */
  function Balance(marks: seq<Mark>): int {
    if marks == [] then 0 else Weight(marks[0]) + Balance(marks[1..])
  }

  /** With `depth` comments open before the marks, at least one is open before each of them. */
  ghost predicate StaysOpen(marks: seq<Mark>, depth: int) {
    forall k :: 0 <= k < |marks| ==> depth + Balance(marks[..k]) > 0
  }

  lemma StaysOpenTail(marks: seq<Mark>, depth: int)
    requires marks != [] && StaysOpen(marks, depth)
    ensures depth > 0 && StaysOpen(marks[1..], depth + Weight(marks[0]))
  {
    assert depth + Balance(marks[..0]) > 0;
    forall k | 0 <= k < |marks| - 1 ensures depth + Weight(marks[0]) + Balance(marks[1..][..k]) > 0 {
      assert marks[..k + 1][1..] == marks[1..][..k];
      assert depth + Balance(marks[..k + 1]) > 0;
    }
  }

  /** The first mark is what stands at the head of its text. */
  lemma MarkReads(mark: Mark, text: seq<byte>)
    requires mark.Byte? ==> !IsPair(mark.b, text)
    ensures mark.Opener? <==> Two(Bytes(mark) + text, 0, SLASH, STAR)
    ensures mark.Closer? <==> Two(Bytes(mark) + text, 0, STAR, SLASH)
  {
  }

  /** One mark is read at `depth`. */
  lemma MarkStep(mark: Mark, text: seq<byte>, depth: nat)
    requires depth > 0 && (mark.Byte? ==> !IsPair(mark.b, text))
    ensures BlockEnd(Bytes(mark) + text, 0, depth) == |Bytes(mark)| + BlockEnd(text, 0, depth + Weight(mark))
  {
    hide BlockEnd;
    var s, n := Bytes(mark) + text, |Bytes(mark)|;
    MarkReads(mark, text);
    BlockStep(s, 0, depth);
    BlockShift(s, n, n, depth + Weight(mark));
    assert s[n..] == text;
  }

  /** The end of a comment is where the openers and closers read so far first balance. */
  lemma {:induction false} BlockReads(marks: seq<Mark>, rest: seq<byte>, depth: nat)
    requires IsGreedy(marks) && StaysOpen(marks, depth) && (depth + Balance(marks) == 0 || rest == [])
    ensures BlockEnd(Spell(marks) + rest, 0, depth) == |Spell(marks)|
    decreases |marks|
  {
    hide BlockEnd, IsPair, StaysOpen;
    if marks == [] {
      assert Spell(marks) + rest == rest;
      BlockStops(rest, 0, depth);
    } else {
      var tail := marks[1..];
      StaysOpenTail(marks, depth);
      PairEnds(marks, rest, depth);
      MarkStep(marks[0], Spell(tail) + rest, depth);
      BlockReads(tail, rest, depth + Weight(marks[0]));
      assert Bytes(marks[0]) + Spell(tail) + rest == Bytes(marks[0]) + (Spell(tail) + rest);
    }
  }

  lemma PairEnds(marks: seq<Mark>, rest: seq<byte>, depth: nat)
    requires marks != [] && IsGreedy(marks) && depth > 0 && (depth + Balance(marks) == 0 || rest == [])
    ensures marks[0].Byte? ==> !IsPair(marks[0].b, Spell(marks[1..]) + rest)
  {
    if marks[0].Byte? && marks[1..] != [] {
      assert (Spell(marks[1..]) + rest)[0] == Spell(marks[1..])[0];
    }
  }

  lemma BlockToken(code: seq<byte>, body: seq<byte>, rest: seq<byte>)
    requires BlockEnd(body + rest, 0, 1) == |body|
    ensures TokenAt(code + ([SLASH, STAR] + body) + rest, |code|) == Token(Comment, |code| + 2 + |body|)
  {
    hide BlockEnd;
    var s, n := code + ([SLASH, STAR] + body) + rest, |code|;
    BlockShift(s, n + 2, n + 2, 1);
    assert s[n + 2..] == body + rest;
    assert s[n] == SLASH && s[n + 1] == STAR;
  }

  lemma {:induction false} LastIsCloser(marks: seq<Mark>, depth: int)
    requires marks != [] && StaysOpen(marks, depth) && depth + Balance(marks) == 0
    ensures |Spell(marks)| > 1 && Spell(marks)[|Spell(marks)| - 1] == SLASH
    decreases |marks|
  {
    StaysOpenTail(marks, depth);
    hide StaysOpen;
    if |marks| > 1 { LastIsCloser(marks[1..], depth + Weight(marks[0])); }
    else { assert marks[1..] == []; }
  }

  lemma BlockIsBlanked(code: seq<byte>, body: seq<byte>, rest: seq<byte>)
    requires BlockEnd(body + rest, 0, 1) == |body| && (rest == [] || (body != [] && body[|body| - 1] == SLASH))
    requires IsCode(code + ([SLASH, STAR] + body) + rest, |code|)
    ensures Clean(code + ([SLASH, STAR] + body) + rest) == code + ([SPACE, SPACE] + Spaces(body)) + Clean(rest)
  {
    var s, e := code + ([SLASH, STAR] + body) + rest, |code| + 2 + |body|;
    BlockToken(code, body, rest);
    assert rest != [] ==> s[e - 1] == SLASH;
    assert Parts(s, e);
    hide BlockEnd, TokenAt, CleanFrom, Clean, IsCode, Parts;
    CommentIsBlanked(s, |code|, e);
    Cuts(code, [SLASH, STAR] + body, rest);
    PairIsBlanked(SLASH, STAR, body);
  }

  /** A block comment is blanked up to where it balances, and the text after it is cleaned by itself. */
  lemma BlockComment(code: seq<byte>, marks: seq<Mark>, rest: seq<byte>)
    requires IsGreedy(marks) && StaysOpen(marks, 1) && 1 + Balance(marks) == 0
    requires IsCode(code + ([SLASH, STAR] + Spell(marks)) + rest, |code|)
    ensures Clean(code + ([SLASH, STAR] + Spell(marks)) + rest) ==
      code + ([SPACE, SPACE] + Spaces(Spell(marks))) + Clean(rest)
  {
    LastIsCloser(marks, 1);
    BlockReads(marks, rest, 1);
    hide BlockEnd, Clean, IsCode, Spell, StaysOpen, IsGreedy;
    BlockIsBlanked(code, Spell(marks), rest);
  }

  /** A block comment that never balances runs to the end of the text. */
  lemma OpenBlockComment(code: seq<byte>, marks: seq<Mark>)
    requires IsGreedy(marks) && StaysOpen(marks, 1) && 1 + Balance(marks) > 0
    requires IsCode(code + ([SLASH, STAR] + Spell(marks)), |code|)
    ensures Clean(code + ([SLASH, STAR] + Spell(marks))) == code + ([SPACE, SPACE] + Spaces(Spell(marks)))
  {
    var s := code + ([SLASH, STAR] + Spell(marks));
    assert s + [] == s;
    BlockReads(marks, [], 1);
    hide BlockEnd, CleanFrom, IsCode, Spell, StaysOpen, IsGreedy;
    BlockIsBlanked(code, Spell(marks), []);
  }

  /** Every text can be read as marks. */
  lemma {:induction false} EveryTextReads(text: seq<byte>) returns (marks: seq<Mark>)
    ensures IsGreedy(marks) && Spell(marks) == text
    decreases |text|
  {
    if text == [] {
      marks := [];
    } else {
      var mark :=
        if Two(text, 0, SLASH, STAR) then Opener else if Two(text, 0, STAR, SLASH) then Closer else Byte(text[0]);
      var rest := EveryTextReads(text[|Bytes(mark)|..]);
      marks := [mark] + rest;
      assert marks[1..] == rest;
    }
  }

  // ----- strings -----

  /** The code ends in `r` and `hashes` hashes. */
  predicate EndsRaw(code: seq<byte>, hashes: nat) {
    && hashes < |code| && code[|code| - 1 - hashes] == LOWER_R
    && forall k :: |code| - hashes <= k < |code| ==> code[k] == HASH
  }

  lemma {:induction false} HashRun(s: seq<byte>, n: nat, hashes: nat)
    requires hashes <= n <= |s| && forall k :: n - hashes <= k < n ==> s[k] == HASH
    requires hashes == n || s[n - hashes - 1] != HASH
    ensures HashStart(s, n) == n - hashes
    decreases hashes
  {
    if hashes > 0 { HashRun(s, n - 1, hashes - 1); }
  }

  lemma {:induction false} HashesBack(s: seq<byte>, n: nat)
    requires n <= |s|
    ensures forall k :: HashStart(s, n) <= k < n ==> s[k] == HASH
    decreases n
  {
    if n > 0 && s[n - 1] == HASH { HashesBack(s, n - 1); }
  }

  lemma RawIs(code: seq<byte>, rest: seq<byte>, hashes: nat)
    requires EndsRaw(code, hashes)
    ensures var s := code + rest; IsRaw(s, |code|) && HashStart(s, |code|) == |code| - hashes
  {
    HashRun(code + rest, |code|, hashes);
  }

  lemma PlainIs(code: seq<byte>, rest: seq<byte>)
    requires forall h: nat :: !EndsRaw(code, h)
    ensures !IsRaw(code + rest, |code|)
  {
    var s := code + rest;
    HashesBack(s, |code|);
    var h := |code| - HashStart(s, |code|);
    hide HashStart;
    assert forall k :: |code| - h <= k < |code| ==> code[k] == s[k];
    assert IsRaw(s, |code|) ==> EndsRaw(code, h);
  }

  /** Bytes other than quotes and backslashes, and backslashes each followed by any byte. */
  predicate IsQuoted(body: seq<byte>) {
    body == [] ||
    if body[0] == BACKSLASH then |body| > 1 && IsQuoted(body[2..]) else body[0] != QUOTE && IsQuoted(body[1..])
  }

  /** One byte that is not special, or a backslash and the byte after it, is read. */
  lemma QuotedStep(head: seq<byte>, rest: seq<byte>)
    requires if |head| == 2 then head[0] == BACKSLASH else |head| == 1 && head[0] != BACKSLASH && head[0] != QUOTE
    ensures StringEnd(head + rest, 0, false, 0) == |head| + StringEnd(rest, 0, false, 0)
  {
    hide StringEnd;
    var s, n := head + rest, |head|;
    StringStep(s, 0, false, 0);
    StringShift(s, n, n, false, 0, 0);
    assert s[n..] == rest;
  }

  lemma LastReads(rest: seq<byte>)
    requires rest == [] || rest[0] == QUOTE || rest == [BACKSLASH]
    ensures StringEnd(rest, 0, false, 0) == if rest == [] then 0 else 1
  {
  }

  /** The end of a string is its first quote that is not escaped. */
  lemma {:induction false} QuotedReads(body: seq<byte>, rest: seq<byte>)
    requires IsQuoted(body) && (rest == [] || rest[0] == QUOTE || rest == [BACKSLASH])
    ensures StringEnd(body + rest, 0, false, 0) == |body| + if rest == [] then 0 else 1
    decreases |body|
  {
    hide StringEnd;
    if body == [] {
      assert body + rest == rest;
      LastReads(rest);
    } else {
      var n := if body[0] == BACKSLASH then 2 else 1;
      QuotedReads(body[n..], rest);
      QuotedStep(body[..n], body[n..] + rest);
      assert body + rest == body[..n] + (body[n..] + rest);
    }
  }

  function Hashes(n: nat): (r: seq<byte>)
    ensures |r| == n
  {
    seq(n, _ => HASH)
  }

  /** No raw string begins right after the quote and hashes that close one. */
  lemma QuoteParts(before: seq<byte>, hashes: nat, rest: seq<byte>)
    ensures Parts(before + [QUOTE] + Hashes(hashes) + rest, |before| + 1 + hashes)
  {
    var s := before + [QUOTE] + Hashes(hashes) + rest;
    assert s[|before|] == QUOTE;
    HashRun(s, |before| + 1 + hashes, hashes);
  }

  /** The code before a quote makes it a raw one with `hashes` hashes, or a plain one. */
  ghost predicate Precedes(code: seq<byte>, raw: bool, hashes: nat) {
    if raw then EndsRaw(code, hashes) else forall h: nat :: !EndsRaw(code, h)
  }

  lemma QuoteToken(s: seq<byte>, n: nat)
    requires n < |s| && s[n] == QUOTE
    ensures TokenAt(s, n) == Token(Text, StringEnd(s, n + 1, IsRaw(s, n), n - HashStart(s, n)))
  {
    hide StringEnd, IsRaw, HashStart;
  }

  lemma StringToken(code: seq<byte>, body: seq<byte>, rest: seq<byte>, raw: bool, hashes: nat)
    requires Precedes(code, raw, hashes) && StringEnd(body + rest, 0, raw, hashes) == |body|
    ensures TokenAt(code + ([QUOTE] + body) + rest, |code|) == Token(Text, |code| + 1 + |body|)
  {
    hide StringEnd, EndsRaw, IsRaw, HashStart, TokenAt;
    var s, n := code + ([QUOTE] + body) + rest, |code|;
    assert s == code + ([QUOTE] + body + rest) && s[n + 1..] == body + rest;
    if raw { RawIs(code, [QUOTE] + body + rest, hashes); } else { PlainIs(code, [QUOTE] + body + rest); }
    QuoteToken(s, n);
    StringShift(s, n + 1, n + 1, raw, n - HashStart(s, n), hashes);
  }

  lemma StringIsBlanked(code: seq<byte>, body: seq<byte>, rest: seq<byte>, raw: bool, hashes: nat)
    requires Precedes(code, raw, hashes) && StringEnd(body + rest, 0, raw, hashes) == |body|
    requires Parts(code + ([QUOTE] + body) + rest, |code| + 1 + |body|)
    requires IsCode(code + ([QUOTE] + body) + rest, |code|)
    ensures Clean(code + ([QUOTE] + body) + rest) == code + ([ZERO] + Spaces(body)) + Clean(rest)
  {
    hide StringEnd, TokenAt, CleanFrom, Clean, IsCode, Parts, Precedes;
    var s, e := code + ([QUOTE] + body) + rest, |code| + 1 + |body|;
    StringToken(code, body, rest, raw, hashes);
    TextIsBlanked(s, |code|, e);
    Cuts(code, [QUOTE] + body, rest);
    assert s[|code| + 1..e] == s[|code|..e][1..] == body;
  }

  lemma PlainParts(code: seq<byte>, body: seq<byte>, rest: seq<byte>)
    ensures Parts(code + ([QUOTE] + (body + [QUOTE])) + rest, |code| + 2 + |body|)
  {
    var s := code + ([QUOTE] + (body + [QUOTE])) + rest;
    assert s[|code| + 1 + |body|] == QUOTE;
  }

  /** A string becomes a `0` and blanks up to its first quote that is not escaped. */
  lemma StringLiteral(code: seq<byte>, body: seq<byte>, rest: seq<byte>)
    requires IsQuoted(body) && forall h: nat :: !EndsRaw(code, h)
    requires IsCode(code + ([QUOTE] + (body + [QUOTE])) + rest, |code|)
    ensures Clean(code + ([QUOTE] + (body + [QUOTE])) + rest) == code + ([ZERO] + Spaces(body + [QUOTE])) + Clean(rest)
  {
    hide StringEnd, Parts, CleanFrom, Clean, IsCode, EndsRaw, IsQuoted;
    QuotedReads(body, [QUOTE] + rest);
    assert body + ([QUOTE] + rest) == body + [QUOTE] + rest;
    PlainParts(code, body, rest);
    StringIsBlanked(code, body + [QUOTE], rest, false, 0);
  }

  /** A string without such a quote runs to the end of the text. */
  lemma OpenString(code: seq<byte>, body: seq<byte>, last: seq<byte>)
    requires IsQuoted(body) && (last == [] || last == [BACKSLASH]) && forall h: nat :: !EndsRaw(code, h)
    requires IsCode(code + ([QUOTE] + (body + last)), |code|)
    ensures Clean(code + ([QUOTE] + (body + last))) == code + ([ZERO] + Spaces(body + last))
  {
    var whole, s := body + last, code + ([QUOTE] + (body + last));
    QuotedReads(body, last);
    hide StringEnd, CleanFrom, IsCode, EndsRaw, IsQuoted;
    assert whole + [] == whole;
    assert s == code + ([QUOTE] + whole) + [];
    StringIsBlanked(code, whole, [], false, 0);
  }

  // ----- raw strings -----

  /** A quote at `k` followed by `hashes` hashes. */
  predicate EndsAt(body: seq<byte>, k: nat, hashes: nat) {
    k + 1 + hashes <= |body| && body[k] == QUOTE && forall j :: k < j <= k + hashes ==> body[j] == HASH
  }

  lemma {:induction false} RawReads(s: seq<byte>, i: nat, e: nat, hashes: nat)
    requires i <= e <= |s| && forall k :: i <= k < e ==> !EndsAt(s, k, hashes)
    requires e < |s| ==> EndsAt(s, e, hashes)
    ensures StringEnd(s, i, true, hashes) == if e == |s| then e else e + 1 + hashes
    decreases e - i
  {
    hide StringEnd, Closes, EndsAt;
    if i == |s| {
      StringStops(s, true, hashes);
    } else {
      StringStep(s, i, true, hashes);
      ClosesIs(s, i, hashes);
      if i < e { RawReads(s, i + 1, e, hashes); }
    }
  }

  lemma ClosesIs(s: seq<byte>, i: nat, hashes: nat)
    requires i < |s|
    ensures Closes(s, i, true, hashes) <==> EndsAt(s, i, hashes)
  {
  }

  lemma EndsHere(before: seq<byte>, hashes: nat, rest: seq<byte>)
    ensures EndsAt(before + [QUOTE] + Hashes(hashes) + rest, |before|, hashes)
  {
  }

  /** What follows the body does not end it earlier. */
  lemma EndsNotBefore(body: seq<byte>, hashes: nat, rest: seq<byte>, k: nat)
    requires k < |body| && !EndsAt(body, k, hashes)
    ensures !EndsAt(body + [QUOTE] + rest, k, hashes)
  {
    var s := body + [QUOTE] + rest;
    assert s[|body|] == QUOTE;
    assert forall j :: k <= j < |body| ==> body[j] == s[j];
  }

  /** A raw string becomes a `0` and blanks up to its first quote followed by as many hashes as opened it. */
  lemma RawLiteral(code: seq<byte>, body: seq<byte>, rest: seq<byte>, hashes: nat)
    requires EndsRaw(code, hashes) && forall k :: 0 <= k < |body| ==> !EndsAt(body, k, hashes)
    requires IsCode(code + ([QUOTE] + (body + [QUOTE] + Hashes(hashes))) + rest, |code|)
    ensures Clean(code + ([QUOTE] + (body + [QUOTE] + Hashes(hashes))) + rest) ==
      code + ([ZERO] + Spaces(body + [QUOTE] + Hashes(hashes))) + Clean(rest)
  {
    hide EndsRaw, EndsAt, StringEnd, CleanFrom, Clean, IsCode, Parts;
    var whole := body + [QUOTE] + Hashes(hashes);
    forall k | 0 <= k < |body| ensures !EndsAt(whole + rest, k, hashes) {
      EndsNotBefore(body, hashes, Hashes(hashes) + rest, k);
      assert body + [QUOTE] + (Hashes(hashes) + rest) == whole + rest;
    }
    EndsHere(body, hashes, rest);
    RawReads(whole + rest, 0, |body|, hashes);
    QuoteParts(code + [QUOTE] + body, hashes, rest);
    assert code + [QUOTE] + body + [QUOTE] + Hashes(hashes) + rest == code + ([QUOTE] + whole) + rest;
    StringIsBlanked(code, whole, rest, true, hashes);
  }

  /** A raw string without such a quote runs to the end of the text. */
  lemma OpenRawString(code: seq<byte>, body: seq<byte>, hashes: nat)
    requires EndsRaw(code, hashes) && forall k :: 0 <= k < |body| ==> !EndsAt(body, k, hashes)
    requires IsCode(code + ([QUOTE] + body), |code|)
    ensures Clean(code + ([QUOTE] + body)) == code + ([ZERO] + Spaces(body))
  {
    hide EndsRaw, EndsAt, StringEnd, CleanFrom, IsCode;
    assert body + [] == body;
    assert code + ([QUOTE] + body) + [] == code + ([QUOTE] + body);
    RawReads(body, 0, |body|, hashes);
    StringIsBlanked(code, body, [], true, hashes);
  }

  // ----- character literals -----

  lemma CharLeaves(part: seq<byte>)
    requires part != []
    ensures Leaves(Char, part) == [ZERO] + seq(|part| - 1, _ => SPACE)
  {
  }

  lemma CharIsBlanked(code: seq<byte>, part: seq<byte>, rest: seq<byte>)
    requires part != [] && part[|part| - 1] == TICK && IsCode(code + part + rest, |code|)
    requires TokenAt(code + part + rest, |code|) == Token(Char, |code| + |part|)
    ensures Clean(code + part + rest) == code + ([ZERO] + seq(|part| - 1, _ => SPACE)) + Clean(rest)
  {
    var s, e := code + part + rest, |code| + |part|;
    assert s[e - 1] == TICK;
    assert Parts(s, e);
    hide TokenAt, CleanFrom, Clean, IsCode, Parts;
    CodeThenToken(s, |code|);
    Cuts(code, part, rest);
    CharLeaves(part);
  }

  /** A character literal of one byte, be it a quote or a newline, becomes a `0` and two blanks. */
  lemma CharLiteral(code: seq<byte>, b: byte, rest: seq<byte>)
    requires IsCode(code + [TICK, b, TICK] + rest, |code|)
    ensures Clean(code + [TICK, b, TICK] + rest) == code + [ZERO, SPACE, SPACE] + Clean(rest)
  {
    var s, n := code + [TICK, b, TICK] + rest, |code|;
    assert s[n] == TICK && s[n + 2] == TICK;
    assert TokenAt(s, n) == Token(Char, n + 3);
    hide TokenAt, CleanFrom, Clean, IsCode;
    CharIsBlanked(code, [TICK, b, TICK], rest);
    assert [ZERO] + seq(2, _ => SPACE) == [ZERO, SPACE, SPACE];
  }

  /** An escaped one becomes a `0` and three blanks. */
  lemma EscapeLiteral(code: seq<byte>, b: byte, rest: seq<byte>)
    requires b != TICK && IsCode(code + [TICK, BACKSLASH, b, TICK] + rest, |code|)
    ensures Clean(code + [TICK, BACKSLASH, b, TICK] + rest) == code + [ZERO, SPACE, SPACE, SPACE] + Clean(rest)
  {
    var s, n := code + [TICK, BACKSLASH, b, TICK] + rest, |code|;
    assert s[n] == TICK && s[n + 1] == BACKSLASH && s[n + 2] == b && s[n + 3] == TICK;
    assert TokenAt(s, n) == Token(Char, n + 4);
    hide TokenAt, CleanFrom, Clean, IsCode;
    CharIsBlanked(code, [TICK, BACKSLASH, b, TICK], rest);
    assert [ZERO] + seq(3, _ => SPACE) == [ZERO, SPACE, SPACE, SPACE];
  }
}
