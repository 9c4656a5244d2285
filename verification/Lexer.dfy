/**
 * `lexical_code` (src/review/docs_drift.rs:526-610): blank comments and literals, keeping byte positions.
 */
module Lexer {
  import opened Utf8

  const NEWLINE: byte := 10
  const SPACE: byte := 32
  const QUOTE: byte := 34
  const HASH: byte := 35
  const TICK: byte := 39
  const STAR: byte := 42
  const SLASH: byte := 47
  const ZERO: byte := 48
  const BACKSLASH: byte := 92
  const LOWER_R: byte := 114

  // ----- where each token ends -----

  predicate Two(s: seq<byte>, i: nat, a: byte, b: byte) { i + 1 < |s| && s[i] == a && s[i + 1] == b }

  function LineEnd(s: seq<byte>, i: nat): (e: nat)
    requires i <= |s|
    ensures i <= e <= |s| && (e == |s| || s[e] == NEWLINE)
    decreases |s| - i
  {
    if i < |s| && s[i] != NEWLINE then LineEnd(s, i + 1) else i
  }

  function BlockEnd(s: seq<byte>, i: nat, depth: nat): (e: nat)
    requires i <= |s|
    ensures i <= e <= |s|
    ensures depth > 0 && e < |s| ==> e > i && s[e - 1] == SLASH
    decreases |s| - i
  {
    if i == |s| || depth == 0 then i
    else if Two(s, i, SLASH, STAR) then BlockEnd(s, i + 2, depth + 1)
    else if Two(s, i, STAR, SLASH) then BlockEnd(s, i + 2, depth - 1)
    else BlockEnd(s, i + 1, depth)
  }

  /** Back over the hashes before a quote. */
  function HashStart(s: seq<byte>, i: nat): (p: nat)
    requires i <= |s|
    ensures p <= i
  {
    if i > 0 && s[i - 1] == HASH then HashStart(s, i - 1) else i
  }

  predicate IsRaw(s: seq<byte>, i: nat)
    requires i <= |s|
  {
    var p := HashStart(s, i);
    p > 0 && s[p - 1] == LOWER_R
  }

  predicate HashesAt(s: seq<byte>, i: nat, n: nat) {
    i + n <= |s| && forall k :: i <= k < i + n ==> s[k] == HASH
  }

  predicate Closes(s: seq<byte>, i: nat, raw: bool, hashes: nat)
    requires i < |s|
  {
    s[i] == QUOTE && (!raw || HashesAt(s, i + 1, hashes))
  }

  function StringEnd(s: seq<byte>, i: nat, raw: bool, hashes: nat): (e: nat)
    requires i <= |s|
    ensures i <= e <= |s| && (e == |s| || (e > i && s[e - 1] < 0x80))
    decreases |s| - i
  {
    if i == |s| then i
    else if Closes(s, i, raw, hashes) then i + 1 + if raw then hashes else 0
    else if !raw && s[i] == BACKSLASH then StringEnd(s, if i + 2 <= |s| then i + 2 else |s|, raw, hashes)
    else StringEnd(s, i + 1, raw, hashes)
  }

  datatype Kind = Code | Comment | Text | Char

  datatype Token = Token(kind: Kind, end: nat)

  predicate IsChar(s: seq<byte>, i: nat) { i + 2 < |s| && s[i] == TICK && s[i + 2] == TICK }

  predicate IsEscape(s: seq<byte>, i: nat) { Two(s, i, TICK, BACKSLASH) && i + 3 < |s| && s[i + 3] == TICK }

  /** One turn of the outer loop. A code token is a single byte. */
  function TokenAt(s: seq<byte>, i: nat): (t: Token)
    requires i < |s|
    ensures i < t.end <= |s| && (t.kind.Code? ==> t.end == i + 1)
  {
    if Two(s, i, SLASH, SLASH) then Token(Comment, LineEnd(s, i))
    else if Two(s, i, SLASH, STAR) then Token(Comment, BlockEnd(s, i + 2, 1))
    else if s[i] == QUOTE then Token(Text, StringEnd(s, i + 1, IsRaw(s, i), i - HashStart(s, i)))
    else if IsChar(s, i) then Token(Char, i + 3)
    else if IsEscape(s, i) then Token(Char, i + 4)
    else Token(Code, i + 1)
  }

  // ----- the cleaned text -----

  function Blank(b: byte): byte { if b == NEWLINE then NEWLINE else SPACE }

  /** What a token leaves at its `k`th byte. */
  function Left(kind: Kind, k: nat, b: byte): byte {
    match kind
    case Code => b
    case Comment => Blank(b)
    case Text => if k == 0 then ZERO else Blank(b)
    case Char => if k == 0 then ZERO else SPACE
  }

  function Leaves(kind: Kind, part: seq<byte>): (r: seq<byte>)
    ensures |r| == |part| && forall k :: 0 <= k < |r| ==> r[k] == Left(kind, k, part[k])
  {
    seq(|part|, k requires 0 <= k < |part| => Left(kind, k, part[k]))
  }

  function CleanFrom(s: seq<byte>, i: nat): (r: seq<byte>)
    requires i <= |s|
    ensures |r| == |s| - i
    decreases |s| - i
  {
    if i == |s| then []
    else
      var t := TokenAt(s, i);
      Leaves(t.kind, s[i..t.end]) + CleanFrom(s, t.end)
  }

  function Clean(s: seq<byte>): (r: seq<byte>)
    ensures |r| == |s|
  {
    CleanFrom(s, 0)
  }

  lemma CleanStep(s: seq<byte>, i: nat)
    requires i < |s|
    ensures var t := TokenAt(s, i); CleanFrom(s, i) == Leaves(t.kind, s[i..t.end]) + CleanFrom(s, t.end)
  {
    hide TokenAt, Leaves;
  }

  // ----- the scanner, overwriting a copy -----

  method SkipLine(s: seq<byte>, i: nat) returns (index: nat)
    requires i <= |s|
    ensures index == LineEnd(s, i)
  {
    index := i;
    while index < |s| && s[index] != NEWLINE
      invariant index <= |s| && LineEnd(s, index) == LineEnd(s, i)
    {
      index := index + 1;
    }
  }

  method SkipBlock(s: seq<byte>, i: nat) returns (index: nat)
    requires i <= |s|
    ensures index == BlockEnd(s, i, 1)
  {
    index := i;
    var depth := 1;
    while index < |s| && depth > 0
      invariant index <= |s| && depth >= 0 && BlockEnd(s, index, depth) == BlockEnd(s, i, 1)
      decreases |s| - index
    {
      if Two(s, index, SLASH, STAR) {
        depth := depth + 1;
        index := index + 2;
      } else if Two(s, index, STAR, SLASH) {
        depth := depth - 1;
        index := index + 2;
      } else {
        index := index + 1;
      }
    }
  }

  /** The hashes before a quote. */
  method SkipHashesBack(s: seq<byte>, i: nat) returns (prefix: nat)
    requires i < |s|
    ensures prefix == HashStart(s, i)
  {
    prefix := i;
    while prefix > 0 && s[prefix - 1] == HASH
      invariant prefix <= i && HashStart(s, prefix) == HashStart(s, i)
    {
      prefix := prefix - 1;
    }
  }

  lemma StringStep(s: seq<byte>, i: nat, raw: bool, hashes: nat)
    requires i < |s|
    ensures StringEnd(s, i, raw, hashes) ==
      if Closes(s, i, raw, hashes) then i + 1 + (if raw then hashes else 0)
      else if !raw && s[i] == BACKSLASH then StringEnd(s, if i + 2 <= |s| then i + 2 else |s|, raw, hashes)
      else StringEnd(s, i + 1, raw, hashes)
  {
    hide Closes;
  }

  lemma StringStops(s: seq<byte>, raw: bool, hashes: nat)
    ensures StringEnd(s, |s|, raw, hashes) == |s|
  {
  }

  /** The body of a string, from after its opening quote. */
  method SkipQuoted(s: seq<byte>, i: nat, raw: bool, hashes: nat) returns (index: nat)
    requires i <= |s|
    ensures index == StringEnd(s, i, raw, hashes)
  {
    hide StringEnd, Closes;
    index := i;
    while index < |s|
      invariant index <= |s| && StringEnd(s, index, raw, hashes) == StringEnd(s, i, raw, hashes)
      decreases |s| - index
    {
      StringStep(s, index, raw, hashes);
      if Closes(s, index, raw, hashes) {
        index := index + 1 + if raw then hashes else 0;
        return;
      }
      if !raw && s[index] == BACKSLASH {
        index := if index + 2 <= |s| then index + 2 else |s|;
      } else {
        index := index + 1;
      }
    }
    StringStops(s, raw, hashes);
  }

  method SkipString(s: seq<byte>, i: nat) returns (index: nat)
    requires i < |s|
    ensures index == StringEnd(s, i + 1, IsRaw(s, i), i - HashStart(s, i))
  {
    var prefix := SkipHashesBack(s, i);
    hide HashStart, StringEnd;
    index := SkipQuoted(s, i + 1, prefix > 0 && s[prefix - 1] == LOWER_R, i - prefix);
  }

  /** `for byte in &mut clean[from..to]`, sparing newlines. */
  method BlankRange(clean: array<byte>, from: nat, to: nat)
    requires from <= to <= clean.Length
    modifies clean
    ensures clean[..from] == old(clean[..from]) && clean[to..] == old(clean[to..])
    ensures forall k :: from <= k < to ==> clean[k] == Blank(old(clean[k]))
  {
    var k := from;
    while k < to
      invariant from <= k <= to
      invariant forall j :: 0 <= j < clean.Length ==>
        clean[j] == if from <= j < k then Blank(old(clean[j])) else old(clean[j])
    {
      if clean[k] != NEWLINE { clean[k] := SPACE; }
      k := k + 1;
    }
  }

  /** A literal is overwritten by a `0`, so it counts as an argument, and blanks. */
  method BlankString(clean: array<byte>, start: nat, end: nat)
    requires start < end <= clean.Length
    modifies clean
    ensures clean[..start] == old(clean[..start]) && clean[end..] == old(clean[end..])
    ensures forall k :: start <= k < end ==> clean[k] == Left(Text, k - start, old(clean[k]))
  {
    clean[start] := ZERO;
    BlankRange(clean, start + 1, end);
    assert clean[start] == clean[..start + 1][start];
    assert clean[..start] == clean[..start + 1][..start];
  }

  method BlankChar(clean: array<byte>, start: nat, end: nat)
    requires start < end <= clean.Length
    modifies clean
    ensures clean[..start] == old(clean[..start]) && clean[end..] == old(clean[end..])
    ensures forall k :: start <= k < end ==> clean[k] == Left(Char, k - start, old(clean[k]))
  {
    clean[start] := ZERO;
    for k := start + 1 to end
      invariant clean[start] == ZERO && forall j :: start < j < k ==> clean[j] == SPACE
      invariant forall j :: 0 <= j < start || k <= j < clean.Length ==> clean[j] == old(clean[j])
    {
      clean[k] := SPACE;
    }
  }

  /** One turn of the outer loop, writing through to the buffer. */
  method ScanToken(bytes: seq<byte>, clean: array<byte>, start: nat) returns (index: nat)
    requires start < |bytes| == clean.Length && clean[start..] == bytes[start..]
    modifies clean
    ensures index == TokenAt(bytes, start).end
    ensures clean[..start] == old(clean[..start]) && clean[index..] == bytes[index..]
    ensures forall k :: start <= k < index ==> clean[k] == Left(TokenAt(bytes, start).kind, k - start, bytes[k])
  {
    hide LineEnd, BlockEnd, StringEnd, HashStart, IsRaw;
    ghost var t := TokenAt(bytes, start);
    SameFrom(clean[..], bytes, start, t.end);
    if Two(bytes, start, SLASH, SLASH) {
      index := SkipLine(bytes, start);
    } else if Two(bytes, start, SLASH, STAR) {
      index := SkipBlock(bytes, start + 2);
    } else if bytes[start] == QUOTE {
      index := SkipString(bytes, start);
      BlankString(clean, start, index);
      return;
    } else if IsChar(bytes, start) {
      index := start + 3;
      BlankChar(clean, start, index);
      return;
    } else if IsEscape(bytes, start) {
      index := start + 4;
      BlankChar(clean, start, index);
      return;
    } else {
      index := start + 1;
      return;
    }
    BlankRange(clean, start, index);
  }

  /** The buffer from `start` on is untouched. */
  lemma SameFrom(now: seq<byte>, s: seq<byte>, start: nat, end: nat)
    requires start < end <= |s| == |now| && now[start..] == s[start..]
    ensures now[end..] == s[end..] && forall k :: start <= k < end ==> now[k] == s[k]
  {
    forall k | start <= k < |s| ensures now[k] == s[k] {
      assert now[start..][k - start] == s[start..][k - start];
    }
  }

  lemma Extend(now: seq<byte>, s: seq<byte>, start: nat, end: nat, kind: Kind)
    requires start <= end <= |s| == |now|
    requires forall k :: start <= k < end ==> now[k] == Left(kind, k - start, s[k])
    ensures now[..end] == now[..start] + Leaves(kind, s[start..end])
  {
    hide Left;
    var left := Leaves(kind, s[start..end]);
    forall k | start <= k < end ensures now[k] == left[k - start] {
      assert s[start..end][k - start] == s[k];
    }
  }

  lemma Advance(s: seq<byte>, start: nat, now: seq<byte>)
    requires start < |s| == |now| && now[..start] + CleanFrom(s, start) == Clean(s)
    requires forall k :: start <= k < TokenAt(s, start).end ==> now[k] == Left(TokenAt(s, start).kind, k - start, s[k])
    ensures now[..TokenAt(s, start).end] + CleanFrom(s, TokenAt(s, start).end) == Clean(s)
  {
    hide TokenAt, CleanFrom, Clean, Left, Leaves;
    var t := TokenAt(s, start);
    var left, rest := Leaves(t.kind, s[start..t.end]), CleanFrom(s, t.end);
    CleanStep(s, start);
    Extend(now, s, start, t.end, t.kind);
    assert now[..start] + (left + rest) == now[..start] + left + rest;
  }

  method LexicalCode(bytes: seq<byte>) returns (clean: array<byte>)
    ensures fresh(clean) && clean[..] == Clean(bytes)
  {
    clean := new byte[|bytes|](k requires 0 <= k < |bytes| => bytes[k]);
    var index := 0;
    assert clean[..] == bytes;
    while index < |bytes|
      invariant index <= |bytes| == clean.Length
      invariant clean[index..] == bytes[index..]
      invariant clean[..index] + CleanFrom(bytes, index) == Clean(bytes)
    {
      ghost var start := index;
      index := ScanToken(bytes, clean, index);
      Advance(bytes, start, clean[..]);
      assert clean[..][..index] == clean[..index] && clean[..][..start] == clean[..start];
    }
    assert clean[..index] == clean[..];
  }

  // ----- what is left -----

  /** A comment or literal begins here. */
  predicate Opens(s: seq<byte>, i: nat) {
    i < |s| && (Two(s, i, SLASH, SLASH) || Two(s, i, SLASH, STAR) || s[i] == QUOTE || IsChar(s, i) || IsEscape(s, i))
  }

  /** Each byte is kept, or becomes a space, or the `0` that stands for a literal. */
  predicate Dims(before: seq<byte>, after: seq<byte>) {
    |before| == |after| && forall k :: 0 <= k < |after| ==>
      after[k] == before[k] || after[k] == SPACE || after[k] == ZERO
  }

  lemma {:induction false} CleanDims(s: seq<byte>, i: nat)
    requires i <= |s|
    ensures Dims(s[i..], CleanFrom(s, i))
    decreases |s| - i
  {
    if i < |s| {
      var t := TokenAt(s, i);
      CleanDims(s, t.end);
      var r := CleanFrom(s, i);
      forall k | 0 <= k < |r|
        ensures r[k] == s[i..][k] || r[k] == SPACE || r[k] == ZERO
      {
        if k >= t.end - i { assert r[k] == CleanFrom(s, t.end)[k - (t.end - i)]; }
        else { assert r[k] == Leaves(t.kind, s[i..t.end])[k]; }
      }
    }
  }

  /** Blanking cannot make an opening where there was none. */
  lemma OpensBefore(before: seq<byte>, after: seq<byte>, i: nat)
    requires Dims(before, after)
    ensures Opens(after, i) ==> Opens(before, i)
  {
  }

  lemma OpensLater(s: seq<byte>, i: nat, k: nat)
    requires i <= |s|
    ensures Opens(s[i..], k) <==> Opens(s, i + k)
  {
  }

  lemma NothingLeft(s: seq<byte>, k: nat)
    ensures !Opens(CleanFrom(s, |s|), k)
  {
  }

  lemma CodeOpensNothing(s: seq<byte>, i: nat)
    requires i < |s| && TokenAt(s, i).kind.Code?
    ensures !Opens(CleanFrom(s, i), 0)
  {
    assert !Opens(s, i);
    CleanDims(s, i);
    hide TokenAt, CleanFrom, Opens, Dims;
    OpensBefore(s[i..], CleanFrom(s, i), 0);
    OpensLater(s, i, 0);
  }

  lemma BlankedOpensNothing(s: seq<byte>, i: nat, k: nat)
    requires i < |s| && !TokenAt(s, i).kind.Code? && k < TokenAt(s, i).end - i
    ensures !Opens(CleanFrom(s, i), k)
  {
    hide TokenAt, CleanFrom;
    CleanStep(s, i);
    var t := TokenAt(s, i);
    assert CleanFrom(s, i)[k] == Left(t.kind, k, s[i..t.end][k]);
  }

  /** No comment or literal begins anywhere in the cleaned text: no `"`, `//` or `/ *` is left. */
  lemma {:induction false} NothingOpens(s: seq<byte>, i: nat, k: nat)
    requires i <= |s|
    ensures !Opens(CleanFrom(s, i), k)
    decreases |s| - i
  {
    hide TokenAt, CleanFrom, Leaves, Opens;
    if i == |s| {
      NothingLeft(s, k);
    } else {
      var t := TokenAt(s, i);
      var r, n := CleanFrom(s, i), t.end - i;
      CleanStep(s, i);
      if k >= n {
        NothingOpens(s, t.end, k - n);
        assert r[n..] == CleanFrom(s, t.end);
        OpensLater(r, n, k - n);
      } else if t.kind.Code? {
        CodeOpensNothing(s, i);
      } else {
        BlankedOpensNothing(s, i, k);
      }
    }
  }

  lemma CodeIsKept(s: seq<byte>, i: nat)
    requires i < |s| && !Opens(s, i)
    ensures CleanFrom(s, i) == [s[i]] + CleanFrom(s, i + 1)
  {
    assert TokenAt(s, i) == Token(Code, i + 1);
    assert Leaves(Code, s[i..i + 1]) == [s[i]];
  }

  /** Where nothing opens, cleaning changes nothing. */
  lemma {:induction false} QuietIsKept(s: seq<byte>, i: nat)
    requires i <= |s| && forall k :: 0 <= k < |s| ==> !Opens(s, k)
    ensures CleanFrom(s, i) == s[i..]
    decreases |s| - i
  {
    if i < |s| {
      CodeIsKept(s, i);
      hide CleanFrom;
      QuietIsKept(s, i + 1);
      assert s[i..] == [s[i]] + s[i + 1..];
    }
  }

  /** The cleaned text holds no comment or literal, so cleaning again changes nothing. */
  lemma CleanIsFixed(s: seq<byte>)
    ensures forall k :: 0 <= k < |s| ==>
      Clean(s)[k] != QUOTE && !Two(Clean(s), k, SLASH, SLASH) && !Two(Clean(s), k, SLASH, STAR)
    ensures Dims(s, Clean(s))
    ensures Clean(Clean(s)) == Clean(s)
  {
    var c := Clean(s);
    forall k | 0 <= k < |c| ensures !Opens(c, k) { NothingOpens(s, 0, k); }
    forall k | 0 <= k < |c| ensures c[k] != QUOTE && !Two(c, k, SLASH, SLASH) && !Two(c, k, SLASH, STAR) {
      assert !Opens(c, k);
    }
    CleanDims(s, 0);
    assert s[0..] == s;
    QuietIsKept(c, 0);
    assert c[0..] == c;
  }

  // ----- UTF-8 -----

  /** A token that is blanked begins and ends between characters. */
  lemma TokenCut(s: seq<byte>, i: nat)
    requires i < |s| && !TokenAt(s, i).kind.Code?
    ensures s[i] < 0x80 && IsCut(s, i) && IsCut(s, TokenAt(s, i).end)
  {
  }

  lemma LeavesAscii(kind: Kind, part: seq<byte>)
    requires !kind.Code?
    ensures IsAscii(Leaves(kind, part))
  {
  }

  lemma CodeLeaves(part: seq<byte>)
    ensures Leaves(Code, part) == part
  {
  }

  lemma {:induction false} CleanAfter(before: seq<byte>, s: seq<byte>, i: nat)
    requires i <= |s| && IsUtf8(before + s[i..])
    ensures IsUtf8(before + CleanFrom(s, i))
    decreases |s| - i
  {
    hide TokenAt, CleanFrom, IsUtf8, IsCut, Leaves;
    if i == |s| {
      assert s[i..] == CleanFrom(s, i);
    } else {
      var t := TokenAt(s, i);
      var left := Leaves(t.kind, s[i..t.end]);
      CleanStep(s, i);
      if t.kind.Code? {
        CodeLeaves(s[i..t.end]);
        assert before + s[i..] == before + left + s[t.end..];
      } else {
        TokenCut(s, i);
        LeavesAscii(t.kind, s[i..t.end]);
        Replaced(before, s, i, t.end, left);
      }
      CleanAfter(before + left, s, t.end);
      assert before + (left + CleanFrom(s, t.end)) == before + left + CleanFrom(s, t.end);
    }
  }

  /** Characters may be replaced by ASCII between two cuts. */
  lemma Replaced(before: seq<byte>, s: seq<byte>, i: nat, e: nat, left: seq<byte>)
    requires i < |s| && IsUtf8(before + s[i..]) && IsAscii(left)
    requires i < e <= |s| && s[i] < 0x80 && IsCut(s, e)
    ensures IsUtf8(before + left + s[e..])
  {
    hide IsUtf8, CharLength;
    var whole, n := before + s[i..], |before|;
    assert whole[n] == s[i];
    Utf8Cut(whole, n);
    assert whole[..n] == before && whole[n..] == s[i..];
    var rest := s[i..];
    assert IsCut(rest, e - i) by { assert rest[e - i - 1] == s[e - 1] && (e < |s| ==> rest[e - i] == s[e]); }
    Utf8Cut(rest, e - i);
    assert rest[e - i..] == s[e..];
    AsciiIsUtf8(left);
    Utf8Append(before, left);
    Utf8Append(before + left, s[e..]);
  }

  /** Well-formed text stays well-formed, so the final `expect` never fires. */
  lemma CleanIsUtf8(s: seq<byte>)
    requires IsUtf8(s)
    ensures IsUtf8(Clean(s))
  {
    hide IsUtf8, CleanFrom;
    assert [] + s[0..] == s;
    CleanAfter([], s, 0);
    assert [] + CleanFrom(s, 0) == CleanFrom(s, 0);
  }

  // ----- newlines -----

  /** No character literal has a raw newline as its payload. */
  predicate NoNewlineChar(s: seq<byte>, i: nat)
    requires i <= |s|
    decreases |s| - i
  {
    i == |s| || (
      var t := TokenAt(s, i);
      && (t.kind.Char? ==> s[t.end - 2] != NEWLINE)
      && NoNewlineChar(s, t.end))
  }

  predicate SameLines(before: seq<byte>, after: seq<byte>) {
    |before| == |after| && forall k :: 0 <= k < |before| ==> (before[k] == NEWLINE <==> after[k] == NEWLINE)
  }

  lemma NoLinesLeft(s: seq<byte>)
    ensures SameLines(s[|s|..], CleanFrom(s, |s|))
  {
  }

  /** Newlines keep their positions exactly when no character literal holds one. */
  lemma {:induction false} NewlinesStay(s: seq<byte>, i: nat)
    requires i <= |s|
    ensures SameLines(s[i..], CleanFrom(s, i)) <==> NoNewlineChar(s, i)
    decreases |s| - i
  {
    hide TokenAt, CleanFrom, SameLines, Leaves;
    if i < |s| {
      var t := TokenAt(s, i);
      var left := Leaves(t.kind, s[i..t.end]);
      CleanStep(s, i);
      TokenLines(s, i);
      NewlinesStay(s, t.end);
      LinesAppend(s[i..t.end], left, s[t.end..], CleanFrom(s, t.end));
      assert s[i..] == s[i..t.end] + s[t.end..];
    } else {
      NoLinesLeft(s);
    }
  }

  lemma TokenLines(s: seq<byte>, i: nat)
    requires i < |s|
    ensures var t := TokenAt(s, i);
      SameLines(s[i..t.end], Leaves(t.kind, s[i..t.end])) <==> (t.kind.Char? ==> s[t.end - 2] != NEWLINE)
  {
    var t := TokenAt(s, i);
    var part := s[i..t.end];
    var left := Leaves(t.kind, part);
    if t.kind.Char? {
      assert part[|part| - 2] == s[t.end - 2] && left[|part| - 2] == SPACE;
      if IsChar(s, i) && !Two(s, i, SLASH, SLASH) {
        assert |part| == 3;
      }
    }
  }

  lemma LinesAppend(a: seq<byte>, a': seq<byte>, b: seq<byte>, b': seq<byte>)
    requires |a| == |a'| && |b| == |b'|
    ensures SameLines(a + b, a' + b') <==> SameLines(a, a') && SameLines(b, b')
  {
    if SameLines(a + b, a' + b') {
      forall k | 0 <= k < |a| ensures a[k] == NEWLINE <==> a'[k] == NEWLINE {
        assert (a + b)[k] == a[k] && (a' + b')[k] == a'[k];
      }
      forall k | 0 <= k < |b| ensures b[k] == NEWLINE <==> b'[k] == NEWLINE {
        assert (a + b)[|a| + k] == b[k] && (a' + b')[|a| + k] == b'[k];
      }
    }
  }

  /** The documented claim that newlines are preserved fails for a character literal holding one. */
  lemma NewlineLost()
    ensures var s: seq<byte> := [TICK, NEWLINE, TICK]; Clean(s) == [ZERO, SPACE, SPACE] && !NoNewlineChar(s, 0)
  {
    var s: seq<byte> := [TICK, NEWLINE, TICK];
    assert TokenAt(s, 0) == Token(Char, 3);
    assert CleanFrom(s, 3) == [];
    assert Leaves(Char, s[0..3]) == [ZERO, SPACE, SPACE];
  }
}
