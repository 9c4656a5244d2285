/** Well-formed text is what encoding Unicode's scalar values makes (RFC 3629 section 3). */
module Utf8Laws {
  import opened Utf8

  /** A code point that is no surrogate. */
  predicate IsScalar(c: int) { 0 <= c < 0xD800 || 0xE000 <= c <= 0x10FFFF }

  /** Six bits of a code point, from bit `6 * k` on, in a continuation byte. */
  function Encode(c: int): seq<byte>
    requires IsScalar(c)
  {
    if c < 0x80 then [c]
    else if c < 0x800 then [0xC0 + c / 64, 0x80 + c % 64]
    else if c < 0x1_0000 then [0xE0 + c / 4096, 0x80 + c / 64 % 64, 0x80 + c % 64]
    else [0xF0 + c / 262144, 0x80 + c / 4096 % 64, 0x80 + c / 64 % 64, 0x80 + c % 64]
  }

  predicate AreScalars(cs: seq<int>) { forall c :: c in cs ==> IsScalar(c) }

  function EncodeAll(cs: seq<int>): seq<byte>
    requires AreScalars(cs)
  {
    if cs == [] then []
    else
      assert cs[0] in cs && forall c :: c in cs[1..] ==> c in cs;
      Encode(cs[0]) + EncodeAll(cs[1..])
  }

  lemma EncodedReads(c: int, rest: seq<byte>)
    requires IsScalar(c)
    ensures CharLength(Encode(c) + rest) == |Encode(c)|
  {
    EncodedAlone(c);
    hide Encode;
    CharLengthAppend(Encode(c), rest);
  }

  lemma EncodedAlone(c: int)
    requires IsScalar(c)
    ensures CharLength(Encode(c)) == |Encode(c)| > 0
  {
    if 0x800 <= c < 0x1_0000 { ThreeAlone(c); }
    if 0x1_0000 <= c { FourAlone(c); }
  }

  lemma ThreeAlone(c: int)
    requires IsScalar(c) && 0x800 <= c < 0x1_0000
    ensures CharLength(Encode(c)) == 3
  {
    var a, b := c / 4096, c / 64 % 64;
    assert c / 64 == a * 64 + b;
    assert a == 0 ==> b >= 0x20;
    assert a == 0xD ==> b < 0x20 || c >= 0xE000;
  }

  lemma FourAlone(c: int)
    requires 0x1_0000 <= c <= 0x10FFFF
    ensures CharLength(Encode(c)) == 4
  {
    var a, b := c / 262144, c / 4096 % 64;
    assert c / 4096 == a * 64 + b;
    assert a == 0 ==> b >= 0x10;
    assert a == 4 ==> b < 0x10;
  }

  /** The character that a text begins with is the encoding of one scalar value. */
  lemma FirstDecodes(s: seq<byte>) returns (c: int)
    requires CharLength(s) > 0
    ensures IsScalar(c) && Encode(c) == s[..CharLength(s)]
  {
    match CharLength(s)
    case 1 => c := s[0];
    case 2 => c := TwoBytes(s[0], s[1]);
    case 3 => c := ThreeBytes(s[0], s[1], s[2]);
    case _ => c := FourBytes(s[0], s[1], s[2], s[3]);
  }

  lemma TwoBytes(a: int, b: int) returns (c: int)
    requires 0xC2 <= a <= 0xDF && 0x80 <= b <= 0xBF
    ensures IsScalar(c) && Encode(c) == [a, b]
  {
    c := (a - 0xC0) * 64 + (b - 0x80);
  }

  lemma ThreeBytes(a: int, b: int, d: int) returns (c: int)
    requires 0xE0 <= a <= 0xEF && 0x80 <= b <= 0xBF && 0x80 <= d <= 0xBF
    requires (a == 0xE0 ==> b >= 0xA0) && (a == 0xED ==> b <= 0x9F)
    ensures IsScalar(c) && Encode(c) == [a, b, d]
  {
    c := (a - 0xE0) * 4096 + (b - 0x80) * 64 + (d - 0x80);
  }

  lemma FourBytes(a: int, b: int, d: int, e: int) returns (c: int)
    requires 0xF0 <= a <= 0xF4 && 0x80 <= b <= 0xBF && 0x80 <= d <= 0xBF && 0x80 <= e <= 0xBF
    requires (a == 0xF0 ==> b >= 0x90) && (a == 0xF4 ==> b <= 0x8F)
    ensures IsScalar(c) && Encode(c) == [a, b, d, e]
  {
    var x, y, z, w := a - 0xF0, b - 0x80, d - 0x80, e - 0x80;
    c := x * 262144 + y * 4096 + z * 64 + w;
    Quotients(x, y, z, w);
  }

  lemma Quotients(x: nat, y: nat, z: nat, w: nat)
    requires y < 64 && z < 64 && w < 64
    ensures var c := x * 262144 + y * 4096 + z * 64 + w;
      c / 262144 == x && c / 4096 % 64 == y && c / 64 % 64 == z && c % 64 == w
  {
    var c := x * 262144 + y * 4096 + z * 64 + w;
    By64(c, x * 4096 + y * 64 + z, w);
    By4096(c, x * 64 + y, z * 64 + w);
    By262144(c, x, y * 4096 + z * 64 + w);
    By64(x * 4096 + y * 64 + z, x * 64 + y, z);
    By64(x * 64 + y, x, y);
  }

  lemma By64(c: nat, q: nat, r: nat)
    requires c == q * 64 + r && r < 64
    ensures c / 64 == q && c % 64 == r
  {
  }

  lemma By4096(c: nat, q: nat, r: nat)
    requires c == q * 4096 + r && r < 4096
    ensures c / 4096 == q
  {
  }

  lemma By262144(c: nat, q: nat, r: nat)
    requires c == q * 262144 + r && r < 262144
    ensures c / 262144 == q
  {
  }

  /** A text is well-formed if and only if it is the encoding of some scalar values. */
  lemma WellFormedExactly(s: seq<byte>)
    ensures IsUtf8(s) <==> exists cs :: AreScalars(cs) && EncodeAll(cs) == s
  {
    if IsUtf8(s) { var cs := Decoded(s); }
    if cs :| AreScalars(cs) && EncodeAll(cs) == s { EncodedIsUtf8(cs); }
  }

  lemma {:induction false} EncodedIsUtf8(cs: seq<int>)
    requires AreScalars(cs)
    ensures IsUtf8(EncodeAll(cs))
    decreases |cs|
  {
    if cs != [] {
      assert cs[0] in cs && forall c :: c in cs[1..] ==> c in cs;
      hide Encode, CharLength;
      EncodedIsUtf8(cs[1..]);
      var head, rest := Encode(cs[0]), EncodeAll(cs[1..]);
      EncodedReads(cs[0], rest);
      EncodedAlone(cs[0]);
      assert (head + rest)[|head|..] == rest;
    }
  }

  lemma Cons(c: int, rest: seq<int>)
    requires IsScalar(c) && AreScalars(rest)
    ensures AreScalars([c] + rest) && EncodeAll([c] + rest) == Encode(c) + EncodeAll(rest)
  {
    hide Encode;
    assert ([c] + rest)[1..] == rest;
  }

  lemma FirstIsWhole(s: seq<byte>)
    requires IsUtf8(s) && s != []
    ensures CharLength(s) > 0 && IsUtf8(s[CharLength(s)..]) && s[..CharLength(s)] + s[CharLength(s)..] == s
  {
    hide CharLength;
  }

  lemma {:induction false} Decoded(s: seq<byte>) returns (cs: seq<int>)
    requires IsUtf8(s)
    ensures AreScalars(cs) && EncodeAll(cs) == s
    decreases |s|
  {
    hide Encode, CharLength, IsScalar, IsUtf8;
    if s == [] {
      cs := [];
    } else {
      FirstIsWhole(s);
      var c := FirstDecodes(s);
      var rest := Decoded(s[CharLength(s)..]);
      hide EncodeAll, AreScalars;
      Cons(c, rest);
      cs := [c] + rest;
    }
  }
}
