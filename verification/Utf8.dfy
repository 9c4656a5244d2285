/**
 * Well-formed UTF-8, by the table of RFC 3629 section 4 (Rust's `String::from_utf8` accepts exactly this).
 */
module Utf8 {
  type byte = b: int | 0 <= b < 256

  predicate Tail(b: byte) { 0x80 <= b <= 0xBF }

  predicate Tails(s: seq<byte>, from: nat, to: nat) {
    to <= |s| && forall k :: from <= k < to ==> Tail(s[k])
  }

  /** The length of the character that `s` begins with; zero if it begins with none. */
  function CharLength(s: seq<byte>): (n: nat)
    ensures n <= |s| && n <= 4
  {
    if |s| == 0 then 0
    else if s[0] <= 0x7F then 1
    else if 0xC2 <= s[0] <= 0xDF && Tails(s, 1, 2) then 2
    else if Tails(s, 1, 3) && ((s[0] == 0xE0 && 0xA0 <= s[1]) || 0xE1 <= s[0] <= 0xEC
                               || (s[0] == 0xED && s[1] <= 0x9F) || 0xEE <= s[0] <= 0xEF) then 3
    else if Tails(s, 1, 4) && ((s[0] == 0xF0 && 0x90 <= s[1]) || 0xF1 <= s[0] <= 0xF3
                               || (s[0] == 0xF4 && s[1] <= 0x8F)) then 4
    else 0
  }

  predicate IsUtf8(s: seq<byte>) {
    |s| == 0 || (CharLength(s) > 0 && IsUtf8(s[CharLength(s)..]))
  }

  predicate IsAscii(s: seq<byte>) { forall k :: 0 <= k < |s| ==> s[k] < 0x80 }

  lemma CharLengthAppend(a: seq<byte>, b: seq<byte>)
    requires CharLength(a) > 0
    ensures CharLength(a + b) == CharLength(a)
  {
    var s := a + b;
    assert forall k :: 0 <= k < |a| ==> s[k] == a[k];
    if a[0] > 0x7F { assert |a| >= 2 && s[1] == a[1]; }
  }

  lemma {:induction false} Utf8Append(a: seq<byte>, b: seq<byte>)
    requires IsUtf8(a) && IsUtf8(b)
    ensures IsUtf8(a + b)
    decreases |a|
  {
    if |a| == 0 {
      assert a + b == b;
    } else {
      var n := CharLength(a);
      CharLengthAppend(a, b);
      assert (a + b)[n..] == a[n..] + b;
      Utf8Append(a[n..], b);
    }
  }

  lemma {:induction false} AsciiIsUtf8(s: seq<byte>)
    requires IsAscii(s)
    ensures IsUtf8(s)
  {
    if |s| > 0 { AsciiIsUtf8(s[1..]); }
  }

  /** Places where a character must begin or end: next to an ASCII byte, or at the end. */
  predicate IsCut(s: seq<byte>, k: nat) {
    k <= |s| && (k == |s| || s[k] < 0x80 || (k > 0 && s[k - 1] < 0x80))
  }

  lemma CutAfterChar(s: seq<byte>, k: nat)
    requires IsCut(s, k) && k > 0
    ensures CharLength(s) <= k
  {
  }

  lemma GlueCut(s: seq<byte>, n: nat, k: nat)
    requires n < k <= |s| && IsUtf8(s[..n]) && IsUtf8(s[n..][..k - n]) && IsUtf8(s[n..][k - n..])
    ensures IsUtf8(s[..k]) && IsUtf8(s[k..])
  {
    Utf8Append(s[..n], s[n..][..k - n]);
    hide IsUtf8;
    assert s[..k] == s[..n] + s[n..][..k - n];
    assert s[k..] == s[n..][k - n..];
  }

  lemma CutRest(s: seq<byte>, n: nat, k: nat)
    requires n < k && IsCut(s, k)
    ensures IsCut(s[n..], k - n)
  {
    assert s[n..][k - n - 1] == s[k - 1];
  }

  lemma CharAlone(s: seq<byte>)
    requires CharLength(s) > 0
    ensures IsUtf8(s[..CharLength(s)])
  {
    var n := CharLength(s);
    var c := s[..n];
    assert CharLength(c) == n;
    assert c[n..] == [];
  }

  lemma NothingIsUtf8()
    ensures IsUtf8([])
  {
  }

  lemma FirstChar(s: seq<byte>, k: nat)
    requires IsUtf8(s) && IsCut(s, k) && k > 0
    ensures 0 < CharLength(s) <= k <= |s| && IsUtf8(s[CharLength(s)..])
  {
    CutAfterChar(s, k);
    hide CharLength;
  }

  lemma {:induction false} Utf8Cut(s: seq<byte>, k: nat)
    requires IsUtf8(s) && IsCut(s, k)
    ensures IsUtf8(s[..k]) && IsUtf8(s[k..])
    decreases |s|
  {
    hide CharLength, IsUtf8, IsCut;
    if k == 0 {
      assert s[..0] == [] && s[0..] == s;
      NothingIsUtf8();
    } else {
      var n := CharLength(s);
      FirstChar(s, k);
      CharAlone(s);
      if k > n {
        CutRest(s, n, k);
        Utf8Cut(s[n..], k - n);
        GlueCut(s, n, k);
      }
    }
  }
}
