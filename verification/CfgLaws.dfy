/**
 * What `cfg_meta_may_disable` (src/review/docs_drift.rs:468-524) answers on any text: by the first word,
 * and for `cfg_attr` by its brackets and parts. Whatever it cannot read may disable.
 */
module CfgLaws {
  import opened Text
  import opened Cfg

  // ----- the first word -----

  /** A letter, a digit or the underscore: by code point in ASCII, by Unicode's table beyond it. */
  predicate IsNameChar(alnum: char -> bool, c: char) {
    var n := c as int;
    n == 95 || 48 <= n <= 57 || 65 <= n <= 90 || 97 <= n <= 122 || (n >= 128 && alnum(c))
  }

  /** `rest` does not go on with the word before it. */
  predicate IsFirstWord(alnum: char -> bool, word: string, rest: string) {
    (forall c :: c in word ==> IsNameChar(alnum, c)) && (rest != "" ==> !IsNameChar(alnum, rest[0]))
  }

  lemma NameCharIs(alnum: char -> bool, c: char)
    ensures IsNameChar(alnum, c) <==> IsWordChar(alnum, c)
  {
  }

  lemma WordEndIs(alnum: char -> bool, word: string, rest: string)
    requires IsFirstWord(alnum, word, rest)
    ensures WordEnd(alnum, word + rest, 0) == |word|
  {
    var s := word + rest;
    forall k | 0 <= k < |word| ensures IsWordChar(alnum, s[k]) {
      assert word[k] in word;
      NameCharIs(alnum, s[k]);
    }
    if rest != "" { NameCharIs(alnum, rest[0]); }
    RunEndIs(WordClass(alnum), s, 0, |word|);
  }

  /** A text without white space at its ends. */
  predicate IsCore(s: string) { s != "" && !IsSpace(s[0]) && !IsSpace(s[|s| - 1]) }

  lemma ReadsWord(alnum: char -> bool, a: string, word: string, rest: string, b: string)
    requires IsBlank(a) && IsBlank(b) && IsCore(word + rest) && IsFirstWord(alnum, word, rest)
    ensures var body := Trim(a + (word + rest) + b); var end := WordEnd(alnum, body, 0);
      body[..end] == word && body[end..] == rest
  {
    TrimBlanks(a, word + rest, b);
    WordEndIs(alnum, word, rest);
    hide WordEnd, Trim, IsFirstWord;
    assert (word + rest)[..|word|] == word && (word + rest)[|word|..] == rest;
  }

  /** `cfg` may disable and any other word may not, whatever follows; `cfg_attr` may when its text was cut short. */
  lemma NameDecides(alnum: char -> bool, a: string, word: string, rest: string, b: string, complete: bool, nesting: nat)
    requires IsBlank(a) && IsBlank(b) && IsCore(word + rest) && IsFirstWord(alnum, word, rest) && nesting < 32
    ensures word == "cfg" ==> MayDisable(alnum, a + (word + rest) + b, complete, nesting)
    ensures word != "cfg" && word != "cfg_attr" ==> !MayDisable(alnum, a + (word + rest) + b, complete, nesting)
    ensures word == "cfg_attr" && !complete ==> MayDisable(alnum, a + (word + rest) + b, complete, nesting)
  {
    ReadsWord(alnum, a, word, rest, b);
    hide WordEnd, Trim, IsFirstWord, IsCore, IsBlank;
  }

  // ----- brackets -----

  function Turn(c: char): int { if c in ['(', '[', '{'] then 1 else if c in [')', ']', '}'] then -1 else 0 }

  /** Opening brackets less closing ones, of whatever shape. */
  function Depth(s: string): int { if s == "" then 0 else Turn(s[0]) + Depth(s[1..]) }

  /** From depth `d`, no bracket closes before one is open, and none is left open. */
  predicate Balances(s: string, d: int) {
    d + Depth(s) == 0 && forall k :: 0 <= k <= |s| ==> d + Depth(s[..k]) >= 0
  }

  lemma BalancesTail(s: string, d: int)
    requires s != ""
    ensures Balances(s, d) <==> d >= 0 && Balances(s[1..], d + Turn(s[0]))
  {
    assert s[..0] == "";
    forall k | 0 < k <= |s| ensures Depth(s[..k]) == Turn(s[0]) + Depth(s[1..][..k - 1]) {
      assert s[..k][1..] == s[1..][..k - 1];
    }
    if d >= 0 && Balances(s[1..], d + Turn(s[0])) {
      forall k | 0 <= k <= |s| ensures d + Depth(s[..k]) >= 0 {
        if k > 0 { assert d + Turn(s[0]) + Depth(s[1..][..k - 1]) >= 0; }
      }
    }
    if Balances(s, d) {
      assert d + Depth(s[..0]) >= 0;
      forall k | 0 <= k <= |s| - 1 ensures d + Turn(s[0]) + Depth(s[1..][..k]) >= 0 {
        assert d + Depth(s[..k + 1]) >= 0;
      }
    }
  }

  lemma BalancesNothing(d: nat)
    ensures Balances("", d) <==> d == 0
  {
  }

  lemma BalancesStart(s: string, d: int)
    requires Balances(s, d)
    ensures d >= 0
  {
    assert s[..0] == "" && d + Depth(s[..0]) >= 0;
  }

  lemma PartsStep(args: string, i: nat, start: nat, depth: nat)
    requires start <= i < |args|
    ensures var c := args[i];
      PartsFrom(args, i, start, depth).None? <==>
        if IsClose(c) && depth == 0 then true
        else if c == ',' && depth == 0 then PartsFrom(args, i + 1, i + 1, 0).None?
        else PartsFrom(args, i + 1, start, depth + Turn(c)).None?
    ensures IsClose(args[i]) <==> Turn(args[i]) < 0
  {
  }

  /** The parts are found exactly when the brackets balance. */
  lemma {:induction false} PartsExactly(args: string, i: nat, start: nat, depth: nat)
    requires start <= i <= |args|
    ensures PartsFrom(args, i, start, depth).Some? <==> Balances(args[i..], depth)
    decreases |args| - i
  {
    hide PartsFrom, Balances, Turn, IsClose;
    if i == |args| {
      BalancesNothing(depth);
      PartsStop(args, start, depth);
    } else {
      var c := args[i];
      assert args[i..][0] == c && args[i..][1..] == args[i + 1..];
      BalancesTail(args[i..], depth);
      PartsStep(args, i, start, depth);
      if IsClose(c) && depth == 0 {
        if Balances(args[i + 1..], depth + Turn(c)) { BalancesStart(args[i + 1..], depth + Turn(c)); }
      } else if c == ',' && depth == 0 {
        PartsExactly(args, i + 1, i + 1, 0);
        CommaTurns(c);
      } else {
        PartsExactly(args, i + 1, start, TurnDown(c, depth));
      }
    }
  }

  lemma CommaTurns(c: char)
    requires c == ','
    ensures Turn(c) == 0
  {
  }

  function TurnDown(c: char, depth: nat): (d: nat)
    requires IsClose(c) ==> depth > 0
    ensures d == depth + Turn(c)
  {
    if IsClose(c) then depth - 1 else depth + Turn(c)
  }

  lemma PartsStop(args: string, start: nat, depth: nat)
    requires start <= |args|
    ensures PartsFrom(args, |args|, start, depth).Some? <==> depth == 0
  {
  }

  // ----- attributes -----

  /** The arguments in parentheses, after white space. */
  function InParens(gap: string, args: string): string { gap + ("(" + args + ")") }

  lemma {:induction false} TrimStartCuts(s: string)
    ensures |TrimStart(s)| <= |s| && TrimStart(s) == s[|s| - |TrimStart(s)|..]
    ensures IsBlank(s[..|s| - |TrimStart(s)|])
    ensures TrimStart(s) != "" ==> !IsSpace(TrimStart(s)[0])
  {
    if s != "" && IsSpace(s[0]) {
      TrimStartCuts(s[1..]);
      var r := TrimStart(s[1..]);
      assert s[..|s| - |r|][1..] == s[1..][..|s| - 1 - |r|];
      assert forall k :: 0 < k < |s| - |r| ==> s[k] == s[1..][..|s| - 1 - |r|][k - 1];
    }
  }

  lemma TrimKeepsEnd(s: string)
    requires s != "" && !IsSpace(s[|s| - 1])
    ensures Trim(s) == TrimStart(s)
  {
    TrimStartCuts(s);
    if TrimStart(s) == "" { assert IsBlank(s); }
  }

  lemma InParensIs(core: string, args: string)
    ensures Inside(core) == Some(args) <==> core == "(" + args + ")"
  {
    assert ("(" + args + ")")[1..|args| + 1] == args;
  }

  /** What stands in parentheses is found exactly when the text is white space and then that. */
  lemma InsideIs(rest: string, args: string)
    requires rest == "" || !IsSpace(rest[|rest| - 1])
    ensures Inside(Trim(rest)) == Some(args) <==> exists gap :: IsBlank(gap) && rest == InParens(gap, args)
  {
    InParensIs(Trim(rest), args);
    if rest != "" {
      TrimKeepsEnd(rest);
      TrimStartCuts(rest);
      hide Inside, Trim, IsBlank;
      var core := TrimStart(rest);
      if core == "(" + args + ")" { assert rest == InParens(rest[..|rest| - |core|], args); }
      if gap :| IsBlank(gap) && rest == InParens(gap, args) {
        TrimStartBlank(gap, "(" + args + ")");
      }
    }
  }

  /** `cfg_attr` without arguments in parentheses, or with unbalanced ones, may disable. */
  lemma UnreadableDisables(alnum: char -> bool, a: string, rest: string, b: string, nesting: nat)
    requires IsBlank(a) && IsBlank(b) && IsCore("cfg_attr" + rest) && IsFirstWord(alnum, "cfg_attr", rest)
    requires forall gap, args :: IsBlank(gap) && rest == InParens(gap, args) ==> !Balances(args, 0)
    ensures MayDisable(alnum, a + ("cfg_attr" + rest) + b, true, nesting)
  {
    ReadsWord(alnum, a, "cfg_attr", rest, b);
    assert rest == "" || rest[|rest| - 1] == ("cfg_attr" + rest)[|"cfg_attr" + rest| - 1];
    if nesting < 32 && Inside(Trim(rest)).Some? {
      var args := Inside(Trim(rest)).value;
      InsideIs(rest, args);
      PartsExactly(args, 0, 0, 0);
      assert args[0..] == args;
    }
    hide WordEnd, Trim, IsFirstWord, IsCore, IsBlank, PartsFrom, Balances, InParens;
  }

  /** With its parts told apart, `cfg_attr` may disable when one is missing or a payload may. */
  lemma PartsDecide(alnum: char -> bool, a: string, gap: string, parts: seq<string>, b: string, nesting: nat)
    requires IsBlank(a) && IsBlank(b) && IsBlank(gap) && parts != [] && AllFlat(parts) && nesting < 32
    requires IsUnicode(alnum)
    ensures MayDisable(alnum, a + ("cfg_attr" + InParens(gap, Join(parts, ','))) + b, true, nesting) <==>
      (|| |parts| == 1 || IsBlank(parts[0])
       || (forall k :: 1 <= k < |parts| ==> IsBlank(parts[k]))
       || exists k :: 1 <= k < |parts| && !IsBlank(parts[k]) && MayDisable(alnum, parts[k], true, nesting + 1))
  {
    var args := Join(parts, ',');
    var text := "cfg_attr" + InParens(gap, args);
    ReadsBody(alnum, gap, args);
    TrimBlanks(a, text, b);
    assert args[0..] == args;
    PartsOfJoin(args, 0, parts);
    hide Trim, WordEnd, PartsFrom, Join, IsBlank, Inside, AllFlat, InParens;
    PartsUnfold(alnum, a + text + b, args, parts, nesting);
  }

  lemma PartsUnfold(alnum: char -> bool, text: string, args: string, parts: seq<string>, nesting: nat)
    requires nesting < MAX_NESTING
    requires var body := Trim(text); var end := WordEnd(alnum, body, 0);
      body[..end] == "cfg_attr" && Inside(Trim(body[end..])) == Some(args) && Parts(args) == Some(parts)
    ensures MayDisable(alnum, text, true, nesting) <==>
      (|| |parts| == 1 || IsBlank(parts[0])
       || (forall k :: 1 <= k < |parts| ==> IsBlank(parts[k]))
       || exists k :: 1 <= k < |parts| && !IsBlank(parts[k]) && MayDisable(alnum, parts[k], true, nesting + 1))
  {
    hide Trim, WordEnd, Parts, IsBlank, Inside;
    if |parts| >= 2 {
      assert forall k :: 1 <= k < |parts| ==> parts[k] == parts[1..][k - 1];
      assert forall k :: 0 <= k < |parts| - 1 ==> parts[1..][k] == parts[k + 1];
    }
  }
}
