/**
 * `cfg_meta_may_disable` (src/review/docs_drift.rs:468-524): whether an attribute may switch code
 * off, by a parser that looks through `cfg_attr` payloads to a bounded depth.
 *
 * Unicode's table of letters and digits beyond ASCII is the parameter `alnum`.
 */
module Cfg {
  import opened Text

  const MAX_NESTING: nat := 32

  // ----- words -----

  predicate IsAsciiAlnum(c: char) { 'a' <= c <= 'z' || 'A' <= c <= 'Z' || '0' <= c <= '9' }

  predicate IsWordChar(alnum: char -> bool, c: char) {
    c == '_' || (if c < 128 as char then IsAsciiAlnum(c) else alnum(c))
  }

  function WordClass(alnum: char -> bool): char -> bool { c => IsWordChar(alnum, c) }

  function WordEnd(alnum: char -> bool, s: string, i: nat): (e: nat)
    requires i <= |s|
    ensures i <= e <= |s|
  {
    RunEnd(WordClass(alnum), s, i)
  }

  // ----- splitting at commas outside brackets -----

  predicate IsOpen(c: char) { c == '(' || c == '[' || c == '{' }
  predicate IsClose(c: char) { c == ')' || c == ']' || c == '}' }

  /** The parts from `start` on; none if a bracket closes too early or stays open. */
  function PartsFrom(args: string, i: nat, start: nat, depth: nat): (parts: Option<seq<string>>)
    requires start <= i <= |args|
    ensures parts.Some? ==> |parts.value| > 0 && forall p :: p in parts.value ==> |p| <= |args|
    decreases |args| - i
  {
    if i == |args| then (if depth == 0 then Some([args[start..]]) else None)
    else if IsOpen(args[i]) then PartsFrom(args, i + 1, start, depth + 1)
    else if IsClose(args[i]) then (if depth == 0 then None else PartsFrom(args, i + 1, start, depth - 1))
    else if args[i] == ',' && depth == 0 then
      match PartsFrom(args, i + 1, i + 1, 0)
      case None => None
      case Some(rest) => Some([args[start..i]] + rest)
    else PartsFrom(args, i + 1, start, depth)
  }

  function Parts(args: string): (parts: Option<seq<string>>)
    ensures parts.Some? ==> |parts.value| > 0 && forall p :: p in parts.value ==> |p| <= |args|
  {
    PartsFrom(args, 0, 0, 0)
  }

  /** What is between the parentheses of `s`, if it is in parentheses. */
  function Inside(s: string): (args: Option<string>)
    ensures args.Some? ==> |args.value| + 2 == |s|
  {
    if |s| >= 2 && s[0] == '(' && s[|s| - 1] == ')' then Some(s[1..|s| - 1]) else None
  }

  /** Recurs only on shorter text, so it ends on every string. */
  predicate MayDisable(alnum: char -> bool, body: string, complete: bool, nesting: nat)
    decreases |body|, 0
  {
    if nesting >= MAX_NESTING then true
    else
      var body' := Trim(body);
      var end := WordEnd(alnum, body', 0);
      if body'[..end] == "cfg" then true
      else if body'[..end] != "cfg_attr" then false
      else if !complete then true
      else
        var args := Inside(Trim(body'[end..]));
        if args.None? then true
        else
          var parts := Parts(args.value);
          if parts.None? then true
          else if |parts.value| < 2 || IsBlank(parts.value[0]) then true
          else AllBlank(parts.value[1..]) || AnyDisables(alnum, parts.value[1..], nesting + 1, |args.value|)
  }

  predicate AllBlank(parts: seq<string>) { forall k :: 0 <= k < |parts| ==> IsBlank(parts[k]) }

  predicate AnyDisables(alnum: char -> bool, parts: seq<string>, nesting: nat, bound: nat)
    requires forall p :: p in parts ==> |p| <= bound
    decreases bound, 1
  {
    exists k :: 0 <= k < |parts| && !IsBlank(parts[k]) && MayDisable(alnum, parts[k], true, nesting)
  }

  // ----- the loops -----

  method SplitParts(args: string) returns (parts: Option<seq<string>>)
    ensures parts == Parts(args)
  {
    var depth := 0;
    var found: seq<string> := [];
    var start := 0;
    BeforeNone(Parts(args));
    for offset := 0 to |args|
      invariant 0 <= start <= offset && depth >= 0
      invariant Before(found, PartsFrom(args, offset, start, depth)) == Parts(args)
    {
      var ch := args[offset];
      if IsOpen(ch) {
        depth := depth + 1;
      } else if IsClose(ch) {
        depth := depth - 1;
      } else if ch == ',' && depth == 0 {
        BeforeSnoc(found, args[start..offset], PartsFrom(args, offset + 1, offset + 1, 0));
        found := found + [args[start..offset]];
        start := offset + 1;
      }
      if depth < 0 { return None; }
    }
    if depth != 0 { return None; }
    parts := Some(found + [args[start..]]);
  }

  function Before(found: seq<string>, rest: Option<seq<string>>): Option<seq<string>> {
    match rest case None => None case Some(r) => Some(found + r)
  }

  lemma BeforeNone(rest: Option<seq<string>>)
    ensures Before([], rest) == rest
  {
    if rest.Some? { assert [] + rest.value == rest.value; }
  }

  lemma BeforeSnoc(found: seq<string>, part: string, rest: Option<seq<string>>)
    ensures Before(found + [part], rest) == Before(found, Before([part], rest))
  {
    if rest.Some? { assert found + [part] + rest.value == found + ([part] + rest.value); }
  }

  method CfgMetaMayDisable(alnum: char -> bool, body: string, complete: bool, nesting: nat) returns (r: bool)
    ensures r == MayDisable(alnum, body, complete, nesting)
    decreases |body|, 0
  {
    if nesting >= MAX_NESTING { return true; }
    var trimmed := Trim(body);
    var end := WordEnd(alnum, trimmed, 0);
    if trimmed[..end] == "cfg" { return true; }
    if trimmed[..end] != "cfg_attr" { return false; }
    if !complete { return true; }
    var args := Inside(Trim(trimmed[end..]));
    if args.None? { return true; }
    var split := SplitParts(args.value);
    if split.None? { return true; }
    var parts := split.value;
    if |parts| < 2 || IsBlank(parts[0]) { return true; }
    r := AnyPayload(alnum, parts[1..], nesting + 1, |args.value|);
  }

  method AnyPayload(alnum: char -> bool, payloads: seq<string>, nesting: nat, bound: nat) returns (r: bool)
    requires forall p :: p in payloads ==> |p| <= bound
    ensures r == (AllBlank(payloads) || AnyDisables(alnum, payloads, nesting, bound))
    decreases bound, 1
  {
    hide MayDisable, IsBlank;
    var none := true;
    for k := 0 to |payloads|
      invariant none <==> AllBlank(payloads[..k])
      invariant forall j :: 0 <= j < k ==> IsBlank(payloads[j]) || !MayDisable(alnum, payloads[j], true, nesting)
    {
      assert payloads[..k + 1] == payloads[..k] + [payloads[k]];
      if !IsBlank(payloads[k]) {
        none := false;
        assert !IsBlank(payloads[..k + 1][k]);
        var found := CfgMetaMayDisable(alnum, payloads[k], true, nesting);
        if found { return true; }
      } else if none {
        assert forall j :: 0 <= j < k ==> IsBlank(payloads[..k][j]);
      }
    }
    assert payloads[..|payloads|] == payloads;
    r := none;
  }

  // ----- attributes as trees -----

  /** A path with the text after it, or `cfg_attr(condition, payload, ...)`. */
  datatype Meta =
    | Leaf(name: string, rest: string)
    | CfgAttr(gap: string, condition: string, payloads: seq<Item>)

  /** A payload with the white space around it; `Blank` is what a trailing comma leaves. */
  datatype Item = Blank(space: string) | Item(before: string, meta: Meta, after: string)

  function Print(m: Meta): string {
    match m
    case Leaf(name, rest) => name + rest
    case CfgAttr(gap, condition, payloads) =>
      "cfg_attr" + gap + "(" + Join([condition] + PrintItems(payloads), ',') + ")"
  }

  function PrintItems(items: seq<Item>): (r: seq<string>)
    ensures |r| == |items|
    ensures forall k :: 0 <= k < |items| ==> r[k] == PrintItem(items[k])
  {
    if |items| == 0 then [] else [PrintItem(items[0])] + PrintItems(items[1..])
  }

  function PrintItem(item: Item): string {
    match item case Blank(space) => space case Item(before, meta, after) => before + Print(meta) + after
  }

  /** The bracket depth after `s`, read from depth `d`; none if it closes too early or holds a comma at depth 0. */
  function Level(s: string, d: nat): Option<nat> {
    if s == "" then Some(d)
    else if IsOpen(s[0]) then Level(s[1..], d + 1)
    else if IsClose(s[0]) then (if d == 0 then None else Level(s[1..], d - 1))
    else if s[0] == ',' && d == 0 then None
    else Level(s[1..], d)
  }

  /** Brackets balance and no comma is outside them. */
  predicate IsFlat(s: string) { Level(s, 0) == Some(0) }

  predicate IsWord(alnum: char -> bool, s: string) { |s| > 0 && forall k :: 0 <= k < |s| ==> IsWordChar(alnum, s[k]) }

  predicate WellFormed(alnum: char -> bool, m: Meta) {
    match m
    case Leaf(name, rest) =>
      && IsWord(alnum, name) && name != "cfg_attr" && IsFlat(name + rest) && !IsSpace(name[0])
      && (rest == "" || !IsWordChar(alnum, rest[0])) && !IsSpace((name + rest)[|name + rest| - 1])
    case CfgAttr(gap, condition, payloads) =>
      && IsBlank(gap) && IsFlat(condition) && !IsBlank(condition)
      && (exists k :: 0 <= k < |payloads| && payloads[k].Item?)
      && forall k :: 0 <= k < |payloads| ==>
        match payloads[k]
        case Blank(space) => IsBlank(space)
        case Item(before, meta, after) => IsBlank(before) && IsBlank(after) && WellFormed(alnum, meta)
  }

  /** A `cfg` is reachable through `cfg_attr` payloads. */
  predicate HasCfg(m: Meta) {
    match m
    case Leaf(name, _) => name == "cfg"
    case CfgAttr(_, _, payloads) => exists k :: 0 <= k < |payloads| && payloads[k].Item? && HasCfg(payloads[k].meta)
  }

  /** Payloads are nested at least `n` deep. */
  predicate IsDeep(m: Meta, n: nat) {
    n == 0 ||
    (m.CfgAttr? && exists k :: 0 <= k < |m.payloads| && m.payloads[k].Item? && IsDeep(m.payloads[k].meta, n - 1))
  }

  // ----- printed trees split back -----

  lemma {:induction false} LevelAppend(a: string, b: string, d: nat)
    ensures Level(a + b, d) == match Level(a, d) case None => None case Some(e) => Level(b, e)
  {
    if a == "" {
      assert a + b == b;
    } else {
      assert (a + b)[1..] == a[1..] + b;
      if IsOpen(a[0]) { LevelAppend(a[1..], b, d + 1); }
      else if IsClose(a[0]) { if d > 0 { LevelAppend(a[1..], b, d - 1); } }
      else { LevelAppend(a[1..], b, d); }
    }
  }

  /** Deeper down, what was flat stays balanced. */
  lemma {:induction false} LevelShift(s: string, d: nat, up: nat)
    requires Level(s, d).Some?
    ensures Level(s, d + up) == Some(Level(s, d).value + up)
  {
    if s != "" {
      if IsOpen(s[0]) { LevelShift(s[1..], d + 1, up); }
      else if IsClose(s[0]) { LevelShift(s[1..], d - 1, up); }
      else { LevelShift(s[1..], d, up); }
    }
  }

  predicate AllFlat(parts: seq<string>) { forall k :: 0 <= k < |parts| ==> IsFlat(parts[k]) }

  /** Joined by commas inside a bracket. */
  lemma {:induction false} LevelJoin(parts: seq<string>)
    requires AllFlat(parts)
    ensures Level(Join(parts, ','), 1) == Some(1)
  {
    if |parts| > 0 {
      LevelShift(parts[0], 0, 1);
      if |parts| > 1 {
        LevelJoin(parts[1..]);
        LevelAppend(parts[0] + [','], Join(parts[1..], ','), 1);
        LevelAppend(parts[0], [','], 1);
        assert Level([','], 1) == Level([','][1..], 1);
      }
    }
  }

  /** Reading a flat stretch moves on without finding a part. */
  lemma {:induction false} PartsOverFlat(args: string, i: nat, start: nat, d: nat, s: string)
    requires start <= i && i + |s| <= |args| && args[i..i + |s|] == s && Level(s, d).Some?
    ensures PartsFrom(args, i, start, d) == PartsFrom(args, i + |s|, start, Level(s, d).value)
    decreases |s|
  {
    if s != "" {
      assert args[i] == s[0];
      assert args[i + 1..i + 1 + |s[1..]|] == s[1..];
      if IsOpen(s[0]) { PartsOverFlat(args, i + 1, start, d + 1, s[1..]); }
      else if IsClose(s[0]) { PartsOverFlat(args, i + 1, start, d - 1, s[1..]); }
      else { PartsOverFlat(args, i + 1, start, d, s[1..]); }
    }
  }

  lemma {:induction false} PartsOfJoin(args: string, i: nat, parts: seq<string>)
    requires |parts| > 0 && AllFlat(parts) && i <= |args| && args[i..] == Join(parts, ',')
    ensures PartsFrom(args, i, i, 0) == Some(parts)
    decreases |parts|
  {
    var s := parts[0];
    if |parts| == 1 {
      assert args[i..i + |s|] == args[i..] && i + |s| == |args|;
      PartsOverFlat(args, i, i, 0, s);
      assert PartsFrom(args, |args|, i, 0) == Some([s]) && parts == [s];
    } else {
      var rest := Join(parts[1..], ',');
      var e := i + |s|;
      assert args[i..] == s + [','] + rest;
      assert args[i..e] == args[i..][..|s|] == s;
      assert args[e] == args[i..][|s|] == ',';
      assert args[e + 1..] == args[i..][|s| + 1..] == rest;
      PartsOverFlat(args, i, i, 0, s);
      PartsOfJoin(args, e + 1, parts[1..]);
      assert [s] + parts[1..] == parts;
    }
  }

  // ----- the printed form -----

  predicate Printed(alnum: char -> bool, m: Meta) {
    var s := Print(m);
    |s| > 0 && !IsSpace(s[0]) && !IsSpace(s[|s| - 1]) && IsFlat(s)
  }

  lemma BlankIsFlat(s: string)
    requires IsBlank(s)
    ensures IsFlat(s)
  {
    if s != "" { assert IsSpace(s[0]); BlankIsFlat(s[1..]); }
  }

  lemma PaddedIsFlat(a: string, s: string, b: string)
    requires IsBlank(a) && IsBlank(b) && IsFlat(s)
    ensures IsFlat(a + s + b)
  {
    BlankIsFlat(a);
    BlankIsFlat(b);
    LevelAppend(a, s, 0);
    LevelAppend(a + s, b, 0);
  }

  function PartsOf(m: Meta): seq<string>
    requires m.CfgAttr?
  {
    [m.condition] + PrintItems(m.payloads)
  }

  lemma {:induction false} PrintedIsFlat(alnum: char -> bool, m: Meta)
    requires WellFormed(alnum, m)
    ensures Printed(alnum, m) && (m.CfgAttr? ==> AllFlat(PartsOf(m)))
    decreases m
  {
    if m.CfgAttr? {
      var parts := PartsOf(m);
      forall k | 0 <= k < |parts| ensures IsFlat(parts[k]) {
        if k > 0 {
          var item := m.payloads[k - 1];
          match item
          case Blank(space) => BlankIsFlat(space);
          case Item(before, meta, after) =>
            PrintedIsFlat(alnum, meta);
            PaddedIsFlat(before, Print(meta), after);
        }
      }
      AttrIsFlat(m.gap, parts);
    }
  }

  lemma AttrIsFlat(gap: string, parts: seq<string>)
    requires IsBlank(gap) && AllFlat(parts)
    ensures IsFlat("cfg_attr" + gap + "(" + Join(parts, ',') + ")")
  {
    var head, args := "cfg_attr" + gap, Join(parts, ',');
    WordIsFlat("cfg_attr");
    BlankIsFlat(gap);
    LevelAppend("cfg_attr", gap, 0);
    LevelAppend(head, "(", 0);
    LevelJoin(parts);
    LevelAppend(head + "(", args, 0);
    LevelAppend(head + "(" + args, ")", 0);
    assert Level("(", 0) == Level("("[1..], 1);
    assert Level(")", 1) == Level(")"[1..], 0);
  }

  lemma WordIsFlat(s: string)
    requires forall k :: 0 <= k < |s| ==> s[k] == '_' || IsAsciiAlnum(s[k])
    ensures IsFlat(s)
  {
    if s != "" { WordIsFlat(s[1..]); }
  }

  /** Unicode: no white space is a letter or digit. */
  ghost predicate IsUnicode(alnum: char -> bool) { forall c :: IsSpace(c) ==> !alnum(c) }

  lemma PrintAttr(m: Meta)
    requires m.CfgAttr?
    ensures Print(m) == "cfg_attr" + (m.gap + ("(" + Join(PartsOf(m), ',') + ")"))
  {
    var args := Join(PartsOf(m), ',');
    assert Print(m) == "cfg_attr" + m.gap + "(" + args + ")";
    hide Print, Join, PartsOf;
    Reassociate("cfg_attr", m.gap, "(", args, ")");
  }

  lemma Reassociate(a: string, b: string, c: string, d: string, e: string)
    ensures a + b + c + d + e == a + (b + (c + d + e))
  {
  }

  lemma GapEndsWord(alnum: char -> bool, gap: string, tail: string)
    requires IsUnicode(alnum) && IsBlank(gap) && |tail| > 0 && tail[0] == '('
    ensures !IsWordChar(alnum, (gap + tail)[0])
  {
    if gap != "" { assert IsSpace(gap[0]); }
  }

  /** The word of an attribute, and what its parentheses hold. */
  lemma ReadsBody(alnum: char -> bool, gap: string, args: string)
    requires IsUnicode(alnum) && IsBlank(gap)
    ensures var body := "cfg_attr" + (gap + ("(" + args + ")"));
      WordEnd(alnum, body, 0) == 8 && body[..8] == "cfg_attr" && Inside(Trim(body[8..])) == Some(args)
  {
    var tail := "(" + args + ")";
    var body := "cfg_attr" + (gap + tail);
    assert body[..8] == "cfg_attr" && body[8..] == gap + tail;
    assert body[8] == (gap + tail)[0];
    GapEndsWord(alnum, gap, tail);
    AttrIsWord(alnum);
    assert forall k :: 0 <= k < 8 ==> body[k] == "cfg_attr"[k];
    RunEndIs(WordClass(alnum), body, 0, 8);
    TrimBlanks(gap, tail, "");
    assert gap + tail + "" == gap + tail;
    assert tail[1..|tail| - 1] == args;
  }

  lemma AttrIsWord(alnum: char -> bool)
    ensures forall k :: 0 <= k < 8 ==> IsWordChar(alnum, "cfg_attr"[k])
  {
  }

  /** What the parser sees of a padded attribute. */
  lemma ReadsAttr(alnum: char -> bool, a: string, m: Meta, b: string)
    requires IsUnicode(alnum) && m.CfgAttr? && WellFormed(alnum, m) && IsBlank(a) && IsBlank(b)
    ensures var body := Trim(a + Print(m) + b); var end := WordEnd(alnum, body, 0);
      && body[..end] == "cfg_attr" && Inside(Trim(body[end..])) == Some(Join(PartsOf(m), ','))
      && Parts(Join(PartsOf(m), ',')) == Some(PartsOf(m))
  {
    PrintedIsFlat(alnum, m);
    var args := Join(PartsOf(m), ',');
    TrimBlanks(a, Print(m), b);
    assert args[0..] == args;
    PartsOfJoin(args, 0, PartsOf(m));
    PrintAttr(m);
    hide Print, Join, IsFlat, Level, PartsFrom, Trim, WordEnd, Inside;
    ReadsBody(alnum, m.gap, args);
  }

  lemma ReadsLeaf(alnum: char -> bool, a: string, m: Meta, b: string)
    requires m.Leaf? && WellFormed(alnum, m) && IsBlank(a) && IsBlank(b)
    ensures var body := Trim(a + Print(m) + b); body[..WordEnd(alnum, body, 0)] == m.name
  {
    var s := Print(m);
    TrimBlanks(a, s, b);
    assert forall k :: 0 <= k < |m.name| ==> s[k] == m.name[k];
    assert |m.name| < |s| ==> s[|m.name|] == m.rest[0];
    RunEndIs(WordClass(alnum), s, 0, |m.name|);
    assert s[..|m.name|] == m.name;
  }

  // ----- what the parser decides -----

  lemma PrintedNotBlank(a: string, s: string, b: string)
    requires |s| > 0 && !IsSpace(s[0])
    ensures !IsBlank(a + s + b)
  {
    assert (a + s + b)[|a|] == s[0];
  }

  /** The nonblank payloads are the attributes among the items. */
  lemma PayloadIs(alnum: char -> bool, m: Meta, k: nat)
    requires m.CfgAttr? && WellFormed(alnum, m) && k < |m.payloads|
    ensures PartsOf(m)[1..][k] == PrintItem(m.payloads[k])
    ensures IsBlank(PartsOf(m)[1..][k]) <==> m.payloads[k].Blank?
  {
    assert PartsOf(m)[1..] == PrintItems(m.payloads);
    var item := m.payloads[k];
    if item.Item? {
      PrintedIsFlat(alnum, item.meta);
      hide Print, WellFormed;
      PrintedNotBlank(item.before, Print(item.meta), item.after);
    }
  }

  /** Some payload, printed, makes the parser say yes. */
  predicate SomeDisables(alnum: char -> bool, items: seq<Item>, nesting: nat) {
    exists k :: 0 <= k < |items| && items[k].Item? && MayDisable(alnum, PrintItem(items[k]), true, nesting)
  }

  lemma SameDisables(alnum: char -> bool, items: seq<Item>, payloads: seq<string>, nesting: nat)
    requires |items| == |payloads|
    requires forall k :: 0 <= k < |items| ==>
      payloads[k] == PrintItem(items[k]) && (IsBlank(payloads[k]) <==> items[k].Blank?)
    ensures SomeDisables(alnum, items, nesting) <==>
      exists k :: 0 <= k < |payloads| && !IsBlank(payloads[k]) && MayDisable(alnum, payloads[k], true, nesting)
  {
    hide MayDisable, PrintItem, IsBlank;
    if SomeDisables(alnum, items, nesting) {
      var k :| 0 <= k < |items| && items[k].Item? && MayDisable(alnum, PrintItem(items[k]), true, nesting);
      assert !IsBlank(payloads[k]) && MayDisable(alnum, payloads[k], true, nesting);
    }
  }

  /** The attribute case of the parser, on a printed tree. */
  lemma AttrDisables(alnum: char -> bool, a: string, m: Meta, b: string, nesting: nat)
    requires IsUnicode(alnum) && m.CfgAttr? && WellFormed(alnum, m) && IsBlank(a) && IsBlank(b) && nesting < MAX_NESTING
    ensures MayDisable(alnum, a + Print(m) + b, true, nesting) <==> SomeDisables(alnum, m.payloads, nesting + 1)
  {
    var parts := PartsOf(m);
    var payloads := parts[1..];
    ReadsAttr(alnum, a, m, b);
    var one :| 0 <= one < |m.payloads| && m.payloads[one].Item?;
    assert !IsBlank(parts[0]) && |parts| == |m.payloads| + 1;
    hide MayDisable, Print, PrintItem, IsBlank, WellFormed, PartsOf, Trim, WordEnd, Parts, Inside, IsUnicode;
    forall k | 0 <= k < |m.payloads|
      ensures payloads[k] == PrintItem(m.payloads[k]) && (IsBlank(payloads[k]) <==> m.payloads[k].Blank?)
    {
      PayloadIs(alnum, m, k);
    }
    assert !AllBlank(payloads) by { assert !IsBlank(payloads[one]); }
    AttrUnfolds(alnum, a + Print(m) + b, Join(parts, ','), parts, nesting);
    SameDisables(alnum, m.payloads, payloads, nesting + 1);
  }

  lemma AttrUnfolds(alnum: char -> bool, text: string, args: string, parts: seq<string>, nesting: nat)
    requires nesting < MAX_NESTING
    requires var body := Trim(text); var end := WordEnd(alnum, body, 0);
      body[..end] == "cfg_attr" && Inside(Trim(body[end..])) == Some(args) && Parts(args) == Some(parts)
    requires |parts| >= 2 && !IsBlank(parts[0]) && !AllBlank(parts[1..])
    ensures MayDisable(alnum, text, true, nesting) <==>
      exists k :: 0 <= k < |parts[1..]| && !IsBlank(parts[1..][k]) &&
        MayDisable(alnum, parts[1..][k], true, nesting + 1)
  {
  }

  lemma LeafDisables(alnum: char -> bool, a: string, m: Meta, b: string, nesting: nat)
    requires m.Leaf? && WellFormed(alnum, m) && IsBlank(a) && IsBlank(b) && nesting < MAX_NESTING
    ensures MayDisable(alnum, a + Print(m) + b, true, nesting) <==> m.name == "cfg"
  {
    ReadsLeaf(alnum, a, m, b);
  }

  /** What the parser should say of an attribute, with `n` levels to go. */
  predicate Found(m: Meta, n: nat) { HasCfg(m) || IsDeep(m, n) }

  lemma FoundInside(m: Meta, n: nat)
    requires m.CfgAttr? && n > 0
    ensures Found(m, n) <==>
      exists k :: 0 <= k < |m.payloads| && m.payloads[k].Item? && Found(m.payloads[k].meta, n - 1)
  {
  }

  lemma Agree(alnum: char -> bool, m: Meta, n: nat, nesting: nat)
    requires m.CfgAttr? && n > 0
    requires forall k :: 0 <= k < |m.payloads| && m.payloads[k].Item? ==>
      (MayDisable(alnum, PrintItem(m.payloads[k]), true, nesting) <==> Found(m.payloads[k].meta, n - 1))
    ensures SomeDisables(alnum, m.payloads, nesting) <==> Found(m, n)
  {
    FoundInside(m, n);
    hide Found, MayDisable, PrintItem;
  }

  /**
   * On the printed form of a well-formed attribute the parser answers yes exactly when a `cfg` is
   * reachable through the payloads, or the payloads are nested past the bound.
   */
  lemma {:induction false} DisablesExactly(alnum: char -> bool, a: string, m: Meta, b: string, nesting: nat)
    requires IsUnicode(alnum) && WellFormed(alnum, m) && IsBlank(a) && IsBlank(b) && nesting <= MAX_NESTING
    ensures MayDisable(alnum, a + Print(m) + b, true, nesting) <==> Found(m, MAX_NESTING - nesting)
    decreases m
  {
    if nesting == MAX_NESTING {
      BoundReached(alnum, a + Print(m) + b, m);
    } else if m.Leaf? {
      LeafDisables(alnum, a, m, b, nesting);
      hide MayDisable, Print, WellFormed, IsBlank;
    } else {
      hide MayDisable, Print, IsUnicode, Found, WellFormed, IsBlank;
      AttrExactly(alnum, a, m, b, nesting);
    }
  }

  lemma BoundReached(alnum: char -> bool, text: string, m: Meta)
    ensures MayDisable(alnum, text, true, MAX_NESTING) && Found(m, 0)
  {
  }

  lemma {:induction false} AttrExactly(alnum: char -> bool, a: string, m: Meta, b: string, nesting: nat)
    requires IsUnicode(alnum) && m.CfgAttr? && WellFormed(alnum, m) && IsBlank(a) && IsBlank(b) && nesting < MAX_NESTING
    ensures MayDisable(alnum, a + Print(m) + b, true, nesting) <==> Found(m, MAX_NESTING - nesting)
    decreases m, 1
  {
    hide MayDisable, Print, PrintItem, IsUnicode, SomeDisables, Found, WellFormed, IsBlank;
    AttrDisables(alnum, a, m, b, nesting);
    ItemsDisable(alnum, m, nesting + 1);
    Agree(alnum, m, MAX_NESTING - nesting, nesting + 1);
  }

  lemma {:induction false} ItemsDisable(alnum: char -> bool, m: Meta, nesting: nat)
    requires IsUnicode(alnum) && m.CfgAttr? && WellFormed(alnum, m) && nesting <= MAX_NESTING
    ensures forall k :: 0 <= k < |m.payloads| && m.payloads[k].Item? ==>
      (MayDisable(alnum, PrintItem(m.payloads[k]), true, nesting) <==> Found(m.payloads[k].meta, MAX_NESTING - nesting))
    decreases m, 0
  {
    forall k | 0 <= k < |m.payloads| && m.payloads[k].Item?
      ensures MayDisable(alnum, PrintItem(m.payloads[k]), true, nesting) <==>
        Found(m.payloads[k].meta, MAX_NESTING - nesting)
    {
      var item := m.payloads[k];
      assert IsBlank(item.before) && IsBlank(item.after) && WellFormed(alnum, item.meta);
      hide MayDisable, Print, PrintItem, Found, IsUnicode, WellFormed, IsBlank;
      ItemDisables(alnum, item, nesting);
    }
  }

  lemma {:induction false} ItemDisables(alnum: char -> bool, item: Item, nesting: nat)
    requires IsUnicode(alnum) && item.Item? && nesting <= MAX_NESTING
    requires IsBlank(item.before) && IsBlank(item.after) && WellFormed(alnum, item.meta)
    ensures MayDisable(alnum, PrintItem(item), true, nesting) <==> Found(item.meta, MAX_NESTING - nesting)
    decreases item
  {
    hide MayDisable, Print, Found, IsUnicode, WellFormed, IsBlank;
    DisablesExactly(alnum, item.before, item.meta, item.after, nesting);
  }

  /** So it never misses a reachable `cfg`, and is exact for attributes nested fewer than 32 deep. */
  lemma NeverMisses(alnum: char -> bool, m: Meta)
    requires IsUnicode(alnum) && WellFormed(alnum, m)
    ensures HasCfg(m) ==> MayDisable(alnum, Print(m), true, 0)
    ensures !IsDeep(m, MAX_NESTING) ==> (MayDisable(alnum, Print(m), true, 0) <==> HasCfg(m))
  {
    hide MayDisable, Print, HasCfg, IsDeep, WellFormed, IsUnicode;
    DisablesExactly(alnum, "", m, "", 0);
    assert "" + Print(m) + "" == Print(m);
  }
}
