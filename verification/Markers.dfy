/**
 * The hidden markers of posted comments (src/domain/github_review.rs:33-98): how they are written,
 * and how the two regular expressions read them back.
 */
module Markers {
  import opened Text

  const FP_OPEN := "<!-- momus:fp="
  const TOPIC_OPEN := "<!-- momus:topic="
  const CLOSE := " -->"

  predicate IsHexChar(c: char) { '0' <= c <= '9' || 'a' <= c <= 'f' }
  predicate IsLetter(c: char) { 'a' <= c <= 'z' || 'A' <= c <= 'Z' }
  predicate IsWordChar(c: char) { IsLetter(c) || '0' <= c <= '9' || c == '_' }

  /** `[0-9a-f]+` */
  predicate IsHex(s: string) { |s| > 0 && forall k :: 0 <= k < |s| ==> IsHexChar(s[k]) }

  function FingerprintMarker(fp: string): string { FP_OPEN + fp + CLOSE }

  // ----- fingerprints: every match, leftmost first, without overlap -----

  /** Where the hex digits end, if the expression matches at `i`. */
  function MatchAt(s: string, i: nat): (m: Option<nat>)
    ensures m.Some? ==> i + |FP_OPEN| < m.value && m.value + |CLOSE| <= |s|
  {
    if !At(s, i, FP_OPEN) then None
    else
      var e := RunEnd(IsHexChar, s, i + |FP_OPEN|);
      if e > i + |FP_OPEN| && At(s, e, CLOSE) then Some(e) else None
  }

  function Scan(s: string, i: nat): set<string>
    decreases |s| - i
  {
    if i >= |s| then {}
    else match MatchAt(s, i)
      case Some(e) => {s[i + |FP_OPEN|..e]} + Scan(s, e + |CLOSE|)
      case None => Scan(s, i + 1)
  }

  /** `posted_fingerprints`, one body at a time. */
  function Fingerprints(bodies: seq<string>): set<string> {
    if |bodies| == 0 then {} else Fingerprints(bodies[..|bodies| - 1]) + Scan(bodies[|bodies| - 1], 0)
  }

  lemma AtAppend(s: string, i: nat, t: string, u: string)
    ensures At(s, i, t + u) <==> At(s, i, t) && At(s, i + |t|, u)
  {
    var m, e := i + |t|, i + |t| + |u|;
    if e <= |s| {
      assert s[i..e] == s[i..m] + s[m..e];
      assert s[i..e][..|t|] == s[i..m] && s[i..e][|t|..] == s[m..e];
      assert (t + u)[..|t|] == t && (t + u)[|t|..] == u;
    }
  }

  lemma AtChar(s: string, i: nat, t: string, k: nat)
    requires At(s, i, t) && k < |t|
    ensures i + k < |s| && s[i + k] == t[k]
  {
    assert s[i..i + |t|][k] == s[i + k];
  }

  lemma PartsAt(s: string, i: nat, fp: string)
    ensures At(s, i, FingerprintMarker(fp)) <==>
      At(s, i, FP_OPEN) && At(s, i + |FP_OPEN|, fp) && At(s, i + |FP_OPEN| + |fp|, CLOSE)
  {
    AtAppend(s, i, FP_OPEN, fp);
    AtAppend(s, i, FP_OPEN + fp, CLOSE);
    hide At;
  }

  lemma MarkerMatches(s: string, i: nat, fp: string)
    requires IsHex(fp)
    ensures At(s, i, FingerprintMarker(fp)) ==>
      MatchAt(s, i) == Some(i + |FP_OPEN| + |fp|) && s[i + |FP_OPEN|..i + |FP_OPEN| + |fp|] == fp
  {
    if At(s, i, FingerprintMarker(fp)) {
      PartsAt(s, i, fp);
      var a := i + |FP_OPEN|;
      var e := a + |fp|;
      assert s[e] == s[e..e + |CLOSE|][0] == ' ';
      assert forall k :: a <= k < e ==> s[k] == s[a..e][k - a];
      RunEndIs(IsHexChar, s, a, e);
    }
  }

  /** A match spans no second `<`, so skipping past it skips no marker. */
  lemma NothingInside(s: string, i: nat, e: nat, j: nat)
    requires MatchAt(s, i) == Some(e) && i < j < e + |CLOSE|
    ensures s[j] != '<'
  {
    var a := i + |FP_OPEN|;
    if j < a { assert s[j] == s[i..a][j - i] == FP_OPEN[j - i]; }
    else if j < e { assert IsHexChar(s[j]); }
    else { assert s[j] == s[e..e + |CLOSE|][j - e] == CLOSE[j - e]; }
  }

  /** A later marker lies beyond a match. */
  lemma BeyondMatch(s: string, i: nat, e: nat, j: nat, fp: string)
    requires MatchAt(s, i) == Some(e) && i < j && At(s, j, FingerprintMarker(fp))
    ensures e + |CLOSE| <= j
  {
    PartsAt(s, j, fp);
    AtChar(s, j, FP_OPEN, 0);
    if j < e + |CLOSE| { NothingInside(s, i, e, j); }
  }

  lemma MarkerFits(s: string, j: nat, fp: string)
    requires At(s, j, FingerprintMarker(fp))
    ensures j < |s|
  {
  }

  lemma ScanStep(s: string, i: nat)
    requires i < |s|
    ensures Scan(s, i) == match MatchAt(s, i)
      case Some(e) => {s[i + |FP_OPEN|..e]} + Scan(s, e + |CLOSE|)
      case None => Scan(s, i + 1)
  {
    hide MatchAt;
  }

  lemma {:induction false} ScanFinds(s: string, i: nat, j: nat, fp: string)
    requires IsHex(fp) && i <= j && At(s, j, FingerprintMarker(fp))
    ensures fp in Scan(s, i)
    decreases |s| - i
  {
    hide Scan, MatchAt, At, FingerprintMarker, IsHex;
    var m := MatchAt(s, i);
    MarkerFits(s, j, fp);
    ScanStep(s, i);
    if i == j {
      MarkerMatches(s, j, fp);
    } else if m.Some? {
      BeyondMatch(s, i, m.value, j, fp);
      ScanFinds(s, m.value + |CLOSE|, j, fp);
    } else {
      ScanFinds(s, i + 1, j, fp);
    }
  }

  lemma ScanNothing(s: string, i: nat)
    requires i >= |s|
    ensures Scan(s, i) == {}
  {
  }

  lemma MatchIsMarker(s: string, i: nat, e: nat)
    requires MatchAt(s, i) == Some(e)
    ensures IsHex(s[i + |FP_OPEN|..e]) && Contains(s, FingerprintMarker(s[i + |FP_OPEN|..e]))
  {
    PartsAt(s, i, s[i + |FP_OPEN|..e]);
  }

  lemma {:induction false} ScanIsSound(s: string, i: nat, fp: string)
    requires fp in Scan(s, i)
    ensures IsHex(fp) && Contains(s, FingerprintMarker(fp))
    decreases |s| - i
  {
    hide Scan, MatchAt, At, FingerprintMarker, IsHex, Contains;
    if i >= |s| { ScanNothing(s, i); }
    ScanStep(s, i);
    match MatchAt(s, i)
    case Some(e) =>
      if fp == s[i + |FP_OPEN|..e] { MatchIsMarker(s, i, e); }
      else { ScanIsSound(s, e + |CLOSE|, fp); }
    case None => ScanIsSound(s, i + 1, fp);
  }

  /** The expression finds exactly the nonempty hex fingerprints whose marker stands somewhere in the text. */
  lemma ScanIsExact(s: string, fp: string)
    ensures fp in Scan(s, 0) <==> IsHex(fp) && Contains(s, FingerprintMarker(fp))
  {
    if fp in Scan(s, 0) { ScanIsSound(s, 0, fp); }
    if IsHex(fp) && Contains(s, FingerprintMarker(fp)) {
      var j :| 0 <= j <= |s| && At(s, j, FingerprintMarker(fp));
      ScanFinds(s, 0, j, fp);
    }
  }

  lemma {:induction false} FingerprintsAre(bodies: seq<string>, fp: string)
    ensures fp in Fingerprints(bodies) <==> exists b :: b in bodies && fp in Scan(b, 0)
  {
    if |bodies| > 0 {
      var front, last := bodies[..|bodies| - 1], bodies[|bodies| - 1];
      FingerprintsAre(front, fp);
      assert bodies == front + [last];
      if b :| b in bodies && fp in Scan(b, 0) { assert b in front || b == last; }
      if b :| b in front && fp in Scan(b, 0) { assert b in bodies; }
      assert last in bodies;
    }
  }

  // ----- topics: the first match of a body -----

  function TopicAt(s: string, i: nat): Option<string> {
    if !At(s, i, TOPIC_OPEN) then None
    else
      var a := i + |TOPIC_OPEN|;
      var slash := RunEnd(IsLetter, s, a);
      if slash == a || slash == |s| || s[slash] != '/' then None
      else
        var e := RunEnd(IsWordChar, s, slash + 1);
        if e > slash + 1 && At(s, e, CLOSE) then Some(s[a..e]) else None
  }

  function FirstTopic(s: string, i: nat): Option<string>
    decreases |s| - i
  {
    if i >= |s| then None else if TopicAt(s, i).Some? then TopicAt(s, i) else FirstTopic(s, i + 1)
  }

  /** `[A-Za-z]+` and `[A-Za-z0-9_]+` */
  predicate IsTopic(dimension: string, mechanism: string) {
    && |dimension| > 0 && (forall k :: 0 <= k < |dimension| ==> IsLetter(dimension[k]))
    && |mechanism| > 0 && (forall k :: 0 <= k < |mechanism| ==> IsWordChar(mechanism[k]))
  }

  function TopicMarker(dimension: string, mechanism: string): string {
    TOPIC_OPEN + (dimension + "/" + mechanism) + CLOSE
  }

  lemma TopicMarkerMatches(before: string, dimension: string, mechanism: string)
    requires IsTopic(dimension, mechanism)
    ensures |before| < |before + TopicMarker(dimension, mechanism)|
    ensures TopicAt(before + TopicMarker(dimension, mechanism), |before|) == Some(dimension + "/" + mechanism)
  {
    var s := before + TopicMarker(dimension, mechanism);
    assert s[|before|..] == TopicMarker(dimension, mechanism);
    TopicParts(s, |before|, dimension, mechanism);
    TopicMatches(s, |before|, dimension, mechanism);
  }

  lemma TopicParts(s: string, i: nat, dimension: string, mechanism: string)
    requires At(s, i, TopicMarker(dimension, mechanism))
    ensures var a := i + |TOPIC_OPEN|; var slash := a + |dimension|;
      && At(s, i, TOPIC_OPEN) && At(s, a, dimension) && At(s, slash, "/") && At(s, slash + 1, mechanism)
      && At(s, slash + 1 + |mechanism|, CLOSE) && At(s, a, dimension + "/" + mechanism)
  {
    AtAppend(s, i, TOPIC_OPEN + (dimension + "/" + mechanism), CLOSE);
    AtAppend(s, i, TOPIC_OPEN, dimension + "/" + mechanism);
    AtAppend(s, i + |TOPIC_OPEN|, dimension + "/", mechanism);
    AtAppend(s, i + |TOPIC_OPEN|, dimension, "/");
    hide At;
  }

  lemma AtIs(s: string, i: nat, t: string)
    requires At(s, i, t)
    ensures i + |t| <= |s| && s[i..i + |t|] == t
  {
  }

  lemma TopicMatches(s: string, i: nat, dimension: string, mechanism: string)
    requires IsTopic(dimension, mechanism)
    requires var a := i + |TOPIC_OPEN|; var slash := a + |dimension|;
      && At(s, i, TOPIC_OPEN) && At(s, a, dimension) && At(s, slash, "/") && At(s, slash + 1, mechanism)
      && At(s, slash + 1 + |mechanism|, CLOSE) && At(s, a, dimension + "/" + mechanism)
    ensures TopicAt(s, i) == Some(dimension + "/" + mechanism)
  {
    hide At, RunEnd;
    var a := i + |TOPIC_OPEN|;
    var slash := a + |dimension|;
    var e := slash + 1 + |mechanism|;
    AtChar(s, slash, "/", 0);
    AtChar(s, e, CLOSE, 0);
    forall k | a <= k < slash ensures IsLetter(s[k]) { AtChar(s, a, dimension, k - a); }
    forall k | slash + 1 <= k < e ensures IsWordChar(s[k]) { AtChar(s, slash + 1, mechanism, k - slash - 1); }
    RunEndIs(IsLetter, s, a, slash);
    RunEndIs(IsWordChar, s, slash + 1, e);
    AtIs(s, a, dimension + "/" + mechanism);
  }

  lemma {:induction false} FirstTopicIs(s: string, i: nat, j: nat)
    requires i <= j < |s| && TopicAt(s, j).Some? && forall k :: i <= k < j ==> TopicAt(s, k).None?
    ensures FirstTopic(s, i) == TopicAt(s, j)
    decreases j - i
  {
    if i < j { FirstTopicIs(s, i + 1, j); }
  }
}
