/**
 * What is read back from the comments on a pull request (src/domain/github_review.rs:33-98), in terms
 * of their text.
 */
module MarkerLaws {
  import opened Text
  import opened Markers
  import opened Review

  // ----- the alphabets, by code point -----

  predicate IsDigitCode(c: char) { 48 <= c as int <= 57 }

  predicate IsLetterCode(c: char) { 65 <= c as int <= 90 || 97 <= c as int <= 122 }

  /** `0` to `9` and `a` to `f`. */
  predicate IsHexText(s: string) { s != "" && forall c :: c in s ==> IsDigitCode(c) || 97 <= c as int <= 102 }

  predicate IsLetterText(s: string) { s != "" && forall c :: c in s ==> IsLetterCode(c) }

  /** Letters, digits and the underscore. */
  predicate IsWordText(s: string) { s != "" && forall c :: c in s ==> IsLetterCode(c) || IsDigitCode(c) || c == '_' }

  lemma HexTextIs(s: string)
    ensures IsHex(s) <==> IsHexText(s)
  {
    assert forall k :: 0 <= k < |s| ==> s[k] in s;
  }

  lemma TopicTextIs(dimension: string, mechanism: string)
    ensures IsTopic(dimension, mechanism) <==> IsLetterText(dimension) && IsWordText(mechanism)
  {
    assert forall k :: 0 <= k < |dimension| ==> dimension[k] in dimension;
    assert forall k :: 0 <= k < |mechanism| ==> mechanism[k] in mechanism;
  }

  // ----- fingerprints -----

  ghost predicate Holds(s: string, t: string) { exists a, b :: s == a + t + b }

  lemma HoldsIs(s: string, t: string)
    ensures Contains(s, t) <==> Holds(s, t)
  {
    if Contains(s, t) {
      var i :| 0 <= i <= |s| && At(s, i, t);
      assert s == s[..i] + t + s[i + |t|..];
    }
    if a, b :| s == a + t + b {
      assert At(s, |a|, t);
    }
  }

  /** A comment's fingerprints are the nonempty hex words that stand in a marker somewhere in it. */
  lemma FingerprintsExactly(comments: seq<Comment>, fp: string)
    ensures fp in PostedBy(comments).fingerprints <==>
      IsHexText(fp) && exists c :: c in comments && Holds(c.body, "<!-- momus:fp=" + fp + " -->")
  {
    hide Fingerprints, Scan, IsHex, Holds, IsHexText;
    FingerprintsAre(Bodies(comments), fp);
    HexTextIs(fp);
    forall c | c in comments
      ensures fp in Scan(c.body, 0) <==> IsHexText(fp) && Holds(c.body, "<!-- momus:fp=" + fp + " -->")
    {
      ScanIsExact(c.body, fp);
      HoldsIs(c.body, FingerprintMarker(fp));
    }
    hide Contains;
    if b :| b in Bodies(comments) && fp in Scan(b, 0) {
      var k :| 0 <= k < |comments| && comments[k].body == b;
      assert comments[k] in comments;
    }
    if c :| c in comments && Holds(c.body, "<!-- momus:fp=" + fp + " -->") {
      var k :| 0 <= k < |comments| && comments[k] == c;
      assert Bodies(comments)[k] == c.body;
    }
  }

  // ----- topics -----

  /** A topic marker for `dimension/mechanism` stands at `i`. */
  ghost predicate Stands(s: string, i: nat, dimension: string, mechanism: string) {
    && IsLetterText(dimension) && IsWordText(mechanism) && i <= |s|
    && exists rest :: s[i..] == "<!-- momus:topic=" + (dimension + "/" + mechanism) + " -->" + rest
  }

  lemma StandsIs(s: string, i: nat, dimension: string, mechanism: string)
    ensures Stands(s, i, dimension, mechanism) <==>
      IsTopic(dimension, mechanism) && At(s, i, TopicMarker(dimension, mechanism))
  {
    TopicTextIs(dimension, mechanism);
    hide IsTopic, IsLetterText, IsWordText;
    var t := TopicMarker(dimension, mechanism);
    if i <= |s| {
      if At(s, i, t) { assert s[i..] == t + s[i + |t|..]; }
      if rest :| s[i..] == t + rest { assert s[i..i + |t|] == s[i..][..|t|] == t; }
    }
  }

  lemma TopicReads(s: string, i: nat, dimension: string, mechanism: string)
    requires Stands(s, i, dimension, mechanism)
    ensures i < |s| && TopicAt(s, i) == Some(dimension + "/" + mechanism)
  {
    StandsIs(s, i, dimension, mechanism);
    TopicParts(s, i, dimension, mechanism);
    TopicMatches(s, i, dimension, mechanism);
    AtIs(s, i, TopicMarker(dimension, mechanism));
  }

  lemma LetterRun(s: string, a: nat)
    requires a <= |s| && RunEnd(IsLetter, s, a) > a
    ensures IsLetterText(s[a..RunEnd(IsLetter, s, a)])
  {
  }

  lemma WordRun(s: string, a: nat)
    requires a <= |s| && RunEnd(Markers.IsWordChar, s, a) > a
    ensures IsWordText(s[a..RunEnd(Markers.IsWordChar, s, a)])
  {
  }

  lemma PartsStand(s: string, i: nat, slash: nat, e: nat)
    requires At(s, i, TOPIC_OPEN) && i + |TOPIC_OPEN| < slash < |s| && s[slash] == '/' && slash + 1 < e <= |s|
    requires At(s, e, CLOSE) && IsLetterText(s[i + |TOPIC_OPEN|..slash]) && IsWordText(s[slash + 1..e])
    ensures Stands(s, i, s[i + |TOPIC_OPEN|..slash], s[slash + 1..e])
  {
    hide IsLetterText, IsWordText;
    var a := i + |TOPIC_OPEN|;
    AtIs(s, i, TOPIC_OPEN);
    AtIs(s, e, CLOSE);
    assert s[i..] == s[i..a] + (s[a..slash] + "/" + s[slash + 1..e]) + s[e..e + |CLOSE|] + s[e + |CLOSE|..];
  }

  /** What the expression reads at `i` is a marker that stands there. */
  lemma TopicStands(s: string, i: nat) returns (dimension: string, mechanism: string)
    requires TopicAt(s, i).Some?
    ensures Stands(s, i, dimension, mechanism)
  {
    hide At, RunEnd, Stands, IsLetterText, IsWordText;
    AtIs(s, i, TOPIC_OPEN);
    var a := i + |TOPIC_OPEN|;
    var slash := RunEnd(IsLetter, s, a);
    var e := RunEnd(Markers.IsWordChar, s, slash + 1);
    dimension, mechanism := s[a..slash], s[slash + 1..e];
    LetterRun(s, a);
    WordRun(s, slash + 1);
    PartsStand(s, i, slash, e);
  }

  lemma {:induction false} FirstTopicAt(s: string, i: nat) returns (j: nat)
    requires FirstTopic(s, i).Some?
    ensures i <= j < |s| && TopicAt(s, j) == FirstTopic(s, i) && forall k :: i <= k < j ==> TopicAt(s, k).None?
    decreases |s| - i
  {
    hide TopicAt;
    if TopicAt(s, i).Some? { j := i; } else { j := FirstTopicAt(s, i + 1); }
  }

  /** No topic marker stands before `i`. */
  ghost predicate NoneBefore(s: string, i: nat) { forall j: nat, d, m :: Stands(s, j, d, m) ==> i <= j }

  /** A comment's topic is that of the first topic marker in it. */
  lemma FirstTopicExactly(s: string, topic: string)
    ensures FirstTopic(s, 0) == Some(topic) <==>
      exists i: nat, d, m :: Stands(s, i, d, m) && topic == d + "/" + m && NoneBefore(s, i)
  {
    hide TopicAt, FirstTopic, Stands;
    if FirstTopic(s, 0) == Some(topic) {
      var i := FirstTopicAt(s, 0);
      var d, m := TopicStands(s, i);
      TopicReads(s, i, d, m);
      forall j: nat, d', m' | Stands(s, j, d', m') ensures i <= j { TopicReads(s, j, d', m'); }
      assert Stands(s, i, d, m) && topic == d + "/" + m && NoneBefore(s, i);
    }
    if i: nat, d, m :| Stands(s, i, d, m) && topic == d + "/" + m && NoneBefore(s, i) {
      TopicReads(s, i, d, m);
      forall k | 0 <= k < i ensures TopicAt(s, k).None? {
        if TopicAt(s, k).Some? { var d', m' := TopicStands(s, k); }
      }
      FirstTopicIs(s, 0, i);
    }
  }

  /** The posted topics are those of the comments that still have a line, at that line. */
  lemma {:induction false} TopicsExactly(comments: seq<Comment>, t: PostedTopic)
    ensures t in PostedBy(comments).topics <==>
      exists c :: c in comments && c.path == t.path && c.line == Some(t.line) && FirstTopic(c.body, 0) == Some(t.topic)
  {
    hide FirstTopic, Fingerprints;
    if |comments| > 0 {
      var front, last := comments[..|comments| - 1], comments[|comments| - 1];
      assert comments == front + [last];
      TopicsExactly(front, t);
      assert t in TopicIn(last) <==>
        last.path == t.path && last.line == Some(t.line) && FirstTopic(last.body, 0) == Some(t.topic);
      assert PostedBy(comments).topics == PostedBy(front).topics + TopicIn(last);
    }
  }
}
