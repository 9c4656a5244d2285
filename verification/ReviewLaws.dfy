/**
 * What a plan guarantees, and what it guarantees over any sequence of runs
 * (src/domain/github_review.rs:107-122, 204-278, 469-499).
 */
module ReviewLaws {
  import opened Arith
  import opened Text
  import opened Markers
  import opened Review
  import opened Sorting

  // ----- a plan, without its loop -----

  /** Posted by an earlier run, or the same fingerprint as a finding before it. */
  predicate IsRepeat(ctx: Context, before: seq<Finding>, f: Finding) {
    Has(ctx.posted, f) ||
      (f.fingerprint != "" && exists j :: 0 <= j < |before| && before[j].fingerprint == f.fingerprint)
  }

  predicate IsEligible(ctx: Context, f: Finding) {
    !ctx.codebase && !HasNear(ctx.posted, f) && Anchors(ctx, f)
  }

  function Repeats(ctx: Context, fs: seq<Finding>): seq<Finding> {
    if |fs| == 0 then []
    else
      var front, f := fs[..|fs| - 1], fs[|fs| - 1];
      Repeats(ctx, front) + if IsRepeat(ctx, front, f) then [f] else []
  }

  function Eligible(ctx: Context, fs: seq<Finding>): seq<Finding> {
    if |fs| == 0 then []
    else
      var front, f := fs[..|fs| - 1], fs[|fs| - 1];
      Eligible(ctx, front) + if !IsRepeat(ctx, front, f) && IsEligible(ctx, f) then [f] else []
  }

  function InlineFindings(inline: seq<Placed>): seq<Finding> {
    seq(|inline|, k requires 0 <= k < |inline| => inline[k].finding)
  }

  function ListedFindings(listed: seq<Listed>): seq<Finding> {
    seq(|listed|, k requires 0 <= k < |listed| => listed[k].finding)
  }

  /** The reason given for a finding in the summary. */
  predicate Explains(ctx: Context, full: bool, l: Listed) {
    match l.reason
    case NotADiffReview => ctx.codebase
    case NearPosted => !ctx.codebase && HasNear(ctx.posted, l.finding)
    case OutsideDiff => !ctx.codebase && !HasNear(ctx.posted, l.finding) && !Anchors(ctx, l.finding)
    case OverCap => IsEligible(ctx, l.finding) && full
    case Rejected => false
  }

  predicate Explained(ctx: Context, plan: Plan) {
    forall k :: 0 <= k < |plan.summaryOnly| ==>
      Explains(ctx, |plan.inline| >= ctx.maxInline, plan.summaryOnly[k])
  }

  lemma {:induction false} SeenIs(ctx: Context, fs: seq<Finding>, fp: string)
    requires fp != ""
    ensures (fp in PlaceAll(ctx, fs).seen || fp in ctx.posted.fingerprints)
       <==> (fp in ctx.posted.fingerprints || exists j :: 0 <= j < |fs| && fs[j].fingerprint == fp)
  {
    if |fs| > 0 {
      var front, f := fs[..|fs| - 1], fs[|fs| - 1];
      SeenIs(ctx, front, fp);
      hide HasNear, Anchors, CommentFor;
      if j :| 0 <= j < |fs| && fs[j].fingerprint == fp {
        if j < |front| { assert front[j].fingerprint == fp; }
      }
      if j :| 0 <= j < |front| && front[j].fingerprint == fp { assert fs[j].fingerprint == fp; }
      assert fs[|fs| - 1] == f;
    }
  }

  /** One turn of the loop, as a repeat, a listing, or an inline comment. */
  lemma PlaceIs(ctx: Context, front: seq<Finding>, f: Finding)
    ensures var p, q := PlaceAll(ctx, front).plan, Place(ctx, PlaceAll(ctx, front), f).plan;
      if IsRepeat(ctx, front, f) then q == p.(alreadyPosted := p.alreadyPosted + 1)
      else if IsEligible(ctx, f) && |p.inline| < ctx.maxInline then
        q == p.(inline := p.inline + [Placed(f, CommentFor(f))])
      else exists r ::
        && q == p.(summaryOnly := p.summaryOnly + [Listed(f, r)])
        && Explains(ctx, |p.inline| >= ctx.maxInline, Listed(f, r))
  {
    if f.fingerprint != "" { SeenIs(ctx, front, f.fingerprint); }
    hide HasNear, Anchors, CommentFor;
    var p := PlaceAll(ctx, front).plan;
    if !IsRepeat(ctx, front, f) {
      match ReasonFor(ctx, |p.inline|, f)
      case Some(r) => assert Explains(ctx, |p.inline| >= ctx.maxInline, Listed(f, r));
      case None =>
    }
  }

  /** Which findings are posted inline, and how many are skipped. */
  lemma {:induction false} InlineIsPrefix(ctx: Context, fs: seq<Finding>)
    ensures var plan := PlaceAll(ctx, fs).plan;
      && |plan.inline| == Min(ctx.maxInline, |Eligible(ctx, fs)|)
      && InlineFindings(plan.inline) == Eligible(ctx, fs)[..|plan.inline|]
      && (forall k :: 0 <= k < |plan.inline| ==> plan.inline[k].comment == CommentFor(plan.inline[k].finding))
      && plan.alreadyPosted == |Repeats(ctx, fs)|
  {
    if |fs| > 0 {
      var front, f := fs[..|fs| - 1], fs[|fs| - 1];
      InlineIsPrefix(ctx, front);
      PlaceIs(ctx, front, f);
      hide IsRepeat, IsEligible, Place, CommentFor, Explains;
    }
  }

  lemma {:induction false} SummaryIsExplained(ctx: Context, fs: seq<Finding>)
    ensures Explained(ctx, PlaceAll(ctx, fs).plan)
  {
    if |fs| > 0 {
      var front, f := fs[..|fs| - 1], fs[|fs| - 1];
      SummaryIsExplained(ctx, front);
      PlaceIs(ctx, front, f);
      var p, q := PlaceAll(ctx, front).plan, PlaceAll(ctx, fs).plan;
      hide IsRepeat, IsEligible, Place, CommentFor, HasNear, Anchors;
      assert |q.inline| >= |p.inline|;
    }
  }

  function Placements(plan: Plan): multiset<Finding> {
    multiset(InlineFindings(plan.inline)) + multiset(ListedFindings(plan.summaryOnly))
  }

  lemma InlineAdds(p: Plan, f: Finding)
    ensures Placements(p.(inline := p.inline + [Placed(f, CommentFor(f))])) == Placements(p) + multiset{f}
  {
    hide CommentFor;
    assert InlineFindings(p.inline + [Placed(f, CommentFor(f))]) == InlineFindings(p.inline) + [f];
  }

  lemma ListedAdds(p: Plan, f: Finding, r: Reason)
    ensures Placements(p.(summaryOnly := p.summaryOnly + [Listed(f, r)])) == Placements(p) + multiset{f}
  {
    assert ListedFindings(p.summaryOnly + [Listed(f, r)]) == ListedFindings(p.summaryOnly) + [f];
  }

  /** Every finding is inline, in the summary, or a repeat, and only one of these. */
  lemma {:induction false} Partition(ctx: Context, fs: seq<Finding>)
    ensures Placements(PlaceAll(ctx, fs).plan) + multiset(Repeats(ctx, fs)) == multiset(fs)
  {
    if |fs| > 0 {
      var front, f := fs[..|fs| - 1], fs[|fs| - 1];
      Partition(ctx, front);
      PlaceIs(ctx, front, f);
      assert fs == front + [f];
      var p, q := PlaceAll(ctx, front).plan, PlaceAll(ctx, fs).plan;
      assert Repeats(ctx, fs) == Repeats(ctx, front) + if IsRepeat(ctx, front, f) then [f] else [];
      hide IsRepeat, IsEligible, Place, PlaceAll, CommentFor, Explains, Placements, Repeats;
      if !IsRepeat(ctx, front, f) {
        if q == p.(inline := p.inline + [Placed(f, CommentFor(f))]) {
          InlineAdds(p, f);
        } else {
          var r :| q == p.(summaryOnly := p.summaryOnly + [Listed(f, r)]);
          ListedAdds(p, f, r);
        }
      } else {
        RepeatAdds(p);
      }
    }
  }

  lemma RepeatAdds(p: Plan)
    ensures Placements(p.(alreadyPosted := p.alreadyPosted + 1)) == Placements(p)
  {
  }

  /** Findings of `fs` that may be posted, no two with the same nonempty fingerprint. */
  predicate Postable(ctx: Context, fs: seq<Finding>, e: seq<Finding>) {
    && (forall k :: 0 <= k < |e| ==> e[k] in fs && IsEligible(ctx, e[k]) && !Has(ctx.posted, e[k]))
    && (forall i, j :: 0 <= i < j < |e| && e[i].fingerprint == e[j].fingerprint ==> e[i].fingerprint == "")
  }

  lemma PostableSnoc(ctx: Context, front: seq<Finding>, f: Finding, e: seq<Finding>)
    requires Postable(ctx, front, e)
    ensures Postable(ctx, front + [f], e)
    ensures !IsRepeat(ctx, front, f) && IsEligible(ctx, f) ==> Postable(ctx, front + [f], e + [f])
  {
    if !IsRepeat(ctx, front, f) && f.fingerprint != "" {
      forall k | 0 <= k < |e| ensures e[k].fingerprint != f.fingerprint {
        var j :| 0 <= j < |front| && front[j] == e[k];
      }
    }
  }

  lemma {:induction false} EligibleAre(ctx: Context, fs: seq<Finding>)
    ensures Postable(ctx, fs, Eligible(ctx, fs))
  {
    if |fs| > 0 {
      var front, f := fs[..|fs| - 1], fs[|fs| - 1];
      EligibleAre(ctx, front);
      PostableSnoc(ctx, front, f, Eligible(ctx, front));
      assert fs == front + [f];
    }
  }

  lemma {:induction false} EligibleInOrder(ctx: Context, fs: seq<Finding>)
    requires InOrder(NotAfter, fs)
    ensures InOrder(NotAfter, Eligible(ctx, fs))
  {
    if |fs| > 0 {
      var front, f := fs[..|fs| - 1], fs[|fs| - 1];
      EligibleInOrder(ctx, front);
      EligibleAre(ctx, front);
      var e := Eligible(ctx, front);
      hide IsEligible, Has, NotAfter, IsRepeat;
      forall k | 0 <= k < |e| ensures NotAfter(e[k], f) {
        var j :| 0 <= j < |front| && front[j] == e[k];
        assert NotAfter(fs[j], fs[|fs| - 1]);
      }
    }
  }

  lemma SortedFindings(findings: seq<Finding>)
    ensures InOrder(NotAfter, FixFirst(findings)) && multiset(FixFirst(findings)) == multiset(findings)
  {
    NotAfterIsOrder();
    hide NotAfter, IsOrder;
    SortInOrder(NotAfter, findings);
  }

  lemma InlineIsPostable(ctx: Context, fs: seq<Finding>)
    ensures var inline := PlaceAll(ctx, fs).plan.inline;
      && (forall k :: 0 <= k < |inline| ==>
            && inline[k].comment == CommentFor(inline[k].finding)
            && IsEligible(ctx, inline[k].finding) && !Has(ctx.posted, inline[k].finding))
      && (forall i, j :: 0 <= i < j < |inline| && inline[i].finding.fingerprint == inline[j].finding.fingerprint ==>
            inline[i].finding.fingerprint == "")
  {
    hide PlaceAll, Eligible, IsEligible, Has, CommentFor, Repeats;
    InlineIsPrefix(ctx, fs);
    EligibleAre(ctx, fs);
    var inline, e := PlaceAll(ctx, fs).plan.inline, Eligible(ctx, fs);
    forall k | 0 <= k < |inline| ensures inline[k].finding == e[k] {
      assert InlineFindings(inline)[k] == e[..|inline|][k];
    }
  }

  /**
   * The plan of one run: each finding lands in exactly one place, the inline comments are the first
   * `maxInline` postable findings in fix-first order, they anchor only on commentable lines, none of
   * their fingerprints is posted or repeated, and every summary entry is there for the reason given.
   */
  lemma PlanIsSound(ctx: Context, findings: seq<Finding>)
    ensures var plan := PlanOf(ctx, findings); var sorted := FixFirst(findings);
      && InOrder(NotAfter, sorted) && multiset(sorted) == multiset(findings)
      && Placements(plan) + multiset(Repeats(ctx, sorted)) == multiset(findings)
      && plan.alreadyPosted == |Repeats(ctx, sorted)|
      && |plan.inline| <= ctx.maxInline
      && InlineFindings(plan.inline) == Eligible(ctx, sorted)[..Min(ctx.maxInline, |Eligible(ctx, sorted)|)]
      && InOrder(NotAfter, Eligible(ctx, sorted))
      && Explained(ctx, plan)
    ensures forall k :: 0 <= k < |PlanOf(ctx, findings).inline| ==>
      var placed := PlanOf(ctx, findings).inline[k];
      && placed.comment == CommentFor(placed.finding)
      && IsEligible(ctx, placed.finding) && !Has(ctx.posted, placed.finding)
    ensures forall i, j :: 0 <= i < j < |PlanOf(ctx, findings).inline| ==>
      var a, b := PlanOf(ctx, findings).inline[i].finding, PlanOf(ctx, findings).inline[j].finding;
      a.fingerprint == b.fingerprint ==> a.fingerprint == ""
  {
    hide Placements, FixFirst, PlaceAll, Eligible, Repeats, IsEligible, Has, Explained, InOrder, InlineFindings,
      CommentFor;
    var sorted := FixFirst(findings);
    SortedFindings(findings);
    InlineIsPrefix(ctx, sorted);
    SummaryIsExplained(ctx, sorted);
    Partition(ctx, sorted);
    EligibleInOrder(ctx, sorted);
    InlineIsPostable(ctx, sorted);
  }

  /** Demoting loses no finding and posts none. */
  lemma DemotedKeepsFindings(plan: Plan)
    ensures Demoted(plan).inline == [] && Demoted(plan).alreadyPosted == plan.alreadyPosted
    ensures ListedFindings(Demoted(plan).summaryOnly) == ListedFindings(plan.summaryOnly) + InlineFindings(plan.inline)
  {
  }

  /** A run whose comments are rejected posts nothing inline, and still lists or skips every finding once. */
  lemma DemotedIsSound(ctx: Context, findings: seq<Finding>)
    ensures var plan := Demoted(PlanOf(ctx, findings));
      && plan.inline == [] && plan.alreadyPosted == |Repeats(ctx, FixFirst(findings))|
      && multiset(ListedFindings(plan.summaryOnly)) + multiset(Repeats(ctx, FixFirst(findings))) == multiset(findings)
  {
    hide PlanOf, Demoted, Repeats, FixFirst, IsEligible, Has, Explained, InOrder, Eligible, CommentFor, InlineFindings,
      ListedFindings;
    PlanIsSound(ctx, findings);
    DemotedKeepsFindings(PlanOf(ctx, findings));
  }

  // ----- a comment carries its finding's marker -----

  lemma AtMiddle(a: string, t: string, b: string)
    ensures At(a + t + b, |a|, t)
  {
  }

  /** What follows the fingerprint marker. */
  function AfterMarker(f: Finding): string {
    if f.mechanism == "" then "" else ['\n'] + TopicMarker(f.dimension, f.mechanism)
  }

  lemma JoinTwo(a: string, b: string)
    ensures Join([a], '\n') == a && Join([a, b], '\n') == a + ['\n'] + b
  {
    assert [a, b][1..] == [b];
  }

  lemma MarkersAre(f: Finding)
    requires f.fingerprint != ""
    ensures CommentMarkers(f) ==
      if f.mechanism == "" then [FingerprintMarker(f.fingerprint)]
      else [FingerprintMarker(f.fingerprint), TopicMarker(f.dimension, f.mechanism)]
  {
    hide FingerprintMarker, TopicMarker;
  }

  lemma JoinedMarkers(f: Finding)
    requires f.fingerprint != ""
    ensures Join(CommentMarkers(f), '\n') == FingerprintMarker(f.fingerprint) + AfterMarker(f)
  {
    hide FingerprintMarker, TopicMarker, CommentMarkers, Join;
    var marker, topic := FingerprintMarker(f.fingerprint), TopicMarker(f.dimension, f.mechanism);
    MarkersAre(f);
    JoinTwo(marker, topic);
    assert marker + (['\n'] + topic) == marker + ['\n'] + topic && marker + "" == marker;
  }

  lemma BodyWithMarkers(f: Finding)
    requires |CommentMarkers(f)| > 0
    ensures CommentBody(f) == f.visible + ("\n\n" + Join(CommentMarkers(f), '\n'))
  {
    hide CommentMarkers, Join;
  }

  lemma HoldsMiddle(a: string, t: string, b: string)
    ensures Contains(a + t + b, t)
  {
    AtMiddle(a, t, b);
  }

  lemma BodyHoldsMarker(f: Finding)
    requires f.fingerprint != ""
    ensures Contains(CommentBody(f), FingerprintMarker(f.fingerprint))
  {
    hide FingerprintMarker, AfterMarker, CommentMarkers, Join, CommentBody, Contains, At;
    JoinedMarkers(f);
    MarkersAre(f);
    var marker, rest := FingerprintMarker(f.fingerprint), AfterMarker(f);
    BodyWithMarkers(f);
    assert f.visible + ("\n\n" + (marker + rest)) == (f.visible + "\n\n") + marker + rest;
    HoldsMiddle(f.visible + "\n\n", marker, rest);
  }

  /** A comment is recognised by its fingerprint exactly when that is nonempty lower-case hex. */
  lemma BodyCarriesFingerprint(f: Finding)
    ensures IsHex(f.fingerprint) <==> f.fingerprint in Scan(CommentBody(f), 0)
  {
    ScanIsExact(CommentBody(f), f.fingerprint);
    if IsHex(f.fingerprint) { BodyHoldsMarker(f); }
  }

  // ----- runs -----

  /** One run: its report and settings, and whether GitHub took the review. */
  datatype Run = Run(codebase: bool, findings: seq<Finding>, files: seq<PrFile>, maxInline: nat, accepted: bool)

  function ContextOf(run: Run, comments: seq<Comment>): Context {
    Context(run.codebase, CommentableIn(run.files), PostedBy(comments), run.maxInline)
  }

  function Created(inline: seq<Placed>): seq<Comment> {
    seq(|inline|, k requires 0 <= k < |inline| =>
      Comment(inline[k].comment.path, Some(inline[k].comment.line), inline[k].comment.body))
  }

  /** What a run posts inline: the plan's inline comments, or nothing when the review is rejected. */
  function PostedInline(run: Run, comments: seq<Comment>): seq<Placed> {
    var plan := PlanOf(ContextOf(run, comments), run.findings);
    if run.accepted then plan.inline else Demoted(plan).inline
  }

  /** The findings posted inline over a sequence of runs, in order, and the comments there afterwards. */
  function After(comments: seq<Comment>, runs: seq<Run>): (seq<Comment>, seq<Finding>)
  {
    if |runs| == 0 then (comments, [])
    else
      var (now, log) := After(comments, runs[..|runs| - 1]);
      var inline := PostedInline(runs[|runs| - 1], now);
      (now + Created(inline), log + InlineFindings(inline))
  }

  lemma BodiesAppend(a: seq<Comment>, b: seq<Comment>)
    ensures Bodies(a + b) == Bodies(a) + Bodies(b)
  {
  }

  lemma FingerprintsGrow(a: seq<Comment>, b: seq<Comment>, fp: string)
    ensures fp in Fingerprints(Bodies(a + b)) <==> fp in Fingerprints(Bodies(a)) || fp in Fingerprints(Bodies(b))
  {
    BodiesAppend(a, b);
    FingerprintsAre(Bodies(a), fp);
    FingerprintsAre(Bodies(b), fp);
    FingerprintsAre(Bodies(a) + Bodies(b), fp);
    var both := Bodies(a) + Bodies(b);
    hide Scan, Bodies;
    if x :| x in Bodies(a) && fp in Scan(x, 0) { assert x in both; }
    if x :| x in Bodies(b) && fp in Scan(x, 0) { assert x in both; }
  }

  lemma CreatedCarry(inline: seq<Placed>, k: nat)
    requires k < |inline| && inline[k].comment == CommentFor(inline[k].finding) && IsHex(inline[k].finding.fingerprint)
    ensures inline[k].finding.fingerprint in Fingerprints(Bodies(Created(inline)))
  {
    var fp := inline[k].finding.fingerprint;
    BodyCarriesFingerprint(inline[k].finding);
    FingerprintsAre(Bodies(Created(inline)), fp);
    assert Bodies(Created(inline))[k] == CommentBody(inline[k].finding);
  }

  /** Every hex fingerprint posted so far is recognised from the comments. */
  predicate Recognised(comments: seq<Comment>, log: seq<Finding>) {
    forall k :: 0 <= k < |log| && IsHex(log[k].fingerprint) ==> log[k].fingerprint in Fingerprints(Bodies(comments))
  }

  predicate NoRepeats(log: seq<Finding>) {
    forall i, j :: 0 <= i < j < |log| && IsHex(log[i].fingerprint) ==> log[i].fingerprint != log[j].fingerprint
  }

  /** What one run adds to the log. */
  lemma RunAdds(comments: seq<Comment>, run: Run)
    ensures var inline := PostedInline(run, comments);
      && (forall k :: 0 <= k < |inline| ==>
            && inline[k].comment == CommentFor(inline[k].finding)
            && (IsHex(inline[k].finding.fingerprint) ==>
                inline[k].finding.fingerprint !in Fingerprints(Bodies(comments)))
            && !HasNear(PostedBy(comments), inline[k].finding))
      && NoRepeats(InlineFindings(inline))
  {
    PlanIsSound(ContextOf(run, comments), run.findings);
    hide PlanOf, Fingerprints, Bodies, CommentFor;
  }

  lemma RunKeeps(comments: seq<Comment>, log: seq<Finding>, run: Run)
    requires Recognised(comments, log) && NoRepeats(log)
    ensures var inline := PostedInline(run, comments);
      Recognised(comments + Created(inline), log + InlineFindings(inline)) && NoRepeats(log + InlineFindings(inline))
  {
    var inline := PostedInline(run, comments);
    RunAdds(comments, run);
    var now, added := comments + Created(inline), InlineFindings(inline);
    hide PostedInline, CommentFor, Bodies, Fingerprints, IsHex, Created;
    forall k | 0 <= k < |log + added| && IsHex((log + added)[k].fingerprint)
      ensures (log + added)[k].fingerprint in Fingerprints(Bodies(now))
    {
      var fp := (log + added)[k].fingerprint;
      FingerprintsGrow(comments, Created(inline), fp);
      if k >= |log| { CreatedCarry(inline, k - |log|); }
    }
  }

  /**
   * Over any sequence of runs, published whole or demoted, on any comments that were there before,
   * no nonempty hex fingerprint is posted inline twice.
   */
  lemma {:induction false} NeverPostedTwice(comments: seq<Comment>, runs: seq<Run>)
    ensures Recognised(After(comments, runs).0, After(comments, runs).1) && NoRepeats(After(comments, runs).1)
  {
    if |runs| > 0 {
      NeverPostedTwice(comments, runs[..|runs| - 1]);
      var (now, log) := After(comments, runs[..|runs| - 1]);
      RunKeeps(now, log, runs[|runs| - 1]);
    }
  }

  lemma NoRuns(comments: seq<Comment>, runs: seq<Run>)
    requires |runs| == 0
    ensures After(comments, runs) == (comments, [])
  {
  }

  lemma LastRun(comments: seq<Comment>, runs: seq<Run>)
    requires |runs| > 0
    ensures var (now, log) := After(comments, runs[..|runs| - 1]);
      var inline := PostedInline(runs[|runs| - 1], now);
      After(comments, runs) == (now + Created(inline), log + InlineFindings(inline))
  {
    hide PostedInline, Created, InlineFindings;
  }

  lemma LoggedAre(log: seq<Finding>, inline: seq<Placed>)
    ensures forall k :: 0 <= k < |log + InlineFindings(inline)| ==>
      (log + InlineFindings(inline))[k] == if k < |log| then log[k] else inline[k - |log|].finding
    ensures |InlineFindings(inline)| == |inline|
  {
  }

  /** Nor is one that a comment already carried at the start; comments are only ever added. */
  lemma {:induction false} NeverRepostsOld(comments: seq<Comment>, runs: seq<Run>)
    ensures comments <= After(comments, runs).0
    ensures forall k :: 0 <= k < |After(comments, runs).1| && IsHex(After(comments, runs).1[k].fingerprint) ==>
      After(comments, runs).1[k].fingerprint !in Fingerprints(Bodies(comments))
  {
    hide After, PostedInline, CommentFor, Bodies, Fingerprints, IsHex, Created, HasNear, InlineFindings;
    if |runs| > 0 {
      var run := runs[|runs| - 1];
      NeverRepostsOld(comments, runs[..|runs| - 1]);
      var (now, log) := After(comments, runs[..|runs| - 1]);
      var inline := PostedInline(run, now);
      LastRun(comments, runs);
      RunAdds(now, run);
      assert now == comments + now[|comments|..];
      forall k | 0 <= k < |inline| && IsHex(inline[k].finding.fingerprint)
        ensures inline[k].finding.fingerprint !in Fingerprints(Bodies(comments))
      {
        FingerprintsGrow(comments, now[|comments|..], inline[k].finding.fingerprint);
      }
      LoggedAre(log, inline);
    } else {
      NoRuns(comments, runs);
    }
  }

  /** A nonempty fingerprint that is not lower-case hex is never recognised, so it is never held back as posted. */
  lemma OnlyHexIsRecognised(comments: seq<Comment>, f: Finding)
    ensures Has(PostedBy(comments), f) ==> IsHex(f.fingerprint)
  {
    FingerprintsAre(Bodies(comments), f.fingerprint);
    if Has(PostedBy(comments), f) {
      var b :| b in Bodies(comments) && f.fingerprint in Scan(b, 0);
      ScanIsExact(b, f.fingerprint);
    }
  }

  // ----- the same concern nearby -----

  /** The comment for `f` can be recognised by its topic: it is well formed, and no text before it looks like one. */
  predicate Traceable(f: Finding) {
    && IsTopic(f.dimension, f.mechanism) && (f.fingerprint == "" || IsHex(f.fingerprint))
    && !Contains(f.visible, TOPIC_OPEN)
  }

  /** The text of a comment before its topic marker. */
  function Head(f: Finding): string {
    f.visible + "\n\n" + if f.fingerprint == "" then "" else FingerprintMarker(f.fingerprint) + "\n"
  }

  lemma HasMechanism(f: Finding)
    requires Traceable(f)
    ensures f.mechanism != ""
  {
  }

  lemma TraceableMarkers(f: Finding)
    requires f.mechanism != ""
    ensures CommentMarkers(f) ==
      if f.fingerprint == "" then [TopicMarker(f.dimension, f.mechanism)]
      else [FingerprintMarker(f.fingerprint), TopicMarker(f.dimension, f.mechanism)]
  {
    hide FingerprintMarker, TopicMarker;
  }

  lemma BodyIsHeadAndTopic(f: Finding)
    requires Traceable(f)
    ensures CommentBody(f) == Head(f) + TopicMarker(f.dimension, f.mechanism)
  {
    hide FingerprintMarker, TopicMarker, CommentMarkers, CommentBody, Join;
    var marker, topic := FingerprintMarker(f.fingerprint), TopicMarker(f.dimension, f.mechanism);
    HasMechanism(f);
    TraceableMarkers(f);
    BodyWithMarkers(f);
    JoinTwo(marker, topic);
    JoinTwo(topic, topic);
    assert f.visible + ("\n\n" + topic) == f.visible + "\n\n" + "" + topic;
    assert f.visible + ("\n\n" + (marker + ['\n'] + topic)) == f.visible + "\n\n" + (marker + "\n") + topic;
  }

  lemma MarkerAngles(fp: string)
    requires IsHex(fp)
    ensures forall j :: 0 < j < |FingerprintMarker(fp)| ==> FingerprintMarker(fp)[j] != '<'
  {
    var marker := FingerprintMarker(fp);
    var a, b := |FP_OPEN|, |FP_OPEN| + |fp|;
    assert forall j :: 0 <= j < a ==> marker[j] == FP_OPEN[j];
    assert forall j :: a <= j < b ==> marker[j] == fp[j - a];
    assert forall j :: b <= j < |marker| ==> marker[j] == CLOSE[j - b];
  }

  /** In the part of the head after the visible text, a `<` is only where the fingerprint marker begins. */
  lemma HeadAngles(f: Finding, k: nat)
    requires Traceable(f) && |f.visible| <= k < |Head(f)| && Head(f)[k] == '<'
    ensures k == |f.visible| + 2 && k + |FP_OPEN| <= |Head(f)| && At(Head(f), k, FP_OPEN)
  {
    var v := |f.visible|;
    var head := Head(f);
    if f.fingerprint != "" {
      var marker := FingerprintMarker(f.fingerprint);
      MarkerAngles(f.fingerprint);
      assert head == (f.visible + "\n\n") + marker + "\n";
      hide FingerprintMarker;
      assert forall j :: 0 <= j < |marker| ==> head[v + 2 + j] == marker[j];
      AtMiddle(f.visible + "\n\n", marker, "\n");
      assert At(head, v + 2, FP_OPEN) by { PartsAt(head, v + 2, f.fingerprint); }
    }
  }

  lemma AtWithin(a: string, b: string, k: nat, t: string)
    requires At(a + b, k, t) && k + |t| <= |a|
    ensures Contains(a, t)
  {
    assert (a + b)[k..k + |t|] == a[k..k + |t|];
    assert At(a, k, t);
  }

  lemma NoTopicInHead(f: Finding, k: nat)
    requires Traceable(f) && k < |Head(f)|
    ensures !At(Head(f) + TopicMarker(f.dimension, f.mechanism), k, TOPIC_OPEN)
  {
    var head, v := Head(f), |f.visible|;
    var topic := TopicMarker(f.dimension, f.mechanism);
    var body := head + topic;
    if At(body, k, TOPIC_OPEN) {
      AtChar(body, k, TOPIC_OPEN, 0);
      if k >= v {
        HeadAngles(f, k);
        AtChar(head, k, FP_OPEN, 11);
        AtChar(body, k, TOPIC_OPEN, 11);
      } else if k + |TOPIC_OPEN| > v {
        AtChar(body, k, TOPIC_OPEN, v - k);
      } else {
        var rest := head[v..] + topic;
        assert body == f.visible + rest;
        AtWithin(f.visible, rest, k, TOPIC_OPEN);
      }
    }
  }

  lemma BodyCarriesTopic(f: Finding)
    requires Traceable(f)
    ensures FirstTopic(CommentBody(f), 0) == Some(Topic(f))
  {
    BodyIsHeadAndTopic(f);
    var body := CommentBody(f);
    var head := Head(f);
    TopicMarkerMatches(head, f.dimension, f.mechanism);
    forall k | 0 <= k < |head| ensures TopicAt(body, k).None? { NoTopicInHead(f, k); }
    hide CommentBody, TopicAt, Head;
    FirstTopicIs(body, 0, |head|);
  }

  lemma {:induction false} TopicsAppend(a: seq<Comment>, b: seq<Comment>)
    ensures TopicsOf(a + b) == TopicsOf(a) + TopicsOf(b)
  {
    if |b| == 0 {
      assert a + b == a;
    } else {
      assert (a + b)[..|a + b| - 1] == a + b[..|b| - 1];
      TopicsAppend(a, b[..|b| - 1]);
    }
  }

  /** Where a finding was posted is known from its comment. */
  predicate Placeable(topics: seq<PostedTopic>, f: Finding) { PostedTopic(f.file, f.line, Topic(f)) in topics }

  function AsComment(placed: Placed): Comment {
    Comment(placed.comment.path, Some(placed.comment.line), placed.comment.body)
  }

  lemma LastTopic(inline: seq<Placed>)
    requires |inline| > 0
    ensures var n := |inline| - 1;
      TopicsOf(Created(inline)) == TopicsOf(Created(inline[..n])) + TopicIn(AsComment(inline[n]))
  {
    hide TopicIn;
    var n := |inline| - 1;
    assert Created(inline)[..n] == Created(inline[..n]) && Created(inline)[n] == AsComment(inline[n]);
  }

  lemma CommentHasTopic(placed: Placed)
    requires placed.comment == CommentFor(placed.finding) && Traceable(placed.finding)
    ensures Placeable(TopicIn(AsComment(placed)), placed.finding)
  {
    BodyCarriesTopic(placed.finding);
    hide CommentBody, FirstTopic, Traceable;
  }

  lemma {:induction false} CreatedTopics(inline: seq<Placed>, k: nat)
    requires k < |inline| && inline[k].comment == CommentFor(inline[k].finding) && Traceable(inline[k].finding)
    ensures Placeable(TopicsOf(Created(inline)), inline[k].finding)
  {
    hide TopicsOf, TopicIn, Created, CommentFor, Traceable;
    var n := |inline| - 1;
    LastTopic(inline);
    if k == n { CommentHasTopic(inline[n]); }
    else { CreatedTopics(inline[..n], k); }
  }

  predicate AllPlaceable(comments: seq<Comment>, log: seq<Finding>) {
    forall k :: 0 <= k < |log| && Traceable(log[k]) ==> Placeable(TopicsOf(comments), log[k])
  }

  lemma RunKeepsPlaceable(comments: seq<Comment>, log: seq<Finding>, run: Run)
    requires AllPlaceable(comments, log)
    ensures var inline := PostedInline(run, comments);
      AllPlaceable(comments + Created(inline), log + InlineFindings(inline))
  {
    var inline := PostedInline(run, comments);
    RunAdds(comments, run);
    TopicsAppend(comments, Created(inline));
    var added := InlineFindings(inline);
    hide PostedInline, CommentFor, TopicsOf, Traceable, Created, HasNear, Fingerprints, Bodies, PostedBy, NoRepeats;
    forall k | 0 <= k < |log + added| && Traceable((log + added)[k])
      ensures Placeable(TopicsOf(comments + Created(inline)), (log + added)[k])
    {
      if k >= |log| { CreatedTopics(inline, k - |log|); }
    }
  }

  lemma {:induction false} LogIsPlaceable(comments: seq<Comment>, runs: seq<Run>)
    ensures AllPlaceable(After(comments, runs).0, After(comments, runs).1)
  {
    if |runs| > 0 {
      LogIsPlaceable(comments, runs[..|runs| - 1]);
      var (now, log) := After(comments, runs[..|runs| - 1]);
      RunKeepsPlaceable(now, log, runs[|runs| - 1]);
    }
  }

  /** A later run posts nothing inline within twenty lines of the same concern in the same file. */
  lemma NeverPostedNearby(comments: seq<Comment>, runs: seq<Run>, run: Run, k: nat, i: nat)
    requires k < |After(comments, runs).1| && i < |PostedInline(run, After(comments, runs).0)|
    ensures var old', new' := After(comments, runs).1[k], PostedInline(run, After(comments, runs).0)[i].finding;
      Traceable(old') && old'.file == new'.file && Topic(old') == Topic(new')
      ==> old'.line + REPOST_LINE_WINDOW < new'.line || new'.line + REPOST_LINE_WINDOW < old'.line
  {
    var (now, log) := After(comments, runs);
    LogIsPlaceable(comments, runs);
    RunAdds(now, run);
    hide After, PostedInline, Traceable, TopicsOf, CommentFor, Fingerprints, Bodies;
    var f, g := log[k], PostedInline(run, now)[i].finding;
    if Traceable(f) && f.file == g.file && Topic(f) == Topic(g) {
      var t :| 0 <= t < |TopicsOf(now)| && TopicsOf(now)[t] == PostedTopic(f.file, f.line, Topic(f));
      assert !IsNear(PostedBy(now).topics[t], g);
    }
  }
}
