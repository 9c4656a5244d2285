/**
 * What a review plan (src/domain/github_review.rs:213-278) contains, in terms of the findings, the
 * lines of the diff and what is posted.
 */
module PlanLaws {
  import opened Text
  import opened Sorting
  import opened Review
  import opened ReviewLaws
  import Candidates

  // ----- the cap keeps the best -----

  /** The place of an unranked finding is after every ranked one. */
  function RankOf(f: Finding): nat { if f.rank.Some? then f.rank.value else 0xFFFF_FFFF_FFFF_FFFF }

  /** `a` has the smaller rank, or the same rank and no less severity. */
  predicate IsNoWorse(a: Finding, b: Finding) {
    RankOf(a) <= RankOf(b) && (RankOf(a) == RankOf(b) ==> a.severity >= b.severity)
  }

  lemma NotAfterIs(a: Finding, b: Finding)
    ensures NotAfter(a, b) <==> IsNoWorse(a, b)
  {
  }

  /** Once a finding is over the cap, everything inline came before it. */
  predicate CapBehind(fs: seq<Finding>, plan: Plan, cap: nat) {
    && (forall p :: p in plan.inline ==> p.finding in fs)
    && (forall l :: l in plan.summaryOnly && l.reason.OverCap? ==> |plan.inline| >= cap)
    && (forall p, l :: p in plan.inline && l in plan.summaryOnly && l.reason.OverCap? ==>
          IsNoWorse(p.finding, l.finding))
  }

  lemma CapStep(ctx: Context, front: seq<Finding>, f: Finding)
    requires CapBehind(front, PlaceAll(ctx, front).plan, ctx.maxInline)
    requires forall g :: g in front ==> IsNoWorse(g, f)
    ensures CapBehind(front + [f], Place(ctx, PlaceAll(ctx, front), f).plan, ctx.maxInline)
  {
    hide IsNoWorse, HasNear, Anchors, CommentFor, PlaceAll, Has;
  }

  lemma {:induction false} CapSoFar(ctx: Context, fs: seq<Finding>)
    requires forall i, j :: 0 <= i < j < |fs| ==> IsNoWorse(fs[i], fs[j])
    ensures CapBehind(fs, PlaceAll(ctx, fs).plan, ctx.maxInline)
  {
    hide IsNoWorse, Place, CapBehind;
    if |fs| > 0 {
      var front, f := fs[..|fs| - 1], fs[|fs| - 1];
      CapSoFar(ctx, front);
      CapStep(ctx, front, f);
      assert fs == front + [f];
    } else {
      CapNothing(ctx);
    }
  }

  lemma CapNothing(ctx: Context)
    ensures CapBehind([], PlaceAll(ctx, []).plan, ctx.maxInline)
  {
  }

  lemma SortedNoWorse(findings: seq<Finding>)
    ensures forall i, j :: 0 <= i < j < |FixFirst(findings)| ==> IsNoWorse(FixFirst(findings)[i], FixFirst(findings)[j])
  {
    hide FixFirst, NotAfter, IsNoWorse;
    SortedFindings(findings);
    var s := FixFirst(findings);
    forall i, j | 0 <= i < j < |s| ensures IsNoWorse(s[i], s[j]) {
      NotAfterIs(s[i], s[j]);
    }
  }

  /** Nothing left over the cap is ranked before, or is as well ranked and more severe than, what is inline. */
  lemma CapKeepsBest(ctx: Context, findings: seq<Finding>)
    ensures var plan := PlanOf(ctx, findings);
      forall p, l :: p in plan.inline && l in plan.summaryOnly && l.reason.OverCap? ==>
        && RankOf(p.finding) <= RankOf(l.finding)
        && (RankOf(p.finding) == RankOf(l.finding) ==> p.finding.severity >= l.finding.severity)
    ensures var plan := PlanOf(ctx, findings);
      forall l :: l in plan.summaryOnly && l.reason.OverCap? ==> |plan.inline| >= ctx.maxInline
  {
    hide FixFirst;
    SortedNoWorse(findings);
    hide PlaceAll;
    CapSoFar(ctx, FixFirst(findings));
  }

  // ----- equals keep their order -----

  /** The findings of a list with one rank and one severity. */
  function Ties(rank: nat, severity: real, fs: seq<Finding>): seq<Finding> {
    if |fs| == 0 then []
    else
      var f := fs[|fs| - 1];
      Ties(rank, severity, fs[..|fs| - 1]) + if RankOf(f) == rank && f.severity == severity then [f] else []
  }

  lemma TiesSnoc(rank: nat, severity: real, fs: seq<Finding>, f: Finding)
    ensures Ties(rank, severity, fs + [f]) ==
      Ties(rank, severity, fs) + if RankOf(f) == rank && f.severity == severity then [f] else []
  {
    assert (fs + [f])[..|fs|] == fs;
  }

  lemma {:induction false} InsertKeepsTies(rank: nat, severity: real, x: Finding, fs: seq<Finding>)
    requires forall i, j :: 0 <= i < j < |fs| ==> IsNoWorse(fs[i], fs[j])
    ensures Ties(rank, severity, InsertBy(NotAfter, x, fs)) == Ties(rank, severity, fs + [x])
  {
    hide Ties;
    var n := |fs|;
    if n == 0 {
      assert fs + [x] == [x];
    } else {
      var front, last := fs[..n - 1], fs[n - 1];
      assert fs == front + [last];
      NotAfterIs(last, x);
      hide NotAfter;
      if !NotAfter(last, x) {
        InsertKeepsTies(rank, severity, x, front);
        TiesSnoc(rank, severity, InsertBy(NotAfter, x, front), last);
        TiesSnoc(rank, severity, front, x);
        TiesSnoc(rank, severity, front, last);
        TiesSnoc(rank, severity, fs, x);
      }
    }
  }

  /** Findings with the same rank and severity are taken in the report's order. */
  lemma {:induction false} FixFirstIsStable(rank: nat, severity: real, findings: seq<Finding>)
    ensures Ties(rank, severity, FixFirst(findings)) == Ties(rank, severity, findings)
  {
    if |findings| > 0 {
      var front, last := findings[..|findings| - 1], findings[|findings| - 1];
      assert findings == front + [last];
      FixFirstIsStable(rank, severity, front);
      SortedNoWorse(front);
      InsertKeepsTies(rank, severity, last, FixFirst(front));
      TiesSnoc(rank, severity, FixFirst(front), last);
      TiesSnoc(rank, severity, front, last);
      hide Ties, NotAfter, IsNoWorse, InsertBy;
    }
  }

  // ----- where each finding goes -----

  /** The same concern on the same file, at most twenty lines away. */
  predicate IsSame(t: PostedTopic, f: Finding) {
    && t.path == f.file && t.topic == f.dimension + "/" + f.mechanism
    && t.line <= f.line + 20 && f.line <= t.line + 20
  }

  predicate IsClose(posted: Posted, f: Finding) { exists t :: t in posted.topics && IsSame(t, f) }

  predicate IsOnDiff(commentable: map<string, set<nat>>, f: Finding) {
    f.file in commentable && f.line in commentable[f.file]
  }

  lemma CloseIs(posted: Posted, f: Finding)
    ensures HasNear(posted, f) <==> IsClose(posted, f)
  {
    if t :| t in posted.topics && IsSame(t, f) {
      var k :| 0 <= k < |posted.topics| && posted.topics[k] == t;
      assert IsNear(posted.topics[k], f);
    }
    if HasNear(posted, f) {
      var k :| 0 <= k < |posted.topics| && IsNear(posted.topics[k], f);
      assert posted.topics[k] in posted.topics;
    }
  }

  lemma EligibleIs(ctx: Context, f: Finding)
    ensures IsEligible(ctx, f) <==> !ctx.codebase && !IsClose(ctx.posted, f) && IsOnDiff(ctx.commentable, f)
  {
    CloseIs(ctx.posted, f);
    hide IsClose, HasNear;
  }

  /** Why a finding is only listed. */
  lemma ListedExactly(ctx: Context, findings: seq<Finding>, l: Listed)
    requires l in PlanOf(ctx, findings).summaryOnly
    ensures l.reason.NotADiffReview? <==> ctx.codebase
    ensures l.reason.NearPosted? <==> !ctx.codebase && IsClose(ctx.posted, l.finding)
    ensures l.reason.OutsideDiff? <==>
      !ctx.codebase && !IsClose(ctx.posted, l.finding) && !IsOnDiff(ctx.commentable, l.finding)
    ensures l.reason.OverCap? <==>
      !ctx.codebase && !IsClose(ctx.posted, l.finding) && IsOnDiff(ctx.commentable, l.finding)
    ensures l.reason.OverCap? ==> |PlanOf(ctx, findings).inline| >= ctx.maxInline
  {
    hide FixFirst, PlaceAll;
    SummaryIsExplained(ctx, FixFirst(findings));
    CloseIs(ctx.posted, l.finding);
    hide IsClose, HasNear;
    var plan := PlanOf(ctx, findings);
    var k :| 0 <= k < |plan.summaryOnly| && plan.summaryOnly[k] == l;
    assert Explains(ctx, |plan.inline| >= ctx.maxInline, l);
  }

  lemma BodyBegins(f: Finding)
    ensures f.visible <= CommentBody(f)
  {
  }

  lemma InlineIs(ctx: Context, fs: seq<Finding>, p: Placed)
    requires p in PlaceAll(ctx, fs).plan.inline
    ensures p.comment == CommentFor(p.finding) && IsEligible(ctx, p.finding) && !Has(ctx.posted, p.finding)
  {
    hide PlaceAll, IsEligible, CommentFor, Has;
    InlineIsPostable(ctx, fs);
  }

  /** An inline comment stands on its finding's line of the diff, and begins with the finding's text. */
  lemma InlineExactly(ctx: Context, findings: seq<Finding>, p: Placed)
    requires p in PlanOf(ctx, findings).inline
    ensures p.comment.path == p.finding.file && p.comment.line == p.finding.line && p.comment.side == "RIGHT"
    ensures p.finding.visible <= p.comment.body
    ensures !ctx.codebase && !IsClose(ctx.posted, p.finding) && IsOnDiff(ctx.commentable, p.finding)
    ensures p.finding.fingerprint != "" ==> p.finding.fingerprint !in ctx.posted.fingerprints
  {
    hide FixFirst, PlaceAll, CommentBody, IsClose, IsEligible;
    InlineIs(ctx, FixFirst(findings), p);
    EligibleIs(ctx, p.finding);
    BodyBegins(p.finding);
  }

  // ----- repeats -----

  /** The fingerprint of finding `k` is posted, or an earlier finding has it. */
  predicate IsKnown(posted: Posted, fs: seq<Finding>, k: nat)
    requires k < |fs|
  {
    fs[k].fingerprint != "" &&
    (fs[k].fingerprint in posted.fingerprints || exists j :: 0 <= j < k && fs[j].fingerprint == fs[k].fingerprint)
  }

  function Known(posted: Posted, fs: seq<Finding>): set<nat> {
    set k: nat | k < |fs| && IsKnown(posted, fs, k)
  }

  lemma KnownSnoc(posted: Posted, front: seq<Finding>, f: Finding)
    ensures |Known(posted, front + [f])| ==
      |Known(posted, front)| + if IsKnown(posted, front + [f], |front|) then 1 else 0
  {
    var fs, before := front + [f], Known(posted, front);
    forall k: nat | k < |front| ensures IsKnown(posted, fs, k) <==> IsKnown(posted, front, k) {
      assert fs[k] == front[k];
      assert forall j :: 0 <= j < k ==> fs[j] == front[j];
    }
    assert Known(posted, fs) == if IsKnown(posted, fs, |front|) then before + {|front|} else before;
  }

  lemma RepeatIs(ctx: Context, front: seq<Finding>, f: Finding)
    ensures IsRepeat(ctx, front, f) <==> IsKnown(ctx.posted, front + [f], |front|)
  {
    var fs := front + [f];
    assert forall j :: 0 <= j < |front| ==> fs[j] == front[j];
  }

  lemma {:induction false} RepeatsCounted(ctx: Context, fs: seq<Finding>)
    ensures |Repeats(ctx, fs)| == |Known(ctx.posted, fs)|
  {
    hide IsRepeat, IsKnown, Known;
    if |fs| > 0 {
      var front, f := fs[..|fs| - 1], fs[|fs| - 1];
      RepeatsCounted(ctx, front);
      RepeatIs(ctx, front, f);
      KnownSnoc(ctx.posted, front, f);
      assert fs == front + [f];
    } else {
      NoneKnown(ctx.posted);
    }
  }

  lemma NoneKnown(posted: Posted)
    ensures Known(posted, []) == {}
  {
  }

  /** As many findings are skipped as have a fingerprint that is posted, or that a finding before them has. */
  lemma SkippedExactly(ctx: Context, findings: seq<Finding>)
    ensures PlanOf(ctx, findings).alreadyPosted == |Known(ctx.posted, FixFirst(findings))|
  {
    hide FixFirst, PlaceAll, Known, Repeats;
    InlineIsPrefix(ctx, FixFirst(findings));
    RepeatsCounted(ctx, FixFirst(findings));
  }

  // ----- the lines of the diff -----

  /** The last entry of a file that has a patch says where comments may stand. */
  lemma {:induction false} LastPatchCounts(files: seq<PrFile>, k: nat)
    requires k < |files| && files[k].patch.Some?
    requires forall j :: k < j < |files| && files[j].patch.Some? ==> files[j].filename != files[k].filename
    ensures files[k].filename in CommentableIn(files)
    ensures CommentableIn(files)[files[k].filename] == Candidates.Commentable(files[k].patch.value)
    decreases |files|
  {
    hide Candidates.Commentable;
    if k < |files| - 1 { LastPatchCounts(files[..|files| - 1], k); }
  }

  lemma {:induction false} NoPatchNoLines(files: seq<PrFile>, name: string)
    requires forall j :: 0 <= j < |files| && files[j].patch.Some? ==> files[j].filename != name
    ensures name !in CommentableIn(files)
    decreases |files|
  {
    hide Candidates.Commentable;
    if |files| > 0 { NoPatchNoLines(files[..|files| - 1], name); }
  }
}
