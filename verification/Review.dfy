/**
 * Planning a GitHub review (`plan`, `Plan::demote_inline`, `Posted` and `comment_body` of
 * src/domain/github_review.rs): which findings become inline comments.
 */
module Review {
  import opened Text
  import opened Markers
  import opened Sorting
  import Candidates

  /** `key` of the dimension; `visible` is the redacted text of the comment, before its markers. */
  datatype Finding = Finding(file: string, line: nat, dimension: string, mechanism: string, fingerprint: string,
                             rank: Option<nat>, severity: real, visible: string)

  datatype InlineComment = InlineComment(path: string, line: nat, side: string, body: string)

  datatype Reason = NotADiffReview | OutsideDiff | OverCap | Rejected | NearPosted

  datatype Placed = Placed(finding: Finding, comment: InlineComment)

  datatype Listed = Listed(finding: Finding, reason: Reason)

  datatype Plan = Plan(inline: seq<Placed>, summaryOnly: seq<Listed>, alreadyPosted: nat)

  // ----- what is posted -----

  /** A review comment as GitHub lists it; `line` is where it was posted, if it still has a line. */
  datatype Comment = Comment(path: string, line: Option<nat>, body: string)

  datatype PostedTopic = PostedTopic(path: string, line: nat, topic: string)

  datatype Posted = Posted(fingerprints: set<string>, topics: seq<PostedTopic>)

  const REPOST_LINE_WINDOW := 20

  function Topic(f: Finding): string { f.dimension + "/" + f.mechanism }

  function CommentMarkers(f: Finding): seq<string> {
    (if f.fingerprint == "" then [] else [FingerprintMarker(f.fingerprint)])
    + if f.mechanism == "" then [] else [TopicMarker(f.dimension, f.mechanism)]
  }

  function CommentBody(f: Finding): string {
    var markers := CommentMarkers(f);
    f.visible + if |markers| == 0 then "" else "\n\n" + Join(markers, '\n')
  }

  function CommentFor(f: Finding): InlineComment { InlineComment(f.file, f.line, "RIGHT", CommentBody(f)) }

  /** The topic of one comment, if it has one and a line. */
  function TopicIn(c: Comment): seq<PostedTopic> {
    match (FirstTopic(c.body, 0), c.line)
    case (Some(topic), Some(line)) => [PostedTopic(c.path, line, topic)]
    case _ => []
  }

  function TopicsOf(comments: seq<Comment>): seq<PostedTopic> {
    if |comments| == 0 then []
    else
      TopicsOf(comments[..|comments| - 1]) + TopicIn(comments[|comments| - 1])
  }

  function Bodies(comments: seq<Comment>): seq<string> {
    seq(|comments|, k requires 0 <= k < |comments| => comments[k].body)
  }

  function PostedBy(comments: seq<Comment>): Posted {
    Posted(Fingerprints(Bodies(comments)), TopicsOf(comments))
  }

  predicate Has(posted: Posted, f: Finding) { f.fingerprint != "" && f.fingerprint in posted.fingerprints }

  predicate IsNear(t: PostedTopic, f: Finding) {
    && t.path == f.file && t.topic == Topic(f)
    && -REPOST_LINE_WINDOW <= t.line - f.line <= REPOST_LINE_WINDOW
  }

  predicate HasNear(posted: Posted, f: Finding) {
    exists k :: 0 <= k < |posted.topics| && IsNear(posted.topics[k], f)
  }

  // ----- fix-first order -----

  function Rank(f: Finding): nat { match f.rank case Some(r) => r case None => USIZE_MAX }

  /** `fix_first` is not `Greater`. */
  predicate NotAfter(a: Finding, b: Finding) {
    Rank(a) < Rank(b) || (Rank(a) == Rank(b) && a.severity >= b.severity)
  }

  /** `findings.sort_by(fix_first)` */
  function FixFirst(findings: seq<Finding>): seq<Finding> { SortBy(NotAfter, findings) }

  lemma NotAfterIsOrder()
    ensures IsOrder(NotAfter)
  {
  }

  // ----- the plan, one finding at a time -----

  datatype PrFile = PrFile(filename: string, patch: Option<string>)

  /** The lines of each file that has a patch; a later entry replaces an earlier one. */
  function CommentableIn(files: seq<PrFile>): map<string, set<nat>> {
    if |files| == 0 then map[]
    else
      var f := files[|files| - 1];
      var before := CommentableIn(files[..|files| - 1]);
      if f.patch.None? then before else before[f.filename := Candidates.Commentable(f.patch.value)]
  }

  datatype Context = Context(codebase: bool, commentable: map<string, set<nat>>, posted: Posted, maxInline: nat)

  predicate Anchors(ctx: Context, f: Finding) { f.file in ctx.commentable && f.line in ctx.commentable[f.file] }

  function ReasonFor(ctx: Context, inlineCount: nat, f: Finding): Option<Reason> {
    if ctx.codebase then Some(NotADiffReview)
    else if HasNear(ctx.posted, f) then Some(NearPosted)
    else if !Anchors(ctx, f) then Some(OutsideDiff)
    else if inlineCount >= ctx.maxInline then Some(OverCap)
    else None
  }

  datatype Progress = Progress(plan: Plan, seen: set<string>)

  /** One turn of the loop in `plan`. */
  function Place(ctx: Context, p: Progress, f: Finding): Progress {
    var fp := f.fingerprint;
    var plan := p.plan;
    if Has(ctx.posted, f) then p.(plan := plan.(alreadyPosted := plan.alreadyPosted + 1))
    else if fp != "" && fp in p.seen then p.(plan := plan.(alreadyPosted := plan.alreadyPosted + 1))
    else
      Progress(
        match ReasonFor(ctx, |plan.inline|, f)
        case Some(reason) => plan.(summaryOnly := plan.summaryOnly + [Listed(f, reason)])
        case None => plan.(inline := plan.inline + [Placed(f, CommentFor(f))]),
        if fp == "" then p.seen else p.seen + {fp})
  }

  function PlaceAll(ctx: Context, fs: seq<Finding>): Progress {
    if |fs| == 0 then Progress(Plan([], [], 0), {})
    else Place(ctx, PlaceAll(ctx, fs[..|fs| - 1]), fs[|fs| - 1])
  }

  lemma PlaceNothing(ctx: Context)
    ensures PlaceAll(ctx, []) == Progress(Plan([], [], 0), {})
  {
  }

  lemma PlaceNext(ctx: Context, fs: seq<Finding>, i: nat)
    requires i < |fs|
    ensures PlaceAll(ctx, fs[..i + 1]) == Place(ctx, PlaceAll(ctx, fs[..i]), fs[i])
  {
    assert fs[..i + 1][..i] == fs[..i];
    hide Place;
  }

  function PlanOf(ctx: Context, findings: seq<Finding>): Plan { PlaceAll(ctx, FixFirst(findings)).plan }

  function Demoted(plan: Plan): Plan {
    Plan([], plan.summaryOnly + AllRejected(plan.inline), plan.alreadyPosted)
  }

  function AllRejected(inline: seq<Placed>): (r: seq<Listed>)
    ensures |r| == |inline|
  {
    seq(|inline|, k requires 0 <= k < |inline| => Listed(inline[k].finding, Rejected))
  }

  class ReviewPlan {
    var inline: seq<Placed>
    var summaryOnly: seq<Listed>
    var alreadyPosted: nat

    ghost function Contents(): Plan
      reads this
    {
      Plan(inline, summaryOnly, alreadyPosted)
    }

    constructor ()
      ensures Contents() == Plan([], [], 0)
    {
      inline, summaryOnly, alreadyPosted := [], [], 0;
    }

    method DemoteInline()
      modifies this
      ensures Contents() == Demoted(old(Contents()))
    {
      var drained := inline;
      inline := [];
      var k := 0;
      while k < |drained|
        invariant 0 <= k <= |drained| && inline == [] && alreadyPosted == old(alreadyPosted)
        invariant summaryOnly == old(summaryOnly) + AllRejected(drained)[..k]
      {
        summaryOnly := summaryOnly + [Listed(drained[k].finding, Rejected)];
        k := k + 1;
      }
    }
  }

  method IndexFiles(files: seq<PrFile>) returns (commentable: map<string, set<nat>>)
    ensures commentable == CommentableIn(files)
  {
    commentable := map[];
    var k := 0;
    while k < |files|
      invariant 0 <= k <= |files| && commentable == CommentableIn(files[..k])
    {
      assert files[..k + 1][..k] == files[..k];
      if files[k].patch.Some? {
        var lines := Candidates.CommentableLines(files[k].patch.value);
        commentable := commentable[files[k].filename := lines];
      }
      k := k + 1;
    }
    assert files[..k] == files;
  }

  method MakePlan(codebase: bool, findings: seq<Finding>, files: seq<PrFile>, posted: Posted, maxInline: nat)
    returns (out: ReviewPlan)
    ensures fresh(out)
    ensures out.Contents() == PlanOf(Context(codebase, CommentableIn(files), posted, maxInline), findings)
  {
    hide HasNear, CommentFor, FixFirst, PlaceAll;
    var commentable := IndexFiles(files);
    ghost var ctx := Context(codebase, commentable, posted, maxInline);
    var sorted := FixFirst(findings);
    out := new ReviewPlan();
    var seen: set<string> := {};
    PlaceNothing(ctx);
    var i := 0;
    while i < |sorted|
      invariant 0 <= i <= |sorted| && fresh(out)
      invariant Progress(out.Contents(), seen) == PlaceAll(ctx, sorted[..i])
    {
      var finding := sorted[i];
      PlaceNext(ctx, sorted, i);
      i := i + 1;
      var fp := finding.fingerprint;
      if Has(posted, finding) || (fp != "" && fp in seen) {
        out.alreadyPosted := out.alreadyPosted + 1;
        continue;
      }
      if fp != "" { seen := seen + {fp}; }
      var reason :=
        if codebase then Some(NotADiffReview)
        else if HasNear(posted, finding) then Some(NearPosted)
        else if !(finding.file in commentable && finding.line in commentable[finding.file]) then Some(OutsideDiff)
        else if |out.inline| >= maxInline then Some(OverCap)
        else None;
      match reason
      case Some(r) => out.summaryOnly := out.summaryOnly + [Listed(finding, r)];
      case None => out.inline := out.inline + [Placed(finding, CommentFor(finding))];
    }
    assert sorted[..i] == sorted;
  }
}
