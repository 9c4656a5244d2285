/**
 * The chronological join of eval/outcomes/collect.py: `export_history` matches frozen scores to
 * merges and observed outcomes, and withholds every label that was not available in time.
 *
 * Field shapes, digests and authorities are checked by code that this model leaves out; `genuine`
 * says whether they held.
 */
module Outcomes {
  import opened Text
  import opened Sorting

  const MAX_TIME: nat := 9223372036854775807

  datatype Kind = Revert | Incident | Flake

  const KINDS: seq<Kind> := [Revert, Incident, Flake]

  datatype Window = Window(seconds: nat, definitionId: string)

  datatype Protocol = Protocol(repository: string, trainingCutoff: nat, recordedAt: nat,
                               revert: Window, incident: Window, flake: Window, genuine: bool)

  function WindowOf(p: Protocol, kind: Kind): Window {
    match kind case Revert => p.revert case Incident => p.incident case Flake => p.flake
  }

  datatype Capture = Capture(pullRequest: nat, head: string, capturedAt: nat, scoreRecordedAt: nat, score: real,
                             receivedAt: nat, genuine: bool)

  datatype Merge = Merge(repository: string, pullRequest: nat, head: string, commit: string, mergedAt: nat,
                         recordedAt: nat, genuine: bool)

  datatype Observation = Observation(repository: string, pullRequest: nat, head: string, kind: Kind,
                                     definitionId: string, occurred: bool, observedAt: nat, availableAt: nat,
                                     coverageStart: Option<nat>, coverageEnd: Option<nat>,
                                     coverageComplete: Option<bool>, recordedAt: nat, evidence: string, genuine: bool)

  type Key = (nat, Kind)

  function KeyOf(o: Observation): Key { (o.pullRequest, o.kind) }

  predicate InRange(t: int) { 1 <= t <= MAX_TIME }

  // ----- what is admitted -----

  predicate IsProtocol(p: Protocol, now: nat) {
    && p.genuine && InRange(p.trainingCutoff)
    && p.recordedAt <= now && p.recordedAt < p.trainingCutoff
    && InRange(p.revert.seconds) && InRange(p.incident.seconds) && InRange(p.flake.seconds)
    && p.revert.definitionId != p.incident.definitionId && p.revert.definitionId != p.flake.definitionId
    && p.incident.definitionId != p.flake.definitionId
  }

  predicate IsCapture(c: Capture, now: nat) {
    && c.genuine && InRange(c.pullRequest) && InRange(c.capturedAt)
    && c.scoreRecordedAt <= c.capturedAt <= c.receivedAt <= now
  }

  predicate IsMerge(p: Protocol, m: Merge, now: nat) {
    && m.genuine && m.repository == p.repository && InRange(m.pullRequest) && InRange(m.mergedAt)
    && m.mergedAt <= m.recordedAt <= now
  }

  /** Complete surveillance from the merge through maturity, for an outcome that did not occur. */
  predicate Covers(o: Observation, m: Merge, maturity: nat) {
    && o.coverageComplete == Some(true) && o.coverageStart.Some? && o.coverageEnd.Some?
    && InRange(o.coverageStart.value) && InRange(o.coverageEnd.value)
    && o.coverageStart.value <= m.mergedAt && o.coverageEnd.value >= maturity && o.observedAt == o.coverageEnd.value
  }

  predicate IsObservation(p: Protocol, merges: map<nat, Merge>, o: Observation, now: nat) {
    && o.genuine && o.recordedAt <= now && o.repository == p.repository && InRange(o.pullRequest)
    && o.definitionId == WindowOf(p, o.kind).definitionId
    && InRange(o.observedAt) && InRange(o.availableAt) && o.observedAt <= o.availableAt == o.recordedAt
    && o.pullRequest in merges && o.head == merges[o.pullRequest].head
    && var m := merges[o.pullRequest];
       var maturity := m.mergedAt + WindowOf(p, o.kind).seconds;
       && maturity <= MAX_TIME && o.observedAt >= m.mergedAt
       && (if o.occurred
           then o.observedAt <= maturity && o.coverageStart.None? && o.coverageEnd.None? && o.coverageComplete.None?
           else Covers(o, m, maturity))
  }

  function CapturesByPr(captures: seq<Capture>): map<nat, Capture> {
    if |captures| == 0 then map[]
    else
      var c := captures[|captures| - 1];
      CapturesByPr(captures[..|captures| - 1])[c.pullRequest := c]
  }

  function MergesByPr(merges: seq<Merge>): map<nat, Merge> {
    if |merges| == 0 then map[]
    else
      var m := merges[|merges| - 1];
      MergesByPr(merges[..|merges| - 1])[m.pullRequest := m]
  }

  function ObservationsByKey(observations: seq<Observation>): map<Key, Observation> {
    if |observations| == 0 then map[]
    else
      var o := observations[|observations| - 1];
      ObservationsByKey(observations[..|observations| - 1])[KeyOf(o) := o]
  }

  /** No pull request and no head twice. */
  predicate AreCaptures(captures: seq<Capture>, now: nat) {
    && (forall i :: 0 <= i < |captures| ==> IsCapture(captures[i], now))
    && (forall i, j :: 0 <= i < j < |captures| ==>
          captures[i].pullRequest != captures[j].pullRequest && captures[i].head != captures[j].head)
  }

  predicate AreMerges(p: Protocol, merges: seq<Merge>, now: nat) {
    && (forall i :: 0 <= i < |merges| ==> IsMerge(p, merges[i], now))
    && (forall i, j :: 0 <= i < j < |merges| ==>
          && merges[i].pullRequest != merges[j].pullRequest && merges[i].head != merges[j].head
          && merges[i].commit != merges[j].commit)
  }

  predicate AreObservations(p: Protocol, merges: map<nat, Merge>, observations: seq<Observation>, now: nat) {
    && (forall i :: 0 <= i < |observations| ==> IsObservation(p, merges, observations[i], now))
    && (forall i, j :: 0 <= i < j < |observations| ==> KeyOf(observations[i]) != KeyOf(observations[j]))
  }

  // ----- what is exported -----

  datatype Label = Label(occurred: bool, observedAt: nat, evidence: string)

  datatype Record = Record(head: string, mergedAt: nat, scoreRecordedAt: nat, score: real,
                           revert: Option<Label>, incident: Option<Label>, flake: Option<Label>)

  function LabelIn(r: Record, kind: Kind): Option<Label> {
    match kind case Revert => r.revert case Incident => r.incident case Flake => r.flake
  }

  datatype Status = MissingTelemetry | AfterCutoff | AfterAsOf | Immature | Exported

  datatype AuditRecord = AuditRecord(pullRequest: nat, head: string, commit: string,
                                     revert: Status, incident: Status, flake: Status)

  datatype Exclusion = MissingScore | Unavailable

  datatype Excluded = Excluded(pullRequest: nat, head: string, reason: Exclusion)

  datatype Export = Export(records: seq<Record>, audit: seq<AuditRecord>, excluded: seq<Excluded>,
                           unmerged: seq<(nat, string)>)

  /** Labels of merges before the training cutoff are judged at the cutoff, the others at `asOf`. */
  function Boundary(p: Protocol, m: Merge, asOf: nat): nat {
    if m.mergedAt < p.trainingCutoff then p.trainingCutoff else asOf
  }

  function StatusOf(p: Protocol, m: Merge, kind: Kind, observations: map<Key, Observation>, asOf: nat): Status {
    var key := (m.pullRequest, kind);
    if key !in observations then MissingTelemetry
    else
      var boundary := Boundary(p, m, asOf);
      if observations[key].availableAt > boundary then (if boundary != asOf then AfterCutoff else AfterAsOf)
      else if m.mergedAt + WindowOf(p, kind).seconds > boundary then Immature
      else Exported
  }

  function LabelOf(p: Protocol, m: Merge, kind: Kind, observations: map<Key, Observation>, asOf: nat): Option<Label> {
    if StatusOf(p, m, kind, observations, asOf).Exported? then
      var o := observations[(m.pullRequest, kind)];
      Some(Label(o.occurred, o.observedAt, o.evidence))
    else None
  }

  function RecordOf(p: Protocol, m: Merge, c: Capture, observations: map<Key, Observation>, asOf: nat): Record {
    Record(m.head, m.mergedAt, c.scoreRecordedAt, c.score,
           LabelOf(p, m, Revert, observations, asOf),
           LabelOf(p, m, Incident, observations, asOf),
           LabelOf(p, m, Flake, observations, asOf))
  }

  function AuditOf(p: Protocol, m: Merge, observations: map<Key, Observation>, asOf: nat): AuditRecord {
    AuditRecord(m.pullRequest, m.head, m.commit,
                StatusOf(p, m, Revert, observations, asOf),
                StatusOf(p, m, Incident, observations, asOf),
                StatusOf(p, m, Flake, observations, asOf))
  }

  predicate IsExcluded(captures: map<nat, Capture>, m: Merge, asOf: nat) {
    m.pullRequest !in captures || m.mergedAt > asOf || m.recordedAt > asOf
  }

  function ExclusionOf(captures: map<nat, Capture>, m: Merge): Excluded {
    Excluded(m.pullRequest, m.head, if m.pullRequest !in captures then MissingScore else Unavailable)
  }

  /** The frozen score is for the revision that merged, and was captured before the merge. */
  predicate Precedes(c: Capture, m: Merge) {
    c.head == m.head && c.scoreRecordedAt < m.mergedAt && c.capturedAt < m.mergedAt && c.receivedAt < m.mergedAt
  }

  predicate Joins(captures: map<nat, Capture>, m: Merge, asOf: nat) {
    IsExcluded(captures, m, asOf) || Precedes(captures[m.pullRequest], m)
  }

  datatype Joined = Joined(records: seq<Record>, audit: seq<AuditRecord>, excluded: seq<Excluded>)

  /** The loop over the merges, for merges that all join. */
  function JoinAll(p: Protocol, captures: map<nat, Capture>, merges: seq<Merge>, observations: map<Key, Observation>,
                   asOf: nat): Joined
  {
    if |merges| == 0 then Joined([], [], [])
    else
      var front, m := merges[..|merges| - 1], merges[|merges| - 1];
      var before := JoinAll(p, captures, front, observations, asOf);
      if IsExcluded(captures, m, asOf) then before.(excluded := before.excluded + [ExclusionOf(captures, m)])
      else Joined(before.records + [RecordOf(p, m, captures[m.pullRequest], observations, asOf)],
                  before.audit + [AuditOf(p, m, observations, asOf)], before.excluded)
  }

  // ----- sorting -----

  /** `sorted(merge_by_pr.items())`: the pull requests are distinct. */
  predicate MergeAtMost(a: Merge, b: Merge) { a.pullRequest <= b.pullRequest }

  function ByPr(merges: seq<Merge>): seq<Merge> { SortBy(MergeAtMost, merges) }

  predicate CaptureAtMost(a: Capture, b: Capture) { a.pullRequest <= b.pullRequest }

  function CapturesInOrder(captures: seq<Capture>): seq<Capture> { SortBy(CaptureAtMost, captures) }

  predicate NotLater(a: Record, b: Record) {
    a.mergedAt < b.mergedAt || (a.mergedAt == b.mergedAt && TextAtMost(a.head, b.head))
  }

  function Chronological(records: seq<Record>): seq<Record> { SortBy(NotLater, records) }

  function Unmerged(captures: seq<Capture>, merges: map<nat, Merge>): seq<(nat, string)> {
    if |captures| == 0 then []
    else
      var c := captures[|captures| - 1];
      Unmerged(captures[..|captures| - 1], merges) + if c.pullRequest in merges then [] else [(c.pullRequest, c.head)]
  }

  // ----- the whole export -----

  predicate Admitted(p: Protocol, captures: seq<Capture>, merges: seq<Merge>, observations: seq<Observation>, asOf: nat,
                     now: nat)
  {
    && IsProtocol(p, now) && InRange(asOf) && p.trainingCutoff < asOf <= now
    && AreCaptures(captures, now) && AreMerges(p, merges, now)
    && AreObservations(p, MergesByPr(merges), observations, now)
    && AllJoin(CapturesByPr(captures), merges, asOf)
  }

  /** `export_history`; `None` is the `InvalidEvidence` error. */
  function ExportOf(p: Protocol, captures: seq<Capture>, merges: seq<Merge>, observations: seq<Observation>, asOf: nat,
                    now: nat): Option<Export>
  {
    if !Admitted(p, captures, merges, observations, asOf, now) then None
    else
      var joined := JoinAll(p, CapturesByPr(captures), ByPr(merges), ObservationsByKey(observations), asOf);
      Some(Export(Chronological(joined.records), joined.audit, joined.excluded,
                  Unmerged(CapturesInOrder(captures), MergesByPr(merges))))
  }

  // ----- the loops -----

  lemma {:induction false} CapturesHold(captures: seq<Capture>, pr: nat)
    ensures pr in CapturesByPr(captures) <==> exists i :: 0 <= i < |captures| && captures[i].pullRequest == pr
    ensures pr in CapturesByPr(captures) ==>
      CapturesByPr(captures)[pr] in captures && CapturesByPr(captures)[pr].pullRequest == pr
  {
    if |captures| > 0 {
      var front, c := captures[..|captures| - 1], captures[|captures| - 1];
      CapturesHold(front, pr);
      if i :| 0 <= i < |captures| && captures[i].pullRequest == pr {
        if i < |front| { assert front[i].pullRequest == pr; }
      }
      if i :| 0 <= i < |front| && front[i].pullRequest == pr { assert captures[i].pullRequest == pr; }
      assert captures[|front|] == c;
      assert forall d :: d in front ==> d in captures;
    }
  }

  lemma {:induction false} MergesHold(merges: seq<Merge>, pr: nat)
    ensures pr in MergesByPr(merges) <==> exists i :: 0 <= i < |merges| && merges[i].pullRequest == pr
    ensures pr in MergesByPr(merges) ==> MergesByPr(merges)[pr] in merges && MergesByPr(merges)[pr].pullRequest == pr
  {
    if |merges| > 0 {
      var front, m := merges[..|merges| - 1], merges[|merges| - 1];
      MergesHold(front, pr);
      if i :| 0 <= i < |merges| && merges[i].pullRequest == pr { if i < |front| { assert front[i].pullRequest == pr; } }
      if i :| 0 <= i < |front| && front[i].pullRequest == pr { assert merges[i].pullRequest == pr; }
      assert merges[|front|] == m;
      assert forall d :: d in front ==> d in merges;
    }
  }

  lemma {:induction false} ObservationsHold(observations: seq<Observation>, key: Key)
    ensures key in ObservationsByKey(observations) <==>
      exists i :: 0 <= i < |observations| && KeyOf(observations[i]) == key
    ensures key in ObservationsByKey(observations) ==>
      ObservationsByKey(observations)[key] in observations && KeyOf(ObservationsByKey(observations)[key]) == key
  {
    if |observations| > 0 {
      var front, o := observations[..|observations| - 1], observations[|observations| - 1];
      ObservationsHold(front, key);
      if i :| 0 <= i < |observations| && KeyOf(observations[i]) == key {
        if i < |front| { assert KeyOf(front[i]) == key; }
      }
      if i :| 0 <= i < |front| && KeyOf(front[i]) == key { assert KeyOf(observations[i]) == key; }
      assert observations[|front|] == o;
      assert forall d :: d in front ==> d in observations;
    }
  }

  function CaptureHeads(captures: seq<Capture>): (heads: set<string>)
    ensures forall h :: h in heads <==> exists i :: 0 <= i < |captures| && captures[i].head == h
  {
    if |captures| == 0 then {}
    else
      assert captures == captures[..|captures| - 1] + [captures[|captures| - 1]];
      CaptureHeads(captures[..|captures| - 1]) + {captures[|captures| - 1].head}
  }

  lemma AreCapturesSnoc(front: seq<Capture>, c: Capture, now: nat)
    requires AreCaptures(front, now)
    ensures AreCaptures(front + [c], now) <==>
      && IsCapture(c, now)
      && (forall i :: 0 <= i < |front| ==> front[i].pullRequest != c.pullRequest && front[i].head != c.head)
  {
    hide IsCapture;
    var all := front + [c];
    if AreCaptures(all, now) {
      assert all[|front|] == c;
      forall i | 0 <= i < |front| ensures front[i].pullRequest != c.pullRequest && front[i].head != c.head {
        assert all[i] == front[i];
      }
    }
  }

  /** One capture more. */
  lemma CapturesSnoc(front: seq<Capture>, c: Capture, now: nat)
    requires AreCaptures(front, now)
    ensures AreCaptures(front + [c], now) <==>
      IsCapture(c, now) && c.pullRequest !in CapturesByPr(front) && c.head !in CaptureHeads(front)
    ensures CapturesByPr(front + [c]) == CapturesByPr(front)[c.pullRequest := c]
    ensures CaptureHeads(front + [c]) == CaptureHeads(front) + {c.head}
  {
    var all := front + [c];
    assert all[..|front|] == front && all[|front|] == c;
    CapturesHold(front, c.pullRequest);
    AreCapturesSnoc(front, c, now);
    hide AreCaptures, IsCapture;
  }

  lemma CapturesPrefix(captures: seq<Capture>, k: nat, now: nat)
    requires k <= |captures| && AreCaptures(captures, now)
    ensures AreCaptures(captures[..k], now)
  {
  }

  lemma NoCaptures(now: nat)
    ensures AreCaptures([], now) && CapturesByPr([]) == map[] && CaptureHeads([]) == {}
  {
  }

  /** The first loop: index the captures, or find that they are not admissible. */
  method IndexCaptures(captures: seq<Capture>, now: nat) returns (ok: bool, byPr: map<nat, Capture>)
    ensures ok == AreCaptures(captures, now)
    ensures ok ==> byPr == CapturesByPr(captures)
  {
    NoCaptures(now);
    hide AreCaptures, CapturesByPr, CaptureHeads, IsCapture;
    byPr := map[];
    var heads: set<string> := {};
    var k := 0;
    while k < |captures|
      invariant 0 <= k <= |captures| && AreCaptures(captures[..k], now)
      invariant byPr == CapturesByPr(captures[..k]) && heads == CaptureHeads(captures[..k])
    {
      var c := captures[k];
      CapturesSnoc(captures[..k], c, now);
      assert captures[..k + 1] == captures[..k] + [c];
      if !IsCapture(c, now) || c.pullRequest in byPr || c.head in heads {
        if AreCaptures(captures, now) { CapturesPrefix(captures, k + 1, now); }
        return false, byPr;
      }
      byPr := byPr[c.pullRequest := c];
      heads := heads + {c.head};
      k := k + 1;
    }
    assert captures[..k] == captures;
    ok := true;
  }

  function MergeHeads(merges: seq<Merge>): (heads: set<string>)
    ensures forall h :: h in heads <==> exists i :: 0 <= i < |merges| && merges[i].head == h
  {
    if |merges| == 0 then {}
    else
      assert merges == merges[..|merges| - 1] + [merges[|merges| - 1]];
      MergeHeads(merges[..|merges| - 1]) + {merges[|merges| - 1].head}
  }

  function MergeCommits(merges: seq<Merge>): (commits: set<string>)
    ensures forall h :: h in commits <==> exists i :: 0 <= i < |merges| && merges[i].commit == h
  {
    if |merges| == 0 then {}
    else
      assert merges == merges[..|merges| - 1] + [merges[|merges| - 1]];
      MergeCommits(merges[..|merges| - 1]) + {merges[|merges| - 1].commit}
  }

  lemma AreMergesSnoc(p: Protocol, front: seq<Merge>, m: Merge, now: nat)
    requires AreMerges(p, front, now)
    ensures AreMerges(p, front + [m], now) <==>
      && IsMerge(p, m, now)
      && (forall i :: 0 <= i < |front| ==>
            front[i].pullRequest != m.pullRequest && front[i].head != m.head && front[i].commit != m.commit)
  {
    hide IsMerge;
    var all := front + [m];
    if AreMerges(p, all, now) {
      assert all[|front|] == m;
      forall i | 0 <= i < |front|
        ensures front[i].pullRequest != m.pullRequest && front[i].head != m.head && front[i].commit != m.commit
      {
        assert all[i] == front[i];
      }
    }
  }

  lemma MergesSnoc(p: Protocol, front: seq<Merge>, m: Merge, now: nat)
    requires AreMerges(p, front, now)
    ensures AreMerges(p, front + [m], now) <==>
      && IsMerge(p, m, now) && m.pullRequest !in MergesByPr(front) && m.head !in MergeHeads(front)
      && m.commit !in MergeCommits(front)
    ensures MergesByPr(front + [m]) == MergesByPr(front)[m.pullRequest := m]
    ensures MergeHeads(front + [m]) == MergeHeads(front) + {m.head}
    ensures MergeCommits(front + [m]) == MergeCommits(front) + {m.commit}
  {
    var all := front + [m];
    assert all[..|front|] == front && all[|front|] == m;
    MergesHold(front, m.pullRequest);
    AreMergesSnoc(p, front, m, now);
    hide AreMerges, IsMerge;
  }

  lemma MergesPrefix(p: Protocol, merges: seq<Merge>, k: nat, now: nat)
    requires k <= |merges| && AreMerges(p, merges, now)
    ensures AreMerges(p, merges[..k], now)
  {
  }

  /** What the loop over the merges has indexed. */
  ghost predicate MergesIndexed(p: Protocol, merges: seq<Merge>, now: nat, byPr: map<nat, Merge>, heads: set<string>,
                                commits: set<string>)
  {
    && AreMerges(p, merges, now)
    && byPr == MergesByPr(merges) && heads == MergeHeads(merges) && commits == MergeCommits(merges)
  }

  /** The checks of the loop, for the next merge. */
  predicate IsNewMerge(p: Protocol, m: Merge, now: nat, byPr: map<nat, Merge>, heads: set<string>,
                       commits: set<string>)
  {
    IsMerge(p, m, now) && m.pullRequest !in byPr && m.head !in heads && m.commit !in commits
  }

  lemma NextMerge(p: Protocol, merges: seq<Merge>, k: nat, now: nat, byPr: map<nat, Merge>, heads: set<string>,
                  commits: set<string>)
    requires k < |merges| && MergesIndexed(p, merges[..k], now, byPr, heads, commits)
    ensures var m := merges[k];
      if IsNewMerge(p, m, now, byPr, heads, commits)
      then MergesIndexed(p, merges[..k + 1], now, byPr[m.pullRequest := m], heads + {m.head}, commits + {m.commit})
      else !AreMerges(p, merges, now)
  {
    hide IsMerge, AreMerges, MergesByPr, MergeHeads, MergeCommits;
    var m := merges[k];
    MergesSnoc(p, merges[..k], m, now);
    assert merges[..k + 1] == merges[..k] + [m];
    if AreMerges(p, merges, now) { MergesPrefix(p, merges, k + 1, now); }
  }

  lemma NoMerges(p: Protocol, now: nat)
    ensures AreMerges(p, [], now) && MergesByPr([]) == map[] && MergeHeads([]) == {} && MergeCommits([]) == {}
  {
  }

  method IndexMerges(p: Protocol, merges: seq<Merge>, now: nat) returns (ok: bool, byPr: map<nat, Merge>)
    ensures ok == AreMerges(p, merges, now)
    ensures ok ==> byPr == MergesByPr(merges)
  {
    NoMerges(p, now);
    hide AreMerges, IsMerge, MergesByPr, MergeHeads, MergeCommits;
    byPr := map[];
    var heads: set<string>, commits: set<string> := {}, {};
    var k := 0;
    while k < |merges|
      invariant 0 <= k <= |merges| && MergesIndexed(p, merges[..k], now, byPr, heads, commits)
    {
      var m := merges[k];
      NextMerge(p, merges, k, now, byPr, heads, commits);
      hide MergesIndexed;
      if !IsNewMerge(p, m, now, byPr, heads, commits) { return false, byPr; }
      byPr := byPr[m.pullRequest := m];
      heads := heads + {m.head};
      commits := commits + {m.commit};
      k := k + 1;
    }
    assert merges[..k] == merges;
    ok := true;
  }

  lemma ObservationsSnoc(p: Protocol, merges: map<nat, Merge>, front: seq<Observation>, o: Observation, now: nat)
    requires AreObservations(p, merges, front, now)
    ensures AreObservations(p, merges, front + [o], now) <==>
      IsObservation(p, merges, o, now) && KeyOf(o) !in ObservationsByKey(front)
    ensures ObservationsByKey(front + [o]) == ObservationsByKey(front)[KeyOf(o) := o]
  {
    var all := front + [o];
    assert all[..|front|] == front && all[|front|] == o;
    ObservationsHold(front, KeyOf(o));
    hide IsObservation, ObservationsByKey, KeyOf;
    if KeyOf(o) in ObservationsByKey(front) {
      var i :| 0 <= i < |front| && KeyOf(front[i]) == KeyOf(o);
      assert KeyOf(all[i]) == KeyOf(all[|front|]);
    }
  }

  lemma ObservationsPrefix(p: Protocol, merges: map<nat, Merge>, observations: seq<Observation>, k: nat, now: nat)
    requires k <= |observations| && AreObservations(p, merges, observations, now)
    ensures AreObservations(p, merges, observations[..k], now)
  {
  }

  lemma NoObservations(p: Protocol, merges: map<nat, Merge>, now: nat)
    ensures AreObservations(p, merges, [], now) && ObservationsByKey([]) == map[]
  {
  }

  method IndexObservations(p: Protocol, merges: map<nat, Merge>, observations: seq<Observation>, now: nat)
    returns (ok: bool, byKey: map<Key, Observation>)
    ensures ok == AreObservations(p, merges, observations, now)
    ensures ok ==> byKey == ObservationsByKey(observations)
  {
    NoObservations(p, merges, now);
    hide AreObservations, IsObservation, ObservationsByKey;
    byKey := map[];
    var k := 0;
    while k < |observations|
      invariant 0 <= k <= |observations| && AreObservations(p, merges, observations[..k], now)
      invariant byKey == ObservationsByKey(observations[..k])
    {
      var o := observations[k];
      ObservationsSnoc(p, merges, observations[..k], o, now);
      assert observations[..k + 1] == observations[..k] + [o];
      if !IsObservation(p, merges, o, now) || KeyOf(o) in byKey {
        if AreObservations(p, merges, observations, now) { ObservationsPrefix(p, merges, observations, k + 1, now); }
        return false, byKey;
      }
      byKey := byKey[KeyOf(o) := o];
      k := k + 1;
    }
    assert observations[..k] == observations;
    ok := true;
  }

  predicate AllJoin(captures: map<nat, Capture>, merges: seq<Merge>, asOf: nat) {
    forall i :: 0 <= i < |merges| ==> Joins(captures, merges[i], asOf)
  }

  /** The labels of one merge, kind by kind. */
  method LabelMerge(p: Protocol, m: Merge, c: Capture, observations: map<Key, Observation>, asOf: nat)
    returns (record: Record, audit: AuditRecord)
    ensures record == RecordOf(p, m, c, observations, asOf) && audit == AuditOf(p, m, observations, asOf)
  {
    var labels: map<Kind, Option<Label>>, statuses: map<Kind, Status> := map[], map[];
    for k := 0 to |KINDS|
      invariant forall j :: 0 <= j < k ==>
        && KINDS[j] in labels && KINDS[j] in statuses
        && labels[KINDS[j]] == LabelOf(p, m, KINDS[j], observations, asOf)
        && statuses[KINDS[j]] == StatusOf(p, m, KINDS[j], observations, asOf)
    {
      var kind := KINDS[k];
      labels := labels[kind := None];
      if (m.pullRequest, kind) !in observations {
        statuses := statuses[kind := MissingTelemetry];
        continue;
      }
      var o := observations[(m.pullRequest, kind)];
      var boundary := if m.mergedAt < p.trainingCutoff then p.trainingCutoff else asOf;
      var status := Exported;
      if o.availableAt > boundary {
        status := if boundary != asOf then AfterCutoff else AfterAsOf;
      } else if m.mergedAt + WindowOf(p, kind).seconds > boundary {
        status := Immature;
      }
      statuses := statuses[kind := status];
      if status.Exported? { labels := labels[kind := Some(Label(o.occurred, o.observedAt, o.evidence))]; }
    }
    assert KINDS[0] == Revert && KINDS[1] == Incident && KINDS[2] == Flake;
    record := Record(m.head, m.mergedAt, c.scoreRecordedAt, c.score, labels[Revert], labels[Incident], labels[Flake]);
    audit := AuditRecord(m.pullRequest, m.head, m.commit, statuses[Revert], statuses[Incident], statuses[Flake]);
  }

  /** The loop over the merges in order of pull request. */
  method JoinMerges(p: Protocol, captures: map<nat, Capture>, sorted: seq<Merge>, observations: map<Key, Observation>,
                    asOf: nat)
    returns (ok: bool, joined: Joined)
    ensures ok == AllJoin(captures, sorted, asOf)
    ensures ok ==> joined == JoinAll(p, captures, sorted, observations, asOf)
  {
    joined := Joined([], [], []);
    var k := 0;
    while k < |sorted|
      invariant 0 <= k <= |sorted| && AllJoin(captures, sorted[..k], asOf)
      invariant joined == JoinAll(p, captures, sorted[..k], observations, asOf)
    {
      var m := sorted[k];
      assert sorted[..k + 1][..k] == sorted[..k];
      assert sorted[..k + 1] == sorted[..k] + [m];
      k := k + 1;
      if m.pullRequest !in captures || m.mergedAt > asOf || m.recordedAt > asOf {
        joined := joined.(excluded := joined.excluded + [ExclusionOf(captures, m)]);
        continue;
      }
      var c := captures[m.pullRequest];
      if !Precedes(c, m) {
        assert !Joins(captures, sorted[k - 1], asOf);
        return false, joined;
      }
      var record, audit := LabelMerge(p, m, c, observations, asOf);
      joined := Joined(joined.records + [record], joined.audit + [audit], joined.excluded);
    }
    assert sorted[..k] == sorted;
    ok := true;
  }

  method FindUnmerged(captures: seq<Capture>, merges: map<nat, Merge>) returns (unmerged: seq<(nat, string)>)
    ensures unmerged == Unmerged(captures, merges)
  {
    unmerged := [];
    for k := 0 to |captures|
      invariant unmerged == Unmerged(captures[..k], merges)
    {
      assert captures[..k + 1][..k] == captures[..k];
      if captures[k].pullRequest !in merges { unmerged := unmerged + [(captures[k].pullRequest, captures[k].head)]; }
    }
    assert captures[..|captures|] == captures;
  }

  lemma JoinsAnyOrder(captures: map<nat, Capture>, a: seq<Merge>, b: seq<Merge>, asOf: nat)
    requires multiset(a) == multiset(b) && AllJoin(captures, a, asOf)
    ensures AllJoin(captures, b, asOf)
  {
    hide Joins;
    forall i | 0 <= i < |b| ensures Joins(captures, b[i], asOf) {
      SameElements(a, b, b[i]);
      var j :| 0 <= j < |a| && a[j] == b[i];
    }
  }

  method ExportHistory(p: Protocol, captures: seq<Capture>, merges: seq<Merge>, observations: seq<Observation>,
                       asOf: nat, now: nat)
    returns (result: Option<Export>)
    ensures result == ExportOf(p, captures, merges, observations, asOf, now)
  {
    if !IsProtocol(p, now) || !InRange(asOf) || !(p.trainingCutoff < asOf <= now) { return None; }
    var captured, captureByPr := IndexCaptures(captures, now);
    if !captured { return None; }
    var merged, mergeByPr := IndexMerges(p, merges, now);
    if !merged { return None; }
    var observed, observationsByKey := IndexObservations(p, mergeByPr, observations, now);
    if !observed { return None; }
    var sorted := ByPr(merges);
    if AllJoin(captureByPr, sorted, asOf) { JoinsAnyOrder(captureByPr, sorted, merges, asOf); }
    if AllJoin(captureByPr, merges, asOf) { JoinsAnyOrder(captureByPr, merges, sorted, asOf); }
    var all, joined := JoinMerges(p, captureByPr, sorted, observationsByKey, asOf);
    if !all { return None; }
    var unmerged := FindUnmerged(CapturesInOrder(captures), mergeByPr);
    result := Some(Export(Chronological(joined.records), joined.audit, joined.excluded, unmerged));
  }
}
