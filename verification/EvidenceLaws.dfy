/**
 * Which evidence `export_history` (eval/outcomes/collect.py:228-352) accepts, and what each exported
 * label rests on, in terms of the protocol, captures, merges and observations themselves.
 */
module EvidenceLaws {
  import opened Text
  import opened Outcomes
  import opened ExportLaws

  /** A positive 64-bit integer. */
  predicate IsTime(t: int) { 1 <= t <= 0x7FFF_FFFF_FFFF_FFFF }

  function DefinitionOf(p: Protocol, kind: Kind): string {
    match kind
    case Revert => p.revert.definitionId
    case Incident => p.incident.definitionId
    case Flake => p.flake.definitionId
  }

  // ----- sound evidence -----

  /** Registered before its cutoff, with a window for each outcome and no definition shared by two. */
  ghost predicate SoundProtocol(p: Protocol, now: nat) {
    && p.genuine && IsTime(p.trainingCutoff) && p.recordedAt <= now && p.recordedAt < p.trainingCutoff
    && (forall kind :: IsTime(SecondsOf(p, kind)))
    && forall a, b :: a != b ==> DefinitionOf(p, a) != DefinitionOf(p, b)
  }

  /** The score came first, then the capture of it, then its receipt. */
  predicate SoundCapture(c: Capture, now: nat) {
    && c.genuine && IsTime(c.pullRequest) && IsTime(c.capturedAt)
    && c.scoreRecordedAt <= c.capturedAt && c.capturedAt <= c.receivedAt && c.receivedAt <= now
  }

  predicate SoundMerge(p: Protocol, m: Merge, now: nat) {
    && m.genuine && m.repository == p.repository && IsTime(m.pullRequest) && IsTime(m.mergedAt)
    && m.mergedAt <= m.recordedAt && m.recordedAt <= now
  }

  /** An event within its window after the merge, or surveillance from the merge to the window's end. */
  predicate SoundOutcome(p: Protocol, o: Observation, m: Merge) {
    var end := m.mergedAt + SecondsOf(p, o.kind);
    && end <= 0x7FFF_FFFF_FFFF_FFFF && m.mergedAt <= o.observedAt
    && (o.occurred ==>
          o.observedAt <= end && o.coverageStart == None && o.coverageEnd == None && o.coverageComplete == None)
    && (!o.occurred ==>
          && o.coverageComplete == Some(true)
          && o.coverageStart.Some? && IsTime(o.coverageStart.value) && o.coverageStart.value <= m.mergedAt
          && o.coverageEnd == Some(o.observedAt) && end <= o.observedAt)
  }

  /** Of one of the merges, under the registered definition, and recorded when it became available. */
  predicate SoundObservation(p: Protocol, merges: seq<Merge>, o: Observation, now: nat) {
    && o.genuine && o.repository == p.repository && IsTime(o.pullRequest)
    && o.definitionId == DefinitionOf(p, o.kind)
    && IsTime(o.observedAt) && IsTime(o.availableAt) && o.recordedAt <= now
    && o.observedAt <= o.availableAt && o.availableAt == o.recordedAt
    && exists m :: m in merges && m.pullRequest == o.pullRequest && m.head == o.head && SoundOutcome(p, o, m)
  }

  predicate DistinctCaptures(captures: seq<Capture>) {
    forall i, j :: 0 <= i < j < |captures| ==>
      captures[i].pullRequest != captures[j].pullRequest && captures[i].head != captures[j].head
  }

  predicate DistinctMerges(merges: seq<Merge>) {
    forall i, j :: 0 <= i < j < |merges| ==>
      merges[i].pullRequest != merges[j].pullRequest && merges[i].head != merges[j].head &&
      merges[i].commit != merges[j].commit
  }

  predicate DistinctObservations(observations: seq<Observation>) {
    forall i, j :: 0 <= i < j < |observations| ==>
      observations[i].pullRequest != observations[j].pullRequest || observations[i].kind != observations[j].kind
  }

  lemma ProtocolIs(p: Protocol, now: nat)
    ensures IsProtocol(p, now) <==> SoundProtocol(p, now)
  {
    assert SecondsOf(p, Revert) == p.revert.seconds && SecondsOf(p, Incident) == p.incident.seconds
      && SecondsOf(p, Flake) == p.flake.seconds;
    assert DefinitionOf(p, Revert) == p.revert.definitionId && DefinitionOf(p, Incident) == p.incident.definitionId
      && DefinitionOf(p, Flake) == p.flake.definitionId;
  }

  lemma CapturesAre(captures: seq<Capture>, now: nat)
    ensures AreCaptures(captures, now) <==>
      DistinctCaptures(captures) && forall c :: c in captures ==> SoundCapture(c, now)
  {
    forall c ensures IsCapture(c, now) <==> SoundCapture(c, now) {}
    hide IsCapture, SoundCapture;
  }

  lemma MergesAre(p: Protocol, merges: seq<Merge>, now: nat)
    ensures AreMerges(p, merges, now) <==>
      DistinctMerges(merges) && forall m :: m in merges ==> SoundMerge(p, m, now)
  {
    forall m ensures IsMerge(p, m, now) <==> SoundMerge(p, m, now) {}
    hide IsMerge, SoundMerge;
  }

  lemma MergeIs(merges: seq<Merge>, m: Merge)
    requires DistinctMerges(merges) && m in merges
    ensures m.pullRequest in MergesByPr(merges) && MergesByPr(merges)[m.pullRequest] == m
  {
    MergesHold(merges, m.pullRequest);
    hide MergesByPr;
    var i :| 0 <= i < |merges| && merges[i] == m;
    var j :| 0 <= j < |merges| && merges[j] == MergesByPr(merges)[m.pullRequest];
    assert i == j;
  }

  lemma OutcomeIs(p: Protocol, o: Observation, m: Merge)
    requires IsTime(o.observedAt)
    ensures SoundOutcome(p, o, m) <==>
      var maturity := m.mergedAt + WindowOf(p, o.kind).seconds;
      && maturity <= MAX_TIME && o.observedAt >= m.mergedAt
      && (if o.occurred
          then o.observedAt <= maturity && o.coverageStart.None? && o.coverageEnd.None? && o.coverageComplete.None?
          else Covers(o, m, maturity))
  {
  }

  lemma ObservationIs(p: Protocol, merges: seq<Merge>, o: Observation, now: nat)
    requires DistinctMerges(merges)
    ensures IsObservation(p, MergesByPr(merges), o, now) <==> SoundObservation(p, merges, o, now)
  {
    MergesHold(merges, o.pullRequest);
    forall m | m in merges ensures m.pullRequest in MergesByPr(merges) && MergesByPr(merges)[m.pullRequest] == m {
      MergeIs(merges, m);
    }
    if IsTime(o.observedAt) { forall m { OutcomeIs(p, o, m); } }
    assert DefinitionOf(p, o.kind) == WindowOf(p, o.kind).definitionId;
    hide MergesByPr, SoundOutcome, Covers, DistinctMerges;
    if o.pullRequest in MergesByPr(merges) { assert MergesByPr(merges)[o.pullRequest] in merges; }
  }

  lemma ObservationsAre(p: Protocol, merges: seq<Merge>, observations: seq<Observation>, now: nat)
    requires DistinctMerges(merges)
    ensures AreObservations(p, MergesByPr(merges), observations, now) <==>
      DistinctObservations(observations) && forall o :: o in observations ==> SoundObservation(p, merges, o, now)
  {
    hide IsObservation, SoundObservation, MergesByPr, DistinctMerges;
    forall o ensures IsObservation(p, MergesByPr(merges), o, now) <==> SoundObservation(p, merges, o, now) {
      ObservationIs(p, merges, o, now);
    }
  }

  /**
   * There is an export exactly when the protocol was registered in time, every capture, merge and
   * observation is sound and none is ambiguous, and every score was frozen before its merge.
   */
  lemma AcceptsExactly(p: Protocol, captures: seq<Capture>, merges: seq<Merge>, observations: seq<Observation>,
                       asOf: nat, now: nat)
    ensures ExportOf(p, captures, merges, observations, asOf, now).Some? <==>
      && SoundProtocol(p, now) && p.trainingCutoff < asOf && asOf <= now && IsTime(asOf)
      && DistinctCaptures(captures) && (forall c :: c in captures ==> SoundCapture(c, now))
      && DistinctMerges(merges) && (forall m :: m in merges ==> SoundMerge(p, m, now))
      && DistinctObservations(observations) && (forall o :: o in observations ==> SoundObservation(p, merges, o, now))
      && AllFrozen(captures, merges, asOf)
  {
    hide ExportOf, IsProtocol, SoundProtocol, AreCaptures, AreMerges, AreObservations, SoundCapture, SoundMerge,
      SoundObservation, DistinctCaptures, DistinctMerges, DistinctObservations, AllFrozen;
    ExportsExactly(p, captures, merges, observations, asOf, now);
    ProtocolIs(p, now);
    CapturesAre(captures, now);
    MergesAre(p, merges, now);
    if DistinctMerges(merges) { ObservationsAre(p, merges, observations, now); }
  }
}
