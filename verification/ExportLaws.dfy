/**
 * What `export_history` (eval/outcomes/collect.py:228-352) exports, excludes and rejects, in terms of
 * the captures, merges and observations themselves.
 */
module ExportLaws {
  import opened Text
  import opened Sorting
  import opened Outcomes
  import opened OutcomeLaws

  /** The merge had happened, and was on record, by `asOf`. */
  predicate IsAvailable(m: Merge, asOf: nat) { m.mergedAt <= asOf && m.recordedAt <= asOf }

  predicate IsScored(captures: seq<Capture>, m: Merge) { exists c :: c in captures && c.pullRequest == m.pullRequest }

  lemma CaptureIs(captures: seq<Capture>, now: nat, c: Capture)
    requires AreCaptures(captures, now) && c in captures
    ensures c.pullRequest in CapturesByPr(captures) && CapturesByPr(captures)[c.pullRequest] == c
  {
    CapturesHold(captures, c.pullRequest);
    var i :| 0 <= i < |captures| && captures[i] == c;
    hide CapturesByPr, IsCapture;
    var j :| 0 <= j < |captures| && captures[j] == CapturesByPr(captures)[c.pullRequest];
    assert i == j;
  }

  lemma ScoredIs(captures: seq<Capture>, now: nat, m: Merge)
    requires AreCaptures(captures, now)
    ensures m.pullRequest in CapturesByPr(captures) <==> IsScored(captures, m)
  {
    hide CapturesByPr, AreCaptures;
    CapturesHold(captures, m.pullRequest);
    if c :| c in captures && c.pullRequest == m.pullRequest { CaptureIs(captures, now, c); }
  }

  // ----- when there is an export -----

  /**
   * The frozen score of every available merge is of the revision that merged, and was recorded,
   * captured and received strictly before it did.
   */
  ghost predicate AllFrozen(captures: seq<Capture>, merges: seq<Merge>, asOf: nat) {
    forall m, c :: m in merges && c in captures && c.pullRequest == m.pullRequest && IsAvailable(m, asOf) ==>
      && c.head == m.head
      && c.scoreRecordedAt < m.mergedAt && c.capturedAt < m.mergedAt && c.receivedAt < m.mergedAt
  }

  lemma JoinsIs(captures: seq<Capture>, m: Merge, asOf: nat, now: nat)
    requires AreCaptures(captures, now)
    ensures Joins(CapturesByPr(captures), m, asOf) <==> AllFrozen(captures, [m], asOf)
  {
    hide CapturesByPr, AreCaptures;
    ScoredIs(captures, now, m);
    forall c | c in captures && c.pullRequest == m.pullRequest ensures CapturesByPr(captures)[m.pullRequest] == c {
      CaptureIs(captures, now, c);
    }
    CapturesHold(captures, m.pullRequest);
  }

  lemma AllJoinIs(captures: seq<Capture>, merges: seq<Merge>, asOf: nat, now: nat)
    requires AreCaptures(captures, now)
    ensures AllJoin(CapturesByPr(captures), merges, asOf) <==> AllFrozen(captures, merges, asOf)
  {
    hide CapturesByPr, AreCaptures, Joins;
    forall m ensures Joins(CapturesByPr(captures), m, asOf) <==> AllFrozen(captures, [m], asOf) {
      JoinsIs(captures, m, asOf, now);
    }
    if AllFrozen(captures, merges, asOf) {
      forall i | 0 <= i < |merges| ensures AllFrozen(captures, [merges[i]], asOf) {}
    }
    if forall i :: 0 <= i < |merges| ==> AllFrozen(captures, [merges[i]], asOf) {
      forall m | m in merges ensures AllFrozen(captures, [m], asOf) {}
      forall m, c | m in merges && c in captures && c.pullRequest == m.pullRequest && IsAvailable(m, asOf)
        ensures c.head == m.head && c.scoreRecordedAt < m.mergedAt
        ensures c.capturedAt < m.mergedAt && c.receivedAt < m.mergedAt
      {
        assert m in [m];
      }
    }
  }

  /** Admissible evidence is exported if and only if every available score was frozen for its merge. */
  lemma ExportsExactly(p: Protocol, captures: seq<Capture>, merges: seq<Merge>, observations: seq<Observation>,
                       asOf: nat, now: nat)
    ensures ExportOf(p, captures, merges, observations, asOf, now).Some? <==>
      && IsProtocol(p, now) && p.trainingCutoff < asOf <= now && asOf <= MAX_TIME
      && AreCaptures(captures, now) && AreMerges(p, merges, now)
      && AreObservations(p, MergesByPr(merges), observations, now) && AllFrozen(captures, merges, asOf)
  {
    hide CapturesByPr, AreCaptures, AreMerges, AreObservations, AllJoin, AllFrozen, JoinAll, MergesByPr;
    if AreCaptures(captures, now) { AllJoinIs(captures, merges, asOf, now); }
  }

  // ----- what is exported -----

  function SecondsOf(p: Protocol, kind: Kind): nat {
    match kind case Revert => p.revert.seconds case Incident => p.incident.seconds case Flake => p.flake.seconds
  }

  predicate IsAbout(o: Observation, m: Merge, kind: Kind) { o.pullRequest == m.pullRequest && o.kind == kind }

  /** Labels of merges before the cutoff are judged at the cutoff, the others at `asOf`. */
  function JudgedAt(p: Protocol, m: Merge, asOf: nat): nat {
    if m.mergedAt < p.trainingCutoff then p.trainingCutoff else asOf
  }

  /** The observation was available, and its window over, when the merge is judged. */
  predicate IsInTime(p: Protocol, m: Merge, o: Observation, asOf: nat) {
    o.availableAt <= JudgedAt(p, m, asOf) && m.mergedAt + SecondsOf(p, o.kind) <= JudgedAt(p, m, asOf)
  }

  /** The label is the observation of the merge that is in time; there is no label without one. */
  predicate IsLabel(p: Protocol, m: Merge, kind: Kind, observations: seq<Observation>, asOf: nat,
                    shown: Option<Label>)
  {
    match shown
    case None => forall o :: o in observations && IsAbout(o, m, kind) ==> !IsInTime(p, m, o, asOf)
    case Some(l) =>
      exists o :: o in observations && IsAbout(o, m, kind) && IsInTime(p, m, o, asOf)
        && l.occurred == o.occurred && l.observedAt == o.observedAt && l.evidence == o.evidence
  }

  predicate DistinctKeys(observations: seq<Observation>) {
    forall i, j :: 0 <= i < j < |observations| ==> KeyOf(observations[i]) != KeyOf(observations[j])
  }

  lemma ObservationOf(observations: seq<Observation>, o: Observation)
    requires DistinctKeys(observations) && o in observations
    ensures KeyOf(o) in ObservationsByKey(observations) && ObservationsByKey(observations)[KeyOf(o)] == o
  {
    ObservationsHold(observations, KeyOf(o));
    hide ObservationsByKey;
    var i :| 0 <= i < |observations| && observations[i] == o;
    var j :| 0 <= j < |observations| && observations[j] == ObservationsByKey(observations)[KeyOf(o)];
    assert i == j;
  }

  lemma ExportedIs(p: Protocol, m: Merge, kind: Kind, byKey: map<Key, Observation>, asOf: nat)
    requires (m.pullRequest, kind) in byKey && byKey[(m.pullRequest, kind)].kind == kind
    ensures var o := byKey[(m.pullRequest, kind)];
      LabelOf(p, m, kind, byKey, asOf) ==
        if IsInTime(p, m, o, asOf) then Some(Label(o.occurred, o.observedAt, o.evidence)) else None
  {
  }

  lemma LabelIs(p: Protocol, m: Merge, kind: Kind, observations: seq<Observation>, asOf: nat, shown: Option<Label>)
    requires DistinctKeys(observations)
    ensures IsLabel(p, m, kind, observations, asOf, shown) <==>
      shown == LabelOf(p, m, kind, ObservationsByKey(observations), asOf)
  {
    var key, byKey := (m.pullRequest, kind), ObservationsByKey(observations);
    ObservationsHold(observations, key);
    forall o | o in observations && IsAbout(o, m, kind) ensures key in byKey && byKey[key] == o {
      ObservationOf(observations, o);
    }
    if key in byKey {
      ExportedIs(p, m, kind, byKey, asOf);
      hide ObservationsByKey, LabelOf, IsInTime, DistinctKeys;
      assert IsAbout(byKey[key], m, kind);
    } else {
      hide ObservationsByKey, IsInTime, DistinctKeys;
    }
  }

  /** A record's fields: the merge's revision and time, the capture's score, and the labels judged in time. */
  predicate IsRecord(p: Protocol, r: Record, m: Merge, c: Capture, observations: seq<Observation>, asOf: nat) {
    && r.head == m.head && r.mergedAt == m.mergedAt
    && r.score == c.score && r.scoreRecordedAt == c.scoreRecordedAt
    && IsLabel(p, m, Revert, observations, asOf, r.revert)
    && IsLabel(p, m, Incident, observations, asOf, r.incident)
    && IsLabel(p, m, Flake, observations, asOf, r.flake)
  }

  lemma RecordIs(p: Protocol, r: Record, m: Merge, c: Capture, observations: seq<Observation>, asOf: nat)
    requires DistinctKeys(observations)
    ensures IsRecord(p, r, m, c, observations, asOf) <==>
      r == RecordOf(p, m, c, ObservationsByKey(observations), asOf)
  {
    LabelIs(p, m, Revert, observations, asOf, r.revert);
    LabelIs(p, m, Incident, observations, asOf, r.incident);
    LabelIs(p, m, Flake, observations, asOf, r.flake);
    hide IsLabel, LabelOf, ObservationsByKey, DistinctKeys;
  }

  lemma AreDistinct(p: Protocol, captures: seq<Capture>, merges: seq<Merge>, observations: seq<Observation>, asOf: nat,
                    now: nat)
    requires Admitted(p, captures, merges, observations, asOf, now)
    ensures DistinctKeys(observations)
  {
    hide IsProtocol, AreCaptures, AreMerges, IsObservation, AllJoin;
  }

  lemma ExcludedIs(captures: seq<Capture>, m: Merge, asOf: nat, now: nat)
    requires AreCaptures(captures, now)
    ensures IsExcluded(CapturesByPr(captures), m, asOf) <==> !IsScored(captures, m) || !IsAvailable(m, asOf)
    ensures ExclusionOf(CapturesByPr(captures), m)
         == Excluded(m.pullRequest, m.head, if IsScored(captures, m) then Unavailable else MissingScore)
  {
    hide CapturesByPr, AreCaptures, IsScored;
    ScoredIs(captures, now, m);
  }

  /** The records are those of the available merges that have a capture, with that capture's score. */
  lemma RecordsExactly(p: Protocol, captures: seq<Capture>, merges: seq<Merge>, observations: seq<Observation>,
                       asOf: nat, now: nat, r: Record)
    requires Admitted(p, captures, merges, observations, asOf, now)
    ensures r in ExportOf(p, captures, merges, observations, asOf, now).value.records <==>
      exists m, c :: IsSource(p, captures, merges, observations, asOf, r, m, c)
  {
    assert ExportOf(p, captures, merges, observations, asOf, now).Some?;
    hide ExportOf, JoinAll, CapturesByPr, ObservationsByKey, RecordOf, IsExcluded, IsRecord, IsScored, AreCaptures;
    if r in ExportOf(p, captures, merges, observations, asOf, now).value.records {
      var m, c := SourceOf(p, captures, merges, observations, asOf, now, r);
    }
    if m, c :| IsSource(p, captures, merges, observations, asOf, r, m, c) {
      SourceIsExported(p, captures, merges, observations, asOf, now, r, m, c);
    }
  }

  ghost predicate IsSource(p: Protocol, captures: seq<Capture>, merges: seq<Merge>, observations: seq<Observation>,
                           asOf: nat, r: Record, m: Merge, c: Capture)
  {
    && m in merges && c in captures && c.pullRequest == m.pullRequest && IsAvailable(m, asOf)
    && IsRecord(p, r, m, c, observations, asOf)
  }

  lemma SourceOf(p: Protocol, captures: seq<Capture>, merges: seq<Merge>, observations: seq<Observation>,
                 asOf: nat, now: nat, r: Record) returns (m: Merge, c: Capture)
    requires Admitted(p, captures, merges, observations, asOf, now)
    requires r in ExportOf(p, captures, merges, observations, asOf, now).value.records
    ensures IsSource(p, captures, merges, observations, asOf, r, m, c)
  {
    hide ExportOf, JoinAll, CapturesByPr, ObservationsByKey, RecordOf, IsExcluded, IsRecord, AreCaptures, Joins;
    m := RecordMerge(p, captures, merges, observations, asOf, now, r);
    ExcludedIs(captures, m, asOf, now);
    c :| c in captures && c.pullRequest == m.pullRequest;
    CaptureIs(captures, now, c);
    AreDistinct(p, captures, merges, observations, asOf, now);
    RecordIs(p, r, m, c, observations, asOf);
  }

  lemma SourceIsExported(p: Protocol, captures: seq<Capture>, merges: seq<Merge>, observations: seq<Observation>,
                         asOf: nat, now: nat, r: Record, m: Merge, c: Capture)
    requires Admitted(p, captures, merges, observations, asOf, now)
    requires IsSource(p, captures, merges, observations, asOf, r, m, c)
    ensures r in ExportOf(p, captures, merges, observations, asOf, now).value.records
  {
    hide ExportOf, JoinAll, CapturesByPr, ObservationsByKey, RecordOf, IsExcluded, IsRecord, AreCaptures;
    CaptureIs(captures, now, c);
    ExcludedIs(captures, m, asOf, now);
    SameElements(ByPr(merges), merges, m);
    JoinHasRecord(p, CapturesByPr(captures), ByPr(merges), ObservationsByKey(observations), asOf, m);
    AreDistinct(p, captures, merges, observations, asOf, now);
    RecordIs(p, r, m, c, observations, asOf);
    ExportedAreJoined(p, captures, merges, observations, asOf, now, r);
  }

  /** Every exported score is a capture's, of the very revision that merged, frozen strictly before the merge. */
  lemma ScoreIsFrozen(p: Protocol, captures: seq<Capture>, merges: seq<Merge>, observations: seq<Observation>,
                      asOf: nat, now: nat, r: Record) returns (c: Capture)
    requires Admitted(p, captures, merges, observations, asOf, now)
    requires r in ExportOf(p, captures, merges, observations, asOf, now).value.records
    ensures c in captures && c.head == r.head && c.score == r.score && c.scoreRecordedAt == r.scoreRecordedAt
    ensures c.scoreRecordedAt < r.mergedAt && c.capturedAt < r.mergedAt && c.receivedAt < r.mergedAt
  {
    assert ExportOf(p, captures, merges, observations, asOf, now).Some?;
    hide ExportOf, JoinAll, CapturesByPr, ObservationsByKey, AreCaptures, AreMerges, AreObservations, Admitted;
    ExportsExactly(p, captures, merges, observations, asOf, now);
    var m;
    m, c := SourceOf(p, captures, merges, observations, asOf, now, r);
  }

  /** One available merge whose score is of another revision, or not from before it, spoils the export. */
  lemma LateScoreFails(p: Protocol, captures: seq<Capture>, merges: seq<Merge>, observations: seq<Observation>,
                       asOf: nat, now: nat, m: Merge, c: Capture)
    requires m in merges && c in captures && c.pullRequest == m.pullRequest
    requires m.mergedAt <= asOf && m.recordedAt <= asOf
    requires c.head != m.head || c.scoreRecordedAt >= m.mergedAt || c.capturedAt >= m.mergedAt
      || c.receivedAt >= m.mergedAt
    ensures ExportOf(p, captures, merges, observations, asOf, now) == None
  {
    ExportsExactly(p, captures, merges, observations, asOf, now);
    hide ExportOf, AreCaptures, AreMerges, AreObservations;
  }

  // ----- what is left out -----

  /** The other merges are listed once each, for want of a capture or because they were not yet available. */
  lemma ExclusionsExactly(p: Protocol, captures: seq<Capture>, merges: seq<Merge>, observations: seq<Observation>,
                          asOf: nat, now: nat, x: Excluded)
    requires Admitted(p, captures, merges, observations, asOf, now)
    ensures x in ExportOf(p, captures, merges, observations, asOf, now).value.excluded <==>
      exists m :: m in merges && IsExclusion(captures, m, asOf, x)
  {
    hide JoinAll, CapturesByPr, ObservationsByKey, IsExcluded, ExclusionOf, AreCaptures, AreMerges, IsExclusion;
    var byPr, obs, sorted := CapturesByPr(captures), ObservationsByKey(observations), ByPr(merges);
    if x in JoinAll(p, byPr, sorted, obs, asOf).excluded {
      var m := ExclusionFrom(p, byPr, sorted, obs, asOf, x);
      SameElements(sorted, merges, m);
      ExclusionIs(captures, m, asOf, now, x);
    }
    if m :| m in merges && IsExclusion(captures, m, asOf, x) {
      ExclusionIs(captures, m, asOf, now, x);
      SameElements(sorted, merges, m);
      JoinHasRecord(p, byPr, sorted, obs, asOf, m);
    }
  }

  predicate IsExclusion(captures: seq<Capture>, m: Merge, asOf: nat, x: Excluded) {
    && x.pullRequest == m.pullRequest && x.head == m.head
    && (if x.reason.MissingScore? then !IsScored(captures, m) else IsScored(captures, m) && !IsAvailable(m, asOf))
  }

  lemma ExclusionIs(captures: seq<Capture>, m: Merge, asOf: nat, now: nat, x: Excluded)
    requires AreCaptures(captures, now)
    ensures IsExclusion(captures, m, asOf, x) <==>
      IsExcluded(CapturesByPr(captures), m, asOf) && x == ExclusionOf(CapturesByPr(captures), m)
  {
    ExcludedIs(captures, m, asOf, now);
    hide CapturesByPr, AreCaptures, IsScored, IsExcluded, ExclusionOf;
  }

  lemma {:induction false} ExclusionFrom(p: Protocol, captures: map<nat, Capture>, ms: seq<Merge>,
                                         obs: map<Key, Observation>, asOf: nat, x: Excluded) returns (m: Merge)
    requires x in JoinAll(p, captures, ms, obs, asOf).excluded
    ensures m in ms && IsExcluded(captures, m, asOf) && x == ExclusionOf(captures, m)
  {
    hide IsExcluded, ExclusionOf, RecordOf, AuditOf;
    var front, last := ms[..|ms| - 1], ms[|ms| - 1];
    assert ms == front + [last];
    if x in JoinAll(p, captures, front, obs, asOf).excluded {
      m := ExclusionFrom(p, captures, front, obs, asOf, x);
    } else {
      m := last;
    }
  }

  /** The captures whose pull request has no merge are reported as such. */
  lemma UnmergedExactly(p: Protocol, captures: seq<Capture>, merges: seq<Merge>, observations: seq<Observation>,
                        asOf: nat, now: nat, pr: nat, head: string)
    requires Admitted(p, captures, merges, observations, asOf, now)
    ensures (pr, head) in ExportOf(p, captures, merges, observations, asOf, now).value.unmerged <==>
      && (exists c :: c in captures && c.pullRequest == pr && c.head == head)
      && !exists m :: m in merges && m.pullRequest == pr
  {
    hide JoinAll, MergesByPr, Admitted, IsProtocol;
    UnmergedAre(CapturesInOrder(captures), MergesByPr(merges), pr, head);
    forall c ensures c in CapturesInOrder(captures) <==> c in captures {
      SameElements(CapturesInOrder(captures), captures, c);
    }
    MergesHold(merges, pr);
  }

  lemma {:induction false} UnmergedAre(captures: seq<Capture>, merges: map<nat, Merge>, pr: nat, head: string)
    ensures (pr, head) in Unmerged(captures, merges) <==>
      pr !in merges && exists c :: c in captures && c.pullRequest == pr && c.head == head
  {
    if |captures| > 0 {
      var front, last := captures[..|captures| - 1], captures[|captures| - 1];
      assert captures == front + [last];
      UnmergedAre(front, merges, pr, head);
      if c :| c in captures && c.pullRequest == pr && c.head == head { assert c in front || c == last; }
      if c :| c in front && c.pullRequest == pr && c.head == head { assert c in captures; }
      assert last in captures;
    }
  }

  // ----- the audit of one label -----

  /** Exported when available and mature by the boundary; else withheld for the first of these that failed. */
  predicate Audits(p: Protocol, m: Merge, o: Observation, asOf: nat, status: Status) {
    var boundary := JudgedAt(p, m, asOf);
    var isMature := m.mergedAt + SecondsOf(p, o.kind) <= boundary;
    match status
    case MissingTelemetry => false
    case Exported => o.availableAt <= boundary && isMature
    case Immature => o.availableAt <= boundary && !isMature
    case AfterCutoff => o.availableAt > boundary && boundary != asOf
    case AfterAsOf => o.availableAt > boundary && boundary == asOf
  }

  /** The status is that of the observation; it is missing just when there is none. */
  ghost predicate IsStatus(p: Protocol, m: Merge, kind: Kind, observations: seq<Observation>, asOf: nat,
                           status: Status)
  {
    if status == MissingTelemetry then forall o :: o in observations ==> !IsAbout(o, m, kind)
    else exists o :: o in observations && IsAbout(o, m, kind) && Audits(p, m, o, asOf, status)
  }

  lemma AuditsIs(p: Protocol, m: Merge, kind: Kind, byKey: map<Key, Observation>, asOf: nat, status: Status)
    requires (m.pullRequest, kind) in byKey && byKey[(m.pullRequest, kind)].kind == kind
    ensures Audits(p, m, byKey[(m.pullRequest, kind)], asOf, status) <==> status == StatusOf(p, m, kind, byKey, asOf)
  {
  }

  lemma StatusIs(p: Protocol, m: Merge, kind: Kind, observations: seq<Observation>, asOf: nat, status: Status)
    requires DistinctKeys(observations)
    ensures IsStatus(p, m, kind, observations, asOf, status) <==>
      status == StatusOf(p, m, kind, ObservationsByKey(observations), asOf)
  {
    var key, byKey := (m.pullRequest, kind), ObservationsByKey(observations);
    ObservationsHold(observations, key);
    forall o | o in observations && IsAbout(o, m, kind) ensures key in byKey && byKey[key] == o {
      ObservationOf(observations, o);
    }
    if key in byKey {
      AuditsIs(p, m, kind, byKey, asOf, status);
      assert StatusOf(p, m, kind, byKey, asOf) != MissingTelemetry;
      hide ObservationsByKey, StatusOf, Audits, DistinctKeys;
      assert IsAbout(byKey[key], m, kind);
    } else {
      hide ObservationsByKey, Audits, DistinctKeys;
    }
  }

  ghost predicate IsAudit(p: Protocol, a: AuditRecord, m: Merge, observations: seq<Observation>, asOf: nat) {
    && a.pullRequest == m.pullRequest && a.head == m.head && a.commit == m.commit
    && IsStatus(p, m, Revert, observations, asOf, a.revert)
    && IsStatus(p, m, Incident, observations, asOf, a.incident)
    && IsStatus(p, m, Flake, observations, asOf, a.flake)
  }

  lemma AuditIs(p: Protocol, a: AuditRecord, m: Merge, observations: seq<Observation>, asOf: nat)
    requires DistinctKeys(observations)
    ensures IsAudit(p, a, m, observations, asOf) <==> a == AuditOf(p, m, ObservationsByKey(observations), asOf)
  {
    StatusIs(p, m, Revert, observations, asOf, a.revert);
    StatusIs(p, m, Incident, observations, asOf, a.incident);
    StatusIs(p, m, Flake, observations, asOf, a.flake);
    hide IsStatus, StatusOf, ObservationsByKey, DistinctKeys;
  }

  lemma {:induction false} AuditFrom(p: Protocol, captures: map<nat, Capture>, ms: seq<Merge>,
                                     obs: map<Key, Observation>, asOf: nat, a: AuditRecord) returns (m: Merge)
    requires a in JoinAll(p, captures, ms, obs, asOf).audit
    ensures m in ms && !IsExcluded(captures, m, asOf) && a == AuditOf(p, m, obs, asOf)
  {
    hide IsExcluded, ExclusionOf, RecordOf, AuditOf;
    var front, last := ms[..|ms| - 1], ms[|ms| - 1];
    assert ms == front + [last];
    if a in JoinAll(p, captures, front, obs, asOf).audit {
      m := AuditFrom(p, captures, front, obs, asOf, a);
    } else {
      m := last;
    }
  }

  ghost predicate IsAudited(p: Protocol, captures: seq<Capture>, observations: seq<Observation>, asOf: nat, m: Merge,
                      a: AuditRecord)
  {
    IsScored(captures, m) && IsAvailable(m, asOf) && IsAudit(p, a, m, observations, asOf)
  }

  /** The audit has an entry for exactly the available merges with a capture, with the status of each label. */
  lemma AuditExactly(p: Protocol, captures: seq<Capture>, merges: seq<Merge>, observations: seq<Observation>,
                     asOf: nat, now: nat, a: AuditRecord)
    requires Admitted(p, captures, merges, observations, asOf, now)
    ensures a in ExportOf(p, captures, merges, observations, asOf, now).value.audit <==>
      exists m :: m in merges && IsAudited(p, captures, observations, asOf, m, a)
  {
    hide JoinAll, CapturesByPr, ObservationsByKey, IsExcluded, AuditOf, IsAudit, IsScored, AreCaptures, AreMerges,
      IsProtocol, AreObservations, AllJoin, DistinctKeys;
    var byPr, obs, sorted := CapturesByPr(captures), ObservationsByKey(observations), ByPr(merges);
    AreDistinct(p, captures, merges, observations, asOf, now);
    if a in JoinAll(p, byPr, sorted, obs, asOf).audit {
      var m := AuditFrom(p, byPr, sorted, obs, asOf, a);
      SameElements(sorted, merges, m);
      ExcludedIs(captures, m, asOf, now);
      AuditIs(p, a, m, observations, asOf);
      assert IsAudited(p, captures, observations, asOf, m, a);
    }
    if m :| m in merges && IsAudited(p, captures, observations, asOf, m, a) {
      ExcludedIs(captures, m, asOf, now);
      AuditIs(p, a, m, observations, asOf);
      SameElements(sorted, merges, m);
      JoinHasRecord(p, byPr, sorted, obs, asOf, m);
    }
  }

  // ----- the order of the lists -----

  /** By pull request, none after a larger one; nothing in the lists is beyond `last`. */
  predicate InPrOrder(j: Joined, last: nat) {
    && (forall i, k :: 0 <= i < k < |j.audit| ==> j.audit[i].pullRequest <= j.audit[k].pullRequest)
    && (forall i, k :: 0 <= i < k < |j.excluded| ==> j.excluded[i].pullRequest <= j.excluded[k].pullRequest)
    && (forall a :: a in j.audit ==> a.pullRequest <= last) && (forall x :: x in j.excluded ==> x.pullRequest <= last)
  }

  lemma MoreInOrder(j: Joined, records: seq<Record>, a: AuditRecord, x: Excluded, n: nat, last: nat)
    requires InPrOrder(j, n) && n <= last
    ensures a.pullRequest == n ==> InPrOrder(Joined(records, j.audit + [a], j.excluded), last)
    ensures x.pullRequest == n ==> InPrOrder(j.(excluded := j.excluded + [x]), last)
  {
    forall i | 0 <= i < |j.audit| ensures j.audit[i].pullRequest <= n { assert j.audit[i] in j.audit; }
    forall i | 0 <= i < |j.excluded| ensures j.excluded[i].pullRequest <= n { assert j.excluded[i] in j.excluded; }
  }

  lemma {:induction false} JoinInOrder(p: Protocol, captures: map<nat, Capture>, ms: seq<Merge>,
                                       obs: map<Key, Observation>, asOf: nat, last: nat)
    requires forall i, j :: 0 <= i < j < |ms| ==> ms[i].pullRequest <= ms[j].pullRequest
    requires |ms| > 0 ==> ms[|ms| - 1].pullRequest <= last
    ensures InPrOrder(JoinAll(p, captures, ms, obs, asOf), last)
  {
    hide IsExcluded, StatusOf, RecordOf, InPrOrder;
    if |ms| > 0 {
      var front, m := ms[..|ms| - 1], ms[|ms| - 1];
      JoinInOrder(p, captures, front, obs, asOf, m.pullRequest);
      var before := JoinAll(p, captures, front, obs, asOf);
      MoreInOrder(before, JoinAll(p, captures, ms, obs, asOf).records, AuditOf(p, m, obs, asOf),
                  ExclusionOf(captures, m), m.pullRequest, last);
    } else {
      NoneInOrder(last);
    }
  }

  lemma NoneInOrder(last: nat)
    ensures InPrOrder(Joined([], [], []), last)
  {
  }

  predicate AreInOrder(u: seq<(nat, string)>) { forall i, j :: 0 <= i < j < |u| ==> u[i].0 <= u[j].0 }

  lemma {:induction false} UnmergedInOrder(captures: seq<Capture>, merges: map<nat, Merge>, last: nat)
    requires forall i, j :: 0 <= i < j < |captures| ==> captures[i].pullRequest <= captures[j].pullRequest
    requires |captures| > 0 ==> captures[|captures| - 1].pullRequest <= last
    ensures AreInOrder(Unmerged(captures, merges)) && forall x :: x in Unmerged(captures, merges) ==> x.0 <= last
  {
    if |captures| > 0 {
      var front, c := captures[..|captures| - 1], captures[|captures| - 1];
      UnmergedInOrder(front, merges, c.pullRequest);
    }
  }

  lemma MergesSorted(merges: seq<Merge>)
    ensures forall i, j :: 0 <= i < j < |ByPr(merges)| ==> ByPr(merges)[i].pullRequest <= ByPr(merges)[j].pullRequest
  {
    SortInOrder(MergeAtMost, merges);
  }

  lemma CapturesSorted(captures: seq<Capture>)
    ensures var cs := CapturesInOrder(captures);
      forall i, j :: 0 <= i < j < |cs| ==> cs[i].pullRequest <= cs[j].pullRequest
  {
    SortInOrder(CaptureAtMost, captures);
  }

  /** The audit, the excluded merges and the unmerged captures are listed by pull request. */
  lemma ListsInOrder(p: Protocol, captures: seq<Capture>, merges: seq<Merge>, observations: seq<Observation>,
                     asOf: nat, now: nat, e: Export)
    requires ExportOf(p, captures, merges, observations, asOf, now) == Some(e)
    ensures forall i, j :: 0 <= i < j < |e.audit| ==> e.audit[i].pullRequest <= e.audit[j].pullRequest
    ensures forall i, j :: 0 <= i < j < |e.excluded| ==> e.excluded[i].pullRequest <= e.excluded[j].pullRequest
    ensures AreInOrder(e.unmerged)
  {
    hide JoinAll, Unmerged, ByPr, CapturesInOrder, CapturesByPr, MergesByPr, ObservationsByKey, Chronological, Admitted;
    var ms, cs := ByPr(merges), CapturesInOrder(captures);
    MergesSorted(merges);
    CapturesSorted(captures);
    JoinInOrder(p, CapturesByPr(captures), ms, ObservationsByKey(observations), asOf,
                if |ms| == 0 then 0 else ms[|ms| - 1].pullRequest);
    UnmergedInOrder(cs, MergesByPr(merges), if |cs| == 0 then 0 else cs[|cs| - 1].pullRequest);
  }
}
