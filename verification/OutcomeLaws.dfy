/**
 * What the chronological join guarantees (eval/outcomes/collect.py:228-352): every merge lands in
 * one place, nothing is read before its time, and exported labels never change.
 */
module OutcomeLaws {
  import opened Text
  import opened Outcomes
  import opened Sorting

  // ----- the records, one merge at a time -----

  lemma {:induction false} JoinHasRecord(p: Protocol, captures: map<nat, Capture>, ms: seq<Merge>,
                                         obs: map<Key, Observation>, asOf: nat, m: Merge)
    requires m in ms
    ensures var j := JoinAll(p, captures, ms, obs, asOf);
      if IsExcluded(captures, m, asOf) then ExclusionOf(captures, m) in j.excluded
      else RecordOf(p, m, captures[m.pullRequest], obs, asOf) in j.records && AuditOf(p, m, obs, asOf) in j.audit
  {
    var front, last := ms[..|ms| - 1], ms[|ms| - 1];
    assert ms == front + [last];
    hide RecordOf, AuditOf, IsExcluded, ExclusionOf;
    if m in front { JoinHasRecord(p, captures, front, obs, asOf, m); }
  }

  lemma {:induction false} RecordHasMerge(p: Protocol, captures: map<nat, Capture>, ms: seq<Merge>,
                                          obs: map<Key, Observation>, asOf: nat, r: Record) returns (m: Merge)
    requires r in JoinAll(p, captures, ms, obs, asOf).records
    ensures m in ms && !IsExcluded(captures, m, asOf) && r == RecordOf(p, m, captures[m.pullRequest], obs, asOf)
  {
    var front, last := ms[..|ms| - 1], ms[|ms| - 1];
    assert ms == front + [last];
    if r in JoinAll(p, captures, front, obs, asOf).records {
      m := RecordHasMerge(p, captures, front, obs, asOf, r);
    } else {
      m := last;
    }
  }

  lemma {:induction false} ExclusionHasMerge(p: Protocol, captures: map<nat, Capture>, ms: seq<Merge>,
                                             obs: map<Key, Observation>, asOf: nat, x: Excluded) returns (m: Merge)
    requires x in JoinAll(p, captures, ms, obs, asOf).excluded
    ensures m in ms && IsExcluded(captures, m, asOf) && x == ExclusionOf(captures, m)
  {
    var front, last := ms[..|ms| - 1], ms[|ms| - 1];
    assert ms == front + [last];
    if x in JoinAll(p, captures, front, obs, asOf).excluded {
      m := ExclusionHasMerge(p, captures, front, obs, asOf, x);
    } else {
      m := last;
    }
  }

  lemma {:induction false} JoinCounts(p: Protocol, captures: map<nat, Capture>, ms: seq<Merge>,
                                      obs: map<Key, Observation>, asOf: nat)
    ensures var j := JoinAll(p, captures, ms, obs, asOf);
      |j.records| == |j.audit| && |j.records| + |j.excluded| == |ms|
  {
    if |ms| > 0 { JoinCounts(p, captures, ms[..|ms| - 1], obs, asOf); }
  }

  /** Two merges of an admitted list with the same head, or the same pull request, are the same merge. */
  lemma SameMerge(p: Protocol, merges: seq<Merge>, now: nat, a: Merge, b: Merge)
    requires AreMerges(p, merges, now) && a in merges && b in merges
    requires a.head == b.head || a.pullRequest == b.pullRequest
    ensures a == b
  {
    var i :| 0 <= i < |merges| && merges[i] == a;
    var j :| 0 <= j < |merges| && merges[j] == b;
    assert i == j;
  }

  /** Every merge lands in exactly one of the records and the excluded merges. */
  lemma EveryMergeLandsOnce(p: Protocol, captures: seq<Capture>, merges: seq<Merge>, observations: seq<Observation>,
                            asOf: nat, now: nat, m: Merge)
    requires Admitted(p, captures, merges, observations, asOf, now) && m in merges
    ensures var e := ExportOf(p, captures, merges, observations, asOf, now).value;
      && |e.records| + |e.excluded| == |merges|
      && ((exists r :: r in e.records && r.head == m.head) <==> !IsExcluded(CapturesByPr(captures), m, asOf))
      && ((exists x :: x in e.excluded && x.pullRequest == m.pullRequest) <==>
          IsExcluded(CapturesByPr(captures), m, asOf))
  {
    var byPr, obs, sorted := CapturesByPr(captures), ObservationsByKey(observations), ByPr(merges);
    var j := JoinAll(p, byPr, sorted, obs, asOf);
    var e := ExportOf(p, captures, merges, observations, asOf, now).value;
    JoinCounts(p, byPr, sorted, obs, asOf);
    SameElements(sorted, merges, m);
    JoinHasRecord(p, byPr, sorted, obs, asOf, m);
    hide Admitted, ByPr, JoinAll, IsExcluded;
    forall r ensures r in e.records <==> r in j.records { SameElements(e.records, j.records, r); }
    if IsExcluded(byPr, m, asOf) {
      assert ExclusionOf(byPr, m) in e.excluded;
      if r :| r in e.records && r.head == m.head {
        var m' := RecordHasMerge(p, byPr, sorted, obs, asOf, r);
        OneMerge(p, captures, merges, observations, asOf, now, sorted, m, m');
      }
    } else {
      assert RecordOf(p, m, byPr[m.pullRequest], obs, asOf) in e.records;
      if x :| x in e.excluded && x.pullRequest == m.pullRequest {
        var m' := ExclusionHasMerge(p, byPr, sorted, obs, asOf, x);
        OneMerge(p, captures, merges, observations, asOf, now, sorted, m, m');
      }
    }
  }

  lemma OneMerge(p: Protocol, captures: seq<Capture>, merges: seq<Merge>, observations: seq<Observation>, asOf: nat,
                 now: nat, sorted: seq<Merge>, a: Merge, b: Merge)
    requires Admitted(p, captures, merges, observations, asOf, now) && multiset(sorted) == multiset(merges)
    requires a in merges && b in sorted && (a.head == b.head || a.pullRequest == b.pullRequest)
    ensures a == b
  {
    SameElements(sorted, merges, b);
    SameMerge(p, merges, now, a, b);
  }

  // ----- no look-ahead -----

  /** The exported records are those joined, in another order. */
  lemma ExportedAreJoined(p: Protocol, captures: seq<Capture>, merges: seq<Merge>, observations: seq<Observation>,
                          asOf: nat, now: nat, r: Record)
    requires Admitted(p, captures, merges, observations, asOf, now)
    ensures r in ExportOf(p, captures, merges, observations, asOf, now).value.records <==>
      r in JoinAll(p, CapturesByPr(captures), ByPr(merges), ObservationsByKey(observations), asOf).records
  {
    hide Admitted, JoinAll, CapturesByPr, ByPr, ObservationsByKey;
    var records := JoinAll(p, CapturesByPr(captures), ByPr(merges), ObservationsByKey(observations), asOf).records;
    SameElements(ExportOf(p, captures, merges, observations, asOf, now).value.records, records, r);
  }

  /** A record stands for a merge that joins. */
  lemma RecordMerge(p: Protocol, captures: seq<Capture>, merges: seq<Merge>, observations: seq<Observation>,
                    asOf: nat, now: nat, r: Record) returns (m: Merge)
    requires Admitted(p, captures, merges, observations, asOf, now)
    requires r in ExportOf(p, captures, merges, observations, asOf, now).value.records
    ensures m in merges && Joins(CapturesByPr(captures), m, asOf) && !IsExcluded(CapturesByPr(captures), m, asOf)
    ensures r == RecordOf(p, m, CapturesByPr(captures)[m.pullRequest], ObservationsByKey(observations), asOf)
  {
    hide ExportOf, JoinAll, CapturesByPr, ObservationsByKey, RecordOf, IsExcluded, Joins;
    ExportedAreJoined(p, captures, merges, observations, asOf, now, r);
    m := RecordHasMerge(p, CapturesByPr(captures), ByPr(merges), ObservationsByKey(observations), asOf, r);
    SameElements(ByPr(merges), merges, m);
    AdmittedJoins(p, captures, merges, observations, asOf, now, m);
  }

  lemma AdmittedJoins(p: Protocol, captures: seq<Capture>, merges: seq<Merge>, observations: seq<Observation>,
                      asOf: nat, now: nat, m: Merge)
    requires Admitted(p, captures, merges, observations, asOf, now) && m in merges
    ensures Joins(CapturesByPr(captures), m, asOf)
  {
    hide Joins, CapturesByPr, AreCaptures, AreMerges, AreObservations, IsProtocol;
    var i :| 0 <= i < |merges| && merges[i] == m;
    assert Joins(CapturesByPr(captures), merges[i], asOf);
  }

  /**
   * Every exported label comes from an observation of that merge that was available, and whose window
   * had closed, by the boundary: the training cutoff for earlier merges, `asOf` for the others.
   */
  lemma NoLookAhead(p: Protocol, captures: seq<Capture>, merges: seq<Merge>, observations: seq<Observation>,
                    asOf: nat, now: nat, r: Record, kind: Kind)
    requires Admitted(p, captures, merges, observations, asOf, now)
    requires r in ExportOf(p, captures, merges, observations, asOf, now).value.records
    ensures r.scoreRecordedAt < r.mergedAt <= asOf
    ensures LabelIn(r, kind).Some? ==>
      exists o :: o in observations && Supports(p, r, kind, o, asOf) &&
        LabelIn(r, kind) == Some(Label(o.occurred, o.observedAt, o.evidence))
  {
    hide ExportOf, JoinAll, CapturesByPr, ByPr, Admitted;
    var m := RecordMerge(p, captures, merges, observations, asOf, now, r);
    if LabelIn(r, kind).Some? {
      var key := (m.pullRequest, kind);
      ObservationsHold(observations, key);
      var o := ObservationsByKey(observations)[key];
      hide ObservationsByKey, MergesByPr;
      ObservedHead(p, captures, merges, observations, asOf, now, m, o);
      assert Supports(p, r, kind, o, asOf);
    }
  }

  /** The observation is of this record's merge and kind, and was available and mature by its boundary. */
  predicate Supports(p: Protocol, r: Record, kind: Kind, o: Observation, asOf: nat) {
    var boundary := if r.mergedAt < p.trainingCutoff then p.trainingCutoff else asOf;
    && o.head == r.head && o.kind == kind
    && r.mergedAt <= o.observedAt <= o.availableAt <= boundary
    && r.mergedAt + WindowOf(p, kind).seconds <= boundary
    && (o.occurred ==> o.observedAt <= r.mergedAt + WindowOf(p, kind).seconds)
    && (!o.occurred ==> o.observedAt >= r.mergedAt + WindowOf(p, kind).seconds)
  }

  lemma ObservedHead(p: Protocol, captures: seq<Capture>, merges: seq<Merge>, observations: seq<Observation>,
                     asOf: nat, now: nat, m: Merge, o: Observation)
    requires Admitted(p, captures, merges, observations, asOf, now) && m in merges && o in observations &&
      o.pullRequest == m.pullRequest
    ensures IsObservation(p, MergesByPr(merges), o, now) && MergesByPr(merges)[o.pullRequest] == m
  {
    var i :| 0 <= i < |observations| && observations[i] == o;
    MergesHold(merges, m.pullRequest);
    SameMerge(p, merges, now, MergesByPr(merges)[m.pullRequest], m);
  }

  // ----- later observations change nothing earlier -----

  /** The observations available by `t`. */
  function Early(observations: seq<Observation>, t: nat): seq<Observation> {
    if |observations| == 0 then []
    else
      var o := observations[|observations| - 1];
      Early(observations[..|observations| - 1], t) + if o.availableAt <= t then [o] else []
  }

  lemma {:induction false} EarlyIs(observations: seq<Observation>, t: nat, o: Observation)
    ensures o in Early(observations, t) <==> o in observations && o.availableAt <= t
  {
    if |observations| > 0 {
      var front, last := observations[..|observations| - 1], observations[|observations| - 1];
      assert observations == front + [last];
      EarlyIs(front, t, o);
    }
  }

  lemma EarlyKeys(observations: seq<Observation>, t: nat, key: Key)
    ensures key in ObservationsByKey(Early(observations, t)) ==> key in ObservationsByKey(observations)
  {
    var early := Early(observations, t);
    ObservationsHold(early, key);
    ObservationsHold(observations, key);
    hide ObservationsByKey, Early;
    if i :| 0 <= i < |early| && KeyOf(early[i]) == key { EarlyIs(observations, t, early[i]); }
  }

  lemma {:induction false} EarlyAdmitted(p: Protocol, merges: map<nat, Merge>, observations: seq<Observation>, now: nat,
                                         t: nat)
    requires AreObservations(p, merges, observations, now)
    ensures AreObservations(p, merges, Early(observations, t), now)
  {
    if |observations| > 0 {
      var front, last := observations[..|observations| - 1], observations[|observations| - 1];
      assert front + [last] == observations;
      ObservationsPrefix(p, merges, observations, |front|, now);
      EarlyAdmitted(p, merges, front, now, t);
      EarlyKeys(front, t, KeyOf(last));
      ObservationsSnoc(p, merges, Early(front, t), last, now);
      ObservationsSnoc(p, merges, front, last, now);
    }
  }

  lemma KeyIsUnique(p: Protocol, merges: map<nat, Merge>, observations: seq<Observation>, now: nat, o: Observation)
    requires AreObservations(p, merges, observations, now) && o in observations
    ensures KeyOf(o) in ObservationsByKey(observations) && ObservationsByKey(observations)[KeyOf(o)] == o
  {
    var i :| 0 <= i < |observations| && observations[i] == o;
    ObservationsHold(observations, KeyOf(o));
    var o' := ObservationsByKey(observations)[KeyOf(o)];
    var j :| 0 <= j < |observations| && observations[j] == o';
    hide ObservationsByKey, KeyOf;
    assert i == j;
  }

  /** A label judged at a boundary up to `t` does not see later observations. */
  lemma LabelIgnoresLater(p: Protocol, merges: map<nat, Merge>, observations: seq<Observation>, now: nat, t: nat,
                          m: Merge, kind: Kind, asOf: nat)
    requires AreObservations(p, merges, observations, now) && Boundary(p, m, asOf) <= t
    ensures LabelOf(p, m, kind, ObservationsByKey(observations), asOf)
         == LabelOf(p, m, kind, ObservationsByKey(Early(observations, t)), asOf)
  {
    var key := (m.pullRequest, kind);
    var early := Early(observations, t);
    EarlyAdmitted(p, merges, observations, now, t);
    ObservationsHold(observations, key);
    ObservationsHold(early, key);
    hide ObservationsByKey, Early, IsObservation, AreObservations;
    if key in ObservationsByKey(early) {
      var o := ObservationsByKey(early)[key];
      EarlyIs(observations, t, o);
      KeyIsUnique(p, merges, observations, now, o);
    } else if key in ObservationsByKey(observations) {
      var o := ObservationsByKey(observations)[key];
      EarlyIs(observations, t, o);
      if o.availableAt <= t { KeyIsUnique(p, merges, early, now, o); }
    }
  }

  /** Same merge and score, and the same labels if the merge is judged at a boundary up to `t`. */
  predicate Alike(p: Protocol, asOf: nat, t: nat, a: Record, b: Record) {
    && a.head == b.head && a.mergedAt == b.mergedAt && a.scoreRecordedAt == b.scoreRecordedAt && a.score == b.score
    && ((if a.mergedAt < p.trainingCutoff then p.trainingCutoff else asOf) <= t ==> a == b)
  }

  predicate AllAlike(p: Protocol, asOf: nat, t: nat, a: seq<Record>, b: seq<Record>) {
    |a| == |b| && forall k :: 0 <= k < |a| ==> Alike(p, asOf, t, a[k], b[k])
  }

  lemma {:induction false} JoinAlike(p: Protocol, captures: map<nat, Capture>, ms: seq<Merge>, merges: map<nat, Merge>,
                                     observations: seq<Observation>, now: nat, t: nat, asOf: nat)
    requires AreObservations(p, merges, observations, now)
    ensures var a := JoinAll(p, captures, ms, ObservationsByKey(observations), asOf);
      var b := JoinAll(p, captures, ms, ObservationsByKey(Early(observations, t)), asOf);
      AllAlike(p, asOf, t, a.records, b.records) && a.excluded == b.excluded
  {
    if |ms| > 0 {
      var m := ms[|ms| - 1];
      JoinAlike(p, captures, ms[..|ms| - 1], merges, observations, now, t, asOf);
      if Boundary(p, m, asOf) <= t {
        LabelIgnoresLater(p, merges, observations, now, t, m, Revert, asOf);
        LabelIgnoresLater(p, merges, observations, now, t, m, Incident, asOf);
        LabelIgnoresLater(p, merges, observations, now, t, m, Flake, asOf);
      }
      hide ObservationsByKey, LabelOf, Early, AreObservations, IsExcluded, ExclusionOf, AuditOf;
    }
  }

  lemma AlikeSnoc(p: Protocol, asOf: nat, t: nat, a: seq<Record>, b: seq<Record>, x: Record, y: Record)
    requires AllAlike(p, asOf, t, a, b) && Alike(p, asOf, t, x, y)
    ensures AllAlike(p, asOf, t, a + [x], b + [y])
  {
    hide Alike;
  }

  lemma AlikePrefix(p: Protocol, asOf: nat, t: nat, a: seq<Record>, b: seq<Record>)
    requires AllAlike(p, asOf, t, a, b) && |a| > 0
    ensures AllAlike(p, asOf, t, a[..|a| - 1], b[..|b| - 1]) && Alike(p, asOf, t, a[|a| - 1], b[|b| - 1])
  {
    hide Alike;
  }

  lemma AlikeOrder(p: Protocol, asOf: nat, t: nat, u: Record, v: Record, x: Record, y: Record)
    requires Alike(p, asOf, t, u, v) && Alike(p, asOf, t, x, y)
    ensures NotLater(u, x) <==> NotLater(v, y)
  {
  }

  lemma {:induction false} InsertAlike(p: Protocol, asOf: nat, t: nat, x: Record, y: Record, a: seq<Record>,
                                       b: seq<Record>)
    requires Alike(p, asOf, t, x, y) && AllAlike(p, asOf, t, a, b)
    ensures AllAlike(p, asOf, t, InsertBy(NotLater, x, a), InsertBy(NotLater, y, b))
  {
    var n := |a|;
    AlikeSnoc(p, asOf, t, a, b, x, y);
    if n > 0 {
      AlikePrefix(p, asOf, t, a, b);
      AlikeOrder(p, asOf, t, a[n - 1], b[n - 1], x, y);
      hide Alike, AllAlike, NotLater;
      if !NotLater(a[n - 1], x) {
        InsertAlike(p, asOf, t, x, y, a[..n - 1], b[..n - 1]);
        AlikeSnoc(p, asOf, t, InsertBy(NotLater, x, a[..n - 1]), InsertBy(NotLater, y, b[..n - 1]), a[n - 1], b[n - 1]);
      }
    }
  }

  lemma {:induction false} SortAlike(p: Protocol, asOf: nat, t: nat, a: seq<Record>, b: seq<Record>)
    requires AllAlike(p, asOf, t, a, b)
    ensures AllAlike(p, asOf, t, Chronological(a), Chronological(b))
  {
    var n := |a|;
    if n > 0 {
      AlikePrefix(p, asOf, t, a, b);
      hide Alike, AllAlike;
      SortAlike(p, asOf, t, a[..n - 1], b[..n - 1]);
      InsertAlike(p, asOf, t, a[n - 1], b[n - 1], Chronological(a[..n - 1]), Chronological(b[..n - 1]));
    }
  }

  /**
   * Deleting every observation that became available after `t` leaves the export valid, with the same
   * merges in the same order, and changes no record judged at a boundary up to `t`. With `t` the
   * training cutoff these are the training records; with `t` the export time, all records.
   */
  lemma LaterObservationsDoNotMatter(p: Protocol, captures: seq<Capture>, merges: seq<Merge>,
                                     observations: seq<Observation>, asOf: nat, now: nat, t: nat)
    requires Admitted(p, captures, merges, observations, asOf, now)
    ensures Admitted(p, captures, merges, Early(observations, t), asOf, now)
    ensures var e := ExportOf(p, captures, merges, observations, asOf, now).value;
      var e' := ExportOf(p, captures, merges, Early(observations, t), asOf, now).value;
      && AllAlike(p, asOf, t, e.records, e'.records) && e.excluded == e'.excluded
      && (t >= asOf ==> e.records == e'.records)
      && (t >= p.trainingCutoff ==>
            forall k :: 0 <= k < |e.records| && e.records[k].mergedAt < p.trainingCutoff ==>
              e.records[k] == e'.records[k])
  {
    EarlyAdmitted(p, MergesByPr(merges), observations, now, t);
    var a := JoinAll(p, CapturesByPr(captures), ByPr(merges), ObservationsByKey(observations), asOf);
    var b := JoinAll(p, CapturesByPr(captures), ByPr(merges), ObservationsByKey(Early(observations, t)), asOf);
    JoinAlike(p, CapturesByPr(captures), ByPr(merges), MergesByPr(merges), observations, now, t, asOf);
    SortAlike(p, asOf, t, a.records, b.records);
    hide Chronological, JoinAll, Early, ByPr, CapturesByPr, ObservationsByKey, AreCaptures, AreMerges, AreObservations,
      MergesByPr, AllJoin, AllAlike;
    AlikeIsEqual(p, asOf, t, Chronological(a.records), Chronological(b.records));
  }

  lemma AlikeIsEqual(p: Protocol, asOf: nat, t: nat, a: seq<Record>, b: seq<Record>)
    requires AllAlike(p, asOf, t, a, b) && p.trainingCutoff < asOf
    ensures t >= asOf ==> a == b
    ensures t >= p.trainingCutoff ==> forall k :: 0 <= k < |a| && a[k].mergedAt < p.trainingCutoff ==> a[k] == b[k]
  {
    if t >= asOf {
      forall k | 0 <= k < |a| ensures a[k] == b[k] { assert Alike(p, asOf, t, a[k], b[k]); }
    }
    if t >= p.trainingCutoff {
      forall k | 0 <= k < |a| && a[k].mergedAt < p.trainingCutoff ensures a[k] == b[k] {
        assert Alike(p, asOf, t, a[k], b[k]);
      }
    }
  }

  /** And every such observation is exported: nothing that was available and mature in time is withheld. */
  lemma NothingInTimeIsWithheld(p: Protocol, captures: seq<Capture>, merges: seq<Merge>, observations: seq<Observation>,
                                asOf: nat, now: nat, r: Record, kind: Kind, o: Observation)
    requires Admitted(p, captures, merges, observations, asOf, now)
    requires r in ExportOf(p, captures, merges, observations, asOf, now).value.records
    requires o in observations && Supports(p, r, kind, o, asOf)
    ensures LabelIn(r, kind) == Some(Label(o.occurred, o.observedAt, o.evidence))
  {
    var byPr, obs, sorted := CapturesByPr(captures), ObservationsByKey(observations), ByPr(merges);
    var records := ExportOf(p, captures, merges, observations, asOf, now).value.records;
    SameElements(records, JoinAll(p, byPr, sorted, obs, asOf).records, r);
    var m := RecordHasMerge(p, byPr, sorted, obs, asOf, r);
    SameElements(sorted, merges, m);
    ObservedMerge(p, captures, merges, observations, asOf, now, m, o);
    KeyIsUnique(p, MergesByPr(merges), observations, now, o);
    assert (m.pullRequest, kind) == KeyOf(o);
    hide Admitted, JoinAll, ByPr, CapturesByPr, ObservationsByKey;
    InTimeIsExported(p, m, byPr[m.pullRequest], kind, obs, o, asOf);
  }

  lemma InTimeIsExported(p: Protocol, m: Merge, c: Capture, kind: Kind, obs: map<Key, Observation>, o: Observation,
                         asOf: nat)
    requires (m.pullRequest, kind) in obs && obs[(m.pullRequest, kind)] == o
    requires Supports(p, RecordOf(p, m, c, obs, asOf), kind, o, asOf)
    ensures LabelIn(RecordOf(p, m, c, obs, asOf), kind) == Some(Label(o.occurred, o.observedAt, o.evidence))
  {
    match kind case Revert => case Incident => case Flake =>
  }

  lemma ObservedMerge(p: Protocol, captures: seq<Capture>, merges: seq<Merge>, observations: seq<Observation>,
                      asOf: nat, now: nat, m: Merge, o: Observation)
    requires Admitted(p, captures, merges, observations, asOf, now) && m in merges && o in observations &&
      o.head == m.head
    ensures o.pullRequest == m.pullRequest
  {
    var i :| 0 <= i < |observations| && observations[i] == o;
    assert IsObservation(p, MergesByPr(merges), observations[i], now);
    MergesHold(merges, o.pullRequest);
    SameMerge(p, merges, now, MergesByPr(merges)[o.pullRequest], m);
  }

  // ----- exported labels never change -----

  lemma LabelStays(p: Protocol, m: Merge, kind: Kind, a: map<Key, Observation>, b: map<Key, Observation>, asOf: nat,
                   later: nat)
    requires p.trainingCutoff < asOf <= later
    requires forall key :: key in a ==> key in b && b[key] == a[key]
    ensures LabelOf(p, m, kind, a, asOf).Some? ==> LabelOf(p, m, kind, b, later) == LabelOf(p, m, kind, a, asOf)
  {
    assert Boundary(p, m, asOf) <= Boundary(p, m, later);
  }

  predicate LabelsKept(a: Record, b: Record) {
    && a.head == b.head && a.mergedAt == b.mergedAt && a.score == b.score && a.scoreRecordedAt == b.scoreRecordedAt
    && forall kind :: LabelIn(a, kind).Some? ==> LabelIn(b, kind) == LabelIn(a, kind)
  }

  /** The later inputs hold everything the earlier ones did. */
  predicate Extends<T(==)>(a: seq<T>, b: seq<T>) { forall x :: x in a ==> x in b }

  lemma ObservationsExtend(p: Protocol, ms: map<nat, Merge>, ms': map<nat, Merge>, a: seq<Observation>,
                           b: seq<Observation>, now: nat, now': nat, key: Key)
    requires AreObservations(p, ms, a, now) && AreObservations(p, ms', b, now') && Extends(a, b)
    requires key in ObservationsByKey(a)
    ensures key in ObservationsByKey(b) && ObservationsByKey(b)[key] == ObservationsByKey(a)[key]
  {
    ObservationsHold(a, key);
    KeyIsUnique(p, ms', b, now', ObservationsByKey(a)[key]);
  }

  lemma CapturesExtend(a: seq<Capture>, b: seq<Capture>, now: nat, now': nat, pr: nat)
    requires AreCaptures(a, now) && AreCaptures(b, now') && Extends(a, b) && pr in CapturesByPr(a)
    ensures pr in CapturesByPr(b) && CapturesByPr(b)[pr] == CapturesByPr(a)[pr]
  {
    CapturesHold(a, pr);
    CapturesHold(b, pr);
    var c := CapturesByPr(a)[pr];
    hide CapturesByPr;
    var i :| 0 <= i < |b| && b[i] == c;
    var j :| 0 <= j < |b| && b[j] == CapturesByPr(b)[pr];
    assert i == j;
  }

  /** A merge that joined still does, with the same capture, over inputs that only grew. */
  lemma MergeStays(p: Protocol, captures: seq<Capture>, merges: seq<Merge>, captures': seq<Capture>,
                   merges': seq<Merge>, asOf: nat, asOf': nat, now: nat, now': nat, m: Merge)
    requires AreCaptures(captures, now) && AreCaptures(captures', now')
    requires Extends(captures, captures') && Extends(merges, merges') && asOf <= asOf'
    requires m in merges && !IsExcluded(CapturesByPr(captures), m, asOf)
    ensures m in merges' && !IsExcluded(CapturesByPr(captures'), m, asOf') && m.pullRequest in CapturesByPr(captures)
    ensures m.pullRequest in CapturesByPr(captures')
    ensures CapturesByPr(captures')[m.pullRequest] == CapturesByPr(captures)[m.pullRequest]
  {
    hide CapturesByPr, AreCaptures;
    CapturesExtend(captures, captures', now, now', m.pullRequest);
  }

  /**
   * A record exported once is exported at every later time, over inputs that only grew, with the same
   * score and with every label it had.
   */
  lemma LabelsAreStable(p: Protocol, captures: seq<Capture>, merges: seq<Merge>, observations: seq<Observation>,
                        asOf: nat, now: nat, captures': seq<Capture>, merges': seq<Merge>,
                        observations': seq<Observation>, asOf': nat, now': nat, r: Record) returns (r': Record)
    requires Admitted(p, captures, merges, observations, asOf, now)
    requires Admitted(p, captures', merges', observations', asOf', now')
    requires Extends(captures, captures') && Extends(merges, merges') && Extends(observations, observations') &&
      asOf <= asOf'
    requires r in ExportOf(p, captures, merges, observations, asOf, now).value.records
    ensures r' in ExportOf(p, captures', merges', observations', asOf', now').value.records && LabelsKept(r, r')
  {
    hide ExportOf, JoinAll, CapturesByPr, ObservationsByKey, RecordOf, LabelsKept, IsExcluded, Joins, MergesByPr;
    var byPr, obs := CapturesByPr(captures), ObservationsByKey(observations);
    var byPr', obs' := CapturesByPr(captures'), ObservationsByKey(observations');
    var m := RecordMerge(p, captures, merges, observations, asOf, now, r);
    MergeStays(p, captures, merges, captures', merges', asOf, asOf', now, now', m);
    SameElements(ByPr(merges'), merges', m);
    JoinHasRecord(p, byPr', ByPr(merges'), obs', asOf', m);
    r' := RecordOf(p, m, byPr'[m.pullRequest], obs', asOf');
    ExportedAreJoined(p, captures', merges', observations', asOf', now', r');
    forall key | key in obs ensures key in obs' && obs'[key] == obs[key] {
      ObservationsExtend(p, MergesByPr(merges), MergesByPr(merges'), observations, observations', now, now', key);
    }
    RecordStays(p, m, byPr[m.pullRequest], obs, obs', asOf, asOf');
  }

  lemma RecordStays(p: Protocol, m: Merge, c: Capture, a: map<Key, Observation>, b: map<Key, Observation>, asOf: nat,
                    later: nat)
    requires p.trainingCutoff < asOf <= later
    requires forall key :: key in a ==> key in b && b[key] == a[key]
    ensures LabelsKept(RecordOf(p, m, c, a, asOf), RecordOf(p, m, c, b, later))
  {
    LabelStays(p, m, Revert, a, b, asOf, later);
    LabelStays(p, m, Incident, a, b, asOf, later);
    LabelStays(p, m, Flake, a, b, asOf, later);
    hide LabelOf;
    var r, r' := RecordOf(p, m, c, a, asOf), RecordOf(p, m, c, b, later);
    forall kind | LabelIn(r, kind).Some? ensures LabelIn(r', kind) == LabelIn(r, kind) {
      match kind case Revert => case Incident => case Flake =>
    }
  }

  // ----- chronological order -----

  lemma NotLaterIsOrder()
    ensures IsOrder(NotLater)
  {
    forall a, b ensures NotLater(a, b) || NotLater(b, a) { TextIsTotal(a.head, b.head); }
    forall a, b, c | NotLater(a, b) && NotLater(b, c) ensures NotLater(a, c) {
      if a.mergedAt == b.mergedAt == c.mergedAt { TextIsTransitive(a.head, b.head, c.head); }
    }
  }

  /** The exported records are in order of merge time, then head. */
  lemma RecordsAreChronological(p: Protocol, captures: seq<Capture>, merges: seq<Merge>, observations: seq<Observation>,
                                asOf: nat, now: nat)
    requires Admitted(p, captures, merges, observations, asOf, now)
    ensures InOrder(NotLater, ExportOf(p, captures, merges, observations, asOf, now).value.records)
  {
    hide Admitted;
    NotLaterIsOrder();
    var byKey := ObservationsByKey(observations);
    SortInOrder(NotLater, JoinAll(p, CapturesByPr(captures), ByPr(merges), byKey, asOf).records);
  }
}
