/**
 * The call budget of src/review/budget.rs: two atomic counters, and any number of threads inside
 * `reserve`, whose `fetch_update` is a load followed by compare-and-swap attempts.
 */
module Budget {
  import opened Text

  datatype Counters = Counters(limit: Option<nat>, reserved: nat, deferred: nat)

  /** The closure of `fetch_update`: whether the value seen leaves room for one more. */
  predicate Permits(limit: Option<nat>, seen: nat) { limit.None? || seen < limit.value }

  // ----- the counters, updated in place -----

  class CallBudget {
    const limit: Option<nat>
    var reserved: nat
    var deferred: nat

    ghost function Contents(): Counters
      reads this
    {
      Counters(limit, reserved, deferred)
    }

    constructor (limit: Option<nat>)
      ensures Contents() == Counters(limit, 0, 0)
    {
      this.limit := limit;
      reserved, deferred := 0, 0;
    }

    method CompareAndSwap(seen: nat, wanted: nat) returns (won: bool, found: nat)
      modifies this`reserved
      ensures won == (old(reserved) == seen) && found == old(reserved)
      ensures reserved == if won then wanted else old(reserved)
    {
      found := reserved;
      won := found == seen;
      if won { reserved := wanted; }
    }

    /** `reserve`, while no other thread touches the counters. */
    method Reserve() returns (ok: bool)
      modifies this
      ensures ok == Permits(limit, old(reserved))
      ensures reserved == old(reserved) + (if ok then 1 else 0)
      ensures deferred == old(deferred) + (if ok then 0 else 1)
    {
      var seen := reserved;
      var won := false;
      while !won && Permits(limit, seen)
        invariant seen == old(reserved) && deferred == old(deferred)
        invariant reserved == old(reserved) + if won then 1 else 0
        invariant won ==> Permits(limit, seen)
        decreases !won
      {
        var found;
        won, found := CompareAndSwap(seen, seen + 1);
        seen := found;
      }
      if !won { deferred := deferred + 1; }
      ok := won;
    }
  }

  // ----- any number of threads -----

  datatype Worker =
    | Idle
    | Deciding(seen: nat)
    | Rejected
    | Won
    | Deferred

  datatype System = System(counters: Counters, workers: seq<Worker>)

  /** Relaxed loads may return an older value of the counter; a successful swap needs the newest one. */
  datatype Step =
    | Load(i: nat, seen: nat)
    | Swap(i: nat)
    | Miss(i: nat, seen: nat)
    | Reject(i: nat)
    | Record(i: nat)

  predicate Enabled(s: System, step: Step) {
    var c := s.counters;
    && step.i < |s.workers|
    && match step
       case Load(i, seen) => s.workers[i].Idle? && seen <= c.reserved
       case Swap(i) => s.workers[i].Deciding? && Permits(c.limit, s.workers[i].seen) && s.workers[i].seen == c.reserved
       case Miss(i, seen) => s.workers[i].Deciding? && Permits(c.limit, s.workers[i].seen) && seen <= c.reserved
       case Reject(i) => s.workers[i].Deciding? && !Permits(c.limit, s.workers[i].seen)
       case Record(i) => s.workers[i].Rejected?
  }

  function Next(s: System, step: Step): System
    requires Enabled(s, step)
  {
    var c := s.counters;
    match step
    case Load(i, seen) => s.(workers := s.workers[i := Deciding(seen)])
    case Swap(i) => System(c.(reserved := s.workers[i].seen + 1), s.workers[i := Won])
    case Miss(i, seen) => s.(workers := s.workers[i := Deciding(seen)])
    case Reject(i) => s.(workers := s.workers[i := Rejected])
    case Record(i) => System(c.(deferred := c.deferred + 1), s.workers[i := Deferred])
  }

  function Start(limit: Option<nat>, n: nat): System {
    System(Counters(limit, 0, 0), seq(n, _ => Idle))
  }

  function Tally(workers: seq<Worker>, w: Worker): nat {
    if |workers| == 0 then 0
    else Tally(workers[..|workers| - 1], w) + if workers[|workers| - 1] == w then 1 else 0
  }

  lemma {:induction false} TallyUpdate(workers: seq<Worker>, i: nat, v: Worker, w: Worker)
    requires i < |workers|
    ensures Tally(workers[i := v], w)
         == Tally(workers, w) - (if workers[i] == w then 1 else 0) + (if v == w then 1 else 0)
  {
    var n := |workers| - 1;
    if i == n {
      assert workers[i := v][..n] == workers[..n];
    } else {
      assert workers[i := v][..n] == workers[..n][i := v];
      TallyUpdate(workers[..n], i, v, w);
    }
  }

  /** The counters count outcomes, the ceiling holds, and nobody is turned away below it. */
  predicate Sound(s: System) {
    var c := s.counters;
    && c.reserved == Tally(s.workers, Won) && c.deferred == Tally(s.workers, Deferred)
    && (c.limit.Some? ==> c.reserved <= c.limit.value)
    && (forall i :: 0 <= i < |s.workers| && s.workers[i].Deciding? ==> s.workers[i].seen <= c.reserved)
    && (forall i :: 0 <= i < |s.workers| && (s.workers[i].Rejected? || s.workers[i].Deferred?) ==>
          c.limit == Some(c.reserved))
  }

  lemma {:induction false} StartIsSound(limit: Option<nat>, n: nat)
    ensures Sound(Start(limit, n))
  {
    if n > 0 {
      StartIsSound(limit, n - 1);
      assert seq(n, _ => Idle)[..n - 1] == seq(n - 1, _ => Idle);
    }
  }

  lemma StepIsSound(s: System, step: Step)
    requires Sound(s) && Enabled(s, step)
    ensures Sound(Next(s, step))
  {
    var w := Next(s, step).workers[step.i];
    TallyUpdate(s.workers, step.i, w, Won);
    TallyUpdate(s.workers, step.i, w, Deferred);
  }

  predicate Runs(s: System, steps: seq<Step>)
    decreases |steps|
  {
    |steps| == 0 || (Enabled(s, steps[0]) && Runs(Next(s, steps[0]), steps[1..]))
  }

  function After(s: System, steps: seq<Step>): System
    requires Runs(s, steps)
    decreases |steps|
  {
    if |steps| == 0 then s else After(Next(s, steps[0]), steps[1..])
  }

  lemma {:induction false} RunIsSound(s: System, steps: seq<Step>)
    requires Sound(s) && Runs(s, steps)
    ensures Sound(After(s, steps))
    ensures After(s, steps).counters.limit == s.counters.limit && |After(s, steps).workers| == |s.workers|
    decreases |steps|
  {
    if |steps| > 0 {
      StepIsSound(s, steps[0]);
      RunIsSound(Next(s, steps[0]), steps[1..]);
    }
  }

  predicate Finished(workers: seq<Worker>) {
    forall i :: 0 <= i < |workers| ==> workers[i].Won? || workers[i].Deferred?
  }

  lemma {:induction false} FinishedTally(workers: seq<Worker>)
    requires Finished(workers)
    ensures Tally(workers, Won) + Tally(workers, Deferred) == |workers|
    ensures Tally(workers, Deferred) > 0 ==> exists i :: 0 <= i < |workers| && workers[i].Deferred?
  {
    if |workers| > 0 { FinishedTally(workers[..|workers| - 1]); }
  }

  /** In every interleaving the ceiling holds, and once all n calls have returned exactly min(limit, n) won. */
  lemma EveryRunIsExact(limit: Option<nat>, n: nat, steps: seq<Step>)
    requires Runs(Start(limit, n), steps)
    ensures var s := After(Start(limit, n), steps); var c := s.counters;
      && (limit.Some? ==> c.reserved <= limit.value)
      && c.reserved == Tally(s.workers, Won) && c.deferred == Tally(s.workers, Deferred)
      && (c.deferred > 0 ==> limit.Some?)
      && (Finished(s.workers) ==>
            c.reserved == (if limit.Some? && limit.value < n then limit.value else n)
            && c.deferred == n - c.reserved)
  {
    StartIsSound(limit, n);
    RunIsSound(Start(limit, n), steps);
    var s := After(Start(limit, n), steps);
    SomeTally(s.workers);
    if Finished(s.workers) { FinishedTally(s.workers); }
  }

  lemma {:induction false} SomeTally(workers: seq<Worker>)
    ensures Tally(workers, Deferred) > 0 ==> exists i :: 0 <= i < |workers| && workers[i].Deferred?
  {
    if |workers| > 0 { SomeTally(workers[..|workers| - 1]); }
  }
}
