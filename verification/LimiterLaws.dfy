/**
 * What throttling and healthy responses do to the runs of the limiter of src/review/limiter.rs:
 * when permits are granted again, and how fast the capacity comes back.
 */
module LimiterLaws {
  import opened Text
  import opened Limiter
  import opened LimiterRuns

  // ----- one test -----

  /** A pause counts for at most 300 seconds. */
  function Capped(pause: nat): nat { if pause <= 300_000_000_000 then pause else 300_000_000_000 }

  /**
   * After a throttle, a test is granted exactly when the pause and any earlier cooldown are over and
   * fewer than half the former slots, or than one, are taken.
   */
  lemma GrantedExactly(s: System, pause: nat, i: nat, t1: nat, t2: nat, slack: nat)
    requires Safe(s) && i < |s.tasks| && s.tasks[i].Registered? && s.now <= t1 <= t2
    ensures Enabled(Next(s, Throttle(pause)), Test(i, t1, t2, slack))
    ensures Next(Next(s, Throttle(pause)), Test(i, t1, t2, slack)).tasks[i].Holding? <==>
      (&& s.gate.cooldown <= t1 && s.now + Capped(pause) <= t1
       && (s.gate.active == 0 || s.gate.active < s.gate.limit / 2))
  {
  }

  /** A refused test sleeps to the end of the cooldown if that is still ahead, and else waits to be notified. */
  lemma RefusedWaits(s: System, i: nat, t1: nat, t2: nat, slack: nat)
    requires Enabled(s, Test(i, t1, t2, slack)) && (t1 < s.gate.cooldown || s.gate.active >= s.gate.limit)
    ensures var s' := Next(s, Test(i, t1, t2, slack));
      && s'.gate == s.gate && s'.now == t2
      && s'.tasks == s.tasks[i :=
           Parked(s.tasks[i].notified, if t2 < s.gate.cooldown then Some(s.gate.cooldown + slack) else None)]
  {
  }

  /**
   * A notification reaches every task that had registered: one that sleeps can wake, and one still to
   * test either gets a permit or, if refused, can wake at once.
   */
  lemma NotifiedWakes(s: System, i: nat, t1: nat, t2: nat, slack: nat)
    requires s.pending > 0 && i < |s.tasks|
    ensures Enabled(s, Notify)
    ensures s.tasks[i].Parked? ==> Enabled(Next(s, Notify), Wake(i))
    ensures s.tasks[i].Registered? && s.now <= t1 <= t2 ==>
      Enabled(Next(s, Notify), Test(i, t1, t2, slack)) &&
      (var s' := Next(Next(s, Notify), Test(i, t1, t2, slack)); s'.tasks[i].Holding? || Enabled(s', Wake(i)))
  {
  }

  /** Steps that change the gate and then have to notify. */
  function Changes(steps: seq<Step>): nat {
    if |steps| == 0 then 0
    else (if steps[0].Release? || steps[0].Healthy? || steps[0].Throttle? then 1 else 0) + Changes(steps[1..])
  }

  function Notifies(steps: seq<Step>): nat {
    if |steps| == 0 then 0 else (if steps[0].Notify? then 1 else 0) + Notifies(steps[1..])
  }

  lemma PendingStep(s: System, step: Step)
    requires Enabled(s, step) && (step.Release? ==> s.gate.active > 0)
    ensures Next(s, step).pending == s.pending + Changes([step]) - Notifies([step])
  {
    assert [step][1..] == [];
  }

  /** In every run, exactly one notification is due for each change of the gate. */
  lemma {:induction false} PendingCounts(s: System, steps: seq<Step>)
    requires Runs(s, steps)
    ensures After(s, steps).pending == s.pending + Changes(steps) - Notifies(steps)
    decreases |steps|
  {
    if |steps| > 0 {
      PendingStep(s, steps[0]);
      assert [steps[0]][1..] == [];
      hide Next, Enabled;
      PendingCounts(Next(s, steps[0]), steps[1..]);
    }
  }

  // ----- no permit during a pause -----

  /** Each permit granted in the run was granted at a clock reading of `from` or later. */
  predicate GrantsFrom(s: System, steps: seq<Step>, from: nat)
    requires Runs(s, steps)
    decreases |steps|
  {
    |steps| == 0 ||
    (var s' := Next(s, steps[0]);
     && (s'.gate.active > s.gate.active ==> steps[0].Test? && from <= steps[0].t1)
     && GrantsFrom(s', steps[1..], from))
  }

  lemma CooldownStays(s: System, step: Step)
    requires Safe(s) && Enabled(s, step)
    ensures step.Release? ==> s.gate.active > 0
    ensures s.gate.cooldown <= Next(s, step).gate.cooldown
  {
    StepIsSafe(s, step);
  }

  lemma {:induction false} CooldownHolds(s: System, steps: seq<Step>, from: nat)
    requires Safe(s) && Runs(s, steps) && from <= s.gate.cooldown
    ensures GrantsFrom(s, steps, from)
    decreases |steps|
  {
    if |steps| > 0 {
      StepIsSafe(s, steps[0]);
      CooldownStays(s, steps[0]);
      hide Next, Safe, Enabled;
      CooldownHolds(Next(s, steps[0]), steps[1..], from);
    }
  }

  /** After a throttle, in every run, no permit is granted before the pause is over, whatever happens meanwhile. */
  lemma NoGrantDuringPause(s: System, pause: nat, steps: seq<Step>)
    requires Safe(s) && Runs(Next(s, Throttle(pause)), steps)
    ensures GrantsFrom(Next(s, Throttle(pause)), steps, s.now + Capped(pause))
    ensures GrantsFrom(Next(s, Throttle(pause)), steps, s.gate.cooldown)
  {
    StepIsSafe(s, Throttle(pause));
    ThrottleCools(s, pause);
    hide Next, Safe, GrantsFrom;
    CooldownHolds(Next(s, Throttle(pause)), steps, s.now + Capped(pause));
    CooldownHolds(Next(s, Throttle(pause)), steps, s.gate.cooldown);
  }

  lemma ThrottleCools(s: System, pause: nat)
    ensures Next(s, Throttle(pause)).gate.cooldown >= s.gate.cooldown
    ensures Next(s, Throttle(pause)).gate.cooldown >= s.now + Capped(pause)
  {
  }

  // ----- how fast capacity comes back -----

  function Healthies(steps: seq<Step>): nat {
    if |steps| == 0 then 0 else (if steps[0].Healthy? then 1 else 0) + Healthies(steps[1..])
  }

  lemma CreditStep(s: System, step: Step)
    requires Safe(s) && Enabled(s, step)
    ensures step.Release? ==> s.gate.active > 0
    ensures var g := Next(s, step).gate;
      8 * g.limit + g.healthy <= 8 * s.gate.limit + s.gate.healthy + if step.Healthy? then 1 else 0
  {
    StepIsSafe(s, step);
  }

  lemma {:induction false} Credit(s: System, steps: seq<Step>)
    requires Safe(s) && Runs(s, steps)
    ensures var g := After(s, steps).gate;
      8 * g.limit + g.healthy <= 8 * s.gate.limit + s.gate.healthy + Healthies(steps)
    decreases |steps|
  {
    if |steps| > 0 {
      StepIsSafe(s, steps[0]);
      CreditStep(s, steps[0]);
      hide Next, Safe, Enabled;
      Credit(Next(s, steps[0]), steps[1..]);
    }
  }

  /** After a throttle, in every run, each further slot takes eight healthy responses that came after it. */
  lemma SlotsTakeEight(s: System, pause: nat, steps: seq<Step>)
    requires Safe(s) && Runs(Next(s, Throttle(pause)), steps)
    ensures var limit := After(Next(s, Throttle(pause)), steps).gate.limit;
      limit <= (if s.gate.limit <= 1 then 1 else s.gate.limit / 2) + Healthies(steps) / 8
  {
    StepIsSafe(s, Throttle(pause));
    Credit(Next(s, Throttle(pause)), steps);
    RunIsSafe(Next(s, Throttle(pause)), steps);
  }

  predicate NeverThrottled(steps: seq<Step>) { forall k :: 0 <= k < |steps| ==> !steps[k].Throttle? }

  /** Without throttles, the gate is where as many recoveries bring it. */
  lemma {:induction false} OnlyRecovers(s: System, steps: seq<Step>)
    requires Safe(s) && Runs(s, steps) && NeverThrottled(steps)
    ensures var g := After(s, steps).gate;
      && g.cap == s.gate.cap && g.limit >= s.gate.limit
      && (8 * g.limit + g.healthy == 8 * s.gate.limit + s.gate.healthy + Healthies(steps)
          || (g.limit == g.cap && 8 * g.limit + g.healthy <= 8 * s.gate.limit + s.gate.healthy + Healthies(steps)))
    decreases |steps|
  {
    if |steps| > 0 {
      StepIsSafe(s, steps[0]);
      RecoverStep(s, steps[0]);
      RunIsSafe(s, steps);
      hide Next, Enabled;
      OnlyRecovers(Next(s, steps[0]), steps[1..]);
    }
  }

  lemma RecoverStep(s: System, step: Step)
    requires Safe(s) && Enabled(s, step) && !step.Throttle?
    ensures step.Release? ==> s.gate.active > 0
    ensures var g, more := Next(s, step).gate, 8 * s.gate.limit + s.gate.healthy + if step.Healthy? then 1 else 0;
      && g.cap == s.gate.cap && g.limit >= s.gate.limit
      && (8 * g.limit + g.healthy == more
          || (g.limit == g.cap == s.gate.limit && 8 * g.limit + g.healthy <= more))
  {
    StepIsSafe(s, step);
  }

  /**
   * From the start, with no throttle, the limit is three, or the cap if that is less, and one more for
   * every eight healthy responses, up to the cap.
   */
  lemma RampExactly(cap: nat, n: nat, now: nat, steps: seq<Step>)
    requires Runs(Start(cap, n, now), steps) && NeverThrottled(steps)
    ensures var top := if cap == 0 then 1 else cap;
      var slots := (if top < 3 then top else 3) + Healthies(steps) / 8;
      After(Start(cap, n, now), steps).gate.limit == if slots < top then slots else top
  {
    StartIsSafe(cap, n, now);
    var s := Start(cap, n, now);
    OnlyRecovers(s, steps);
    RunIsSafe(s, steps);
    CapIsFixed(s, steps);
  }
}
