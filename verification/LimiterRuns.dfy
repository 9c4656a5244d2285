/**
 * Every interleaving of tasks using the limiter of src/review/limiter.rs.
 *
 * Each critical section is one step, since the mutex keeps others out; the `notify_waiters` that
 * follows it is a separate step, because the lock is dropped first. `enable` and the test are
 * separate too. The two clock readings of `acquire` are two parameters of its step.
 */
module LimiterRuns {
  import opened Arith
  import opened Text
  import opened Limiter

  /** One call of `acquire`, from before it registers until its permit is dropped. */
  datatype Task =
    | Idle
    | Registered(notified: bool)
    | Parked(notified: bool, timer: Option<nat>)
    | Holding

  /** `pending` counts the calls that changed the state and have yet to notify. */
  datatype System = System(gate: Gate, tasks: seq<Task>, pending: nat, now: nat)

  datatype Step =
    | Tick(until: nat)
    | Register(i: nat)
    | Test(i: nat, t1: nat, t2: nat, slack: nat)
    | Wake(i: nat)
    | Cancel(i: nat)
    | Release(i: nat)
    | Healthy
    | Throttle(pause: nat)
    | Notify

  function Start(cap: nat, n: nat, now: nat): System {
    System(Fresh(cap, now), seq(n, _ => Idle), 0, now)
  }

  predicate Enabled(s: System, step: Step) {
    match step
    case Tick(until) => s.now <= until
    case Register(i) => i < |s.tasks| && s.tasks[i].Idle?
    case Test(i, t1, t2, _) => i < |s.tasks| && s.tasks[i].Registered? && s.now <= t1 <= t2
    case Wake(i) =>
      && i < |s.tasks| && s.tasks[i].Parked?
      && (s.tasks[i].notified || (s.tasks[i].timer.Some? && s.tasks[i].timer.value <= s.now))
    case Cancel(i) => i < |s.tasks| && s.tasks[i].Parked?
    case Release(i) => i < |s.tasks| && s.tasks[i].Holding?
    case Healthy => true
    case Throttle(_) => true
    case Notify => s.pending > 0
  }

  function Notified(t: Task): Task {
    match t
    case Registered(_) => Registered(true)
    case Parked(_, timer) => Parked(true, timer)
    case _ => t
  }

  /** After a refusal: wait for a notification, or for that and a timer if there is a delay left. */
  function Park(notified: bool, delay: nat, from: nat): Task {
    Parked(notified, if delay == 0 then None else Some(from + delay))
  }

  function Next(s: System, step: Step): System
    requires Enabled(s, step) && (step.Release? ==> s.gate.active > 0)
  {
    match step
    case Tick(until) => s.(now := until)
    case Register(i) => s.(tasks := s.tasks[i := Registered(false)])
    case Test(i, t1, t2, slack) =>
      var (gate, verdict) := Tested(s.gate, t1, t2);
      var task := match verdict
        case Granted => Holding
        case Refused(delay) => Park(s.tasks[i].notified, delay, t2 + slack);
      s.(gate := gate, tasks := s.tasks[i := task], now := t2)
    case Wake(i) => s.(tasks := s.tasks[i := Idle])
    case Cancel(i) => s.(tasks := s.tasks[i := Idle])
    case Release(i) => s.(gate := Released(s.gate), tasks := s.tasks[i := Idle], pending := s.pending + 1)
    case Healthy => s.(gate := Recovered(s.gate), pending := s.pending + 1)
    case Throttle(pause) => s.(gate := Slowed(s.gate, pause, s.now), pending := s.pending + 1)
    case Notify =>
      s.(tasks := seq(|s.tasks|, k requires 0 <= k < |s.tasks| => Notified(s.tasks[k])), pending := s.pending - 1)
  }

  function Holders(tasks: seq<Task>): nat {
    if |tasks| == 0 then 0
    else Holders(tasks[..|tasks| - 1]) + if tasks[|tasks| - 1].Holding? then 1 else 0
  }

  lemma {:induction false} HoldersUpdate(tasks: seq<Task>, i: nat, t: Task)
    requires i < |tasks|
    ensures Holders(tasks[i := t])
         == Holders(tasks) - (if tasks[i].Holding? then 1 else 0) + (if t.Holding? then 1 else 0)
  {
    var n := |tasks| - 1;
    if i == n {
      assert tasks[i := t][..n] == tasks[..n];
    } else {
      assert tasks[i := t][..n] == tasks[..n][i := t];
      HoldersUpdate(tasks[..n], i, t);
    }
  }

  lemma {:induction false} SameHolders(a: seq<Task>, b: seq<Task>)
    requires |a| == |b| && forall k :: 0 <= k < |a| ==> (a[k].Holding? <==> b[k].Holding?)
    ensures Holders(a) == Holders(b)
  {
    if |a| > 0 { SameHolders(a[..|a| - 1], b[..|b| - 1]); }
  }

  lemma {:induction false} HolderCounted(tasks: seq<Task>, i: nat)
    requires i < |tasks| && tasks[i].Holding?
    ensures Holders(tasks) > 0
  {
    if i < |tasks| - 1 { HolderCounted(tasks[..|tasks| - 1], i); }
  }

  lemma {:induction false} SomeHolder(tasks: seq<Task>) returns (i: nat)
    requires Holders(tasks) > 0
    ensures i < |tasks| && tasks[i].Holding?
  {
    var n := |tasks| - 1;
    if tasks[n].Holding? { i := n; } else { i := SomeHolder(tasks[..n]); }
  }

  // ----- safety -----

  /** Capacity is within its bounds, `active` counts the live permits, the cooldown is near. */
  predicate Safe(s: System) {
    && IsGate(s.gate)
    && s.gate.active == Holders(s.tasks)
    && s.gate.cooldown <= s.now + FIVE_MINUTES
  }

  lemma {:induction false} StartIsSafe(cap: nat, n: nat, now: nat)
    ensures Safe(Start(cap, n, now))
  {
    var tasks := seq(n, _ => Idle);
    if n > 0 {
      StartIsSafe(cap, n - 1, now);
      assert tasks[..n - 1] == seq(n - 1, _ => Idle);
    }
  }

  /** A live permit is counted, so dropping it cannot wrap the counter. */
  lemma NoUnderflow(s: System, step: Step)
    requires Safe(s) && Enabled(s, step) && step.Release?
    ensures s.gate.active > 0
  {
    HolderCounted(s.tasks, step.i);
  }

  /** Every step keeps the bounds; a permit is granted only below the limit and after the cooldown. */
  lemma StepIsSafe(s: System, step: Step)
    requires Safe(s) && Enabled(s, step)
    ensures step.Release? ==> s.gate.active > 0
    ensures Safe(Next(s, step))
    ensures Next(s, step).gate.active > s.gate.active ==>
      step.Test? && s.gate.cooldown <= step.t1 && Next(s, step).gate.active <= s.gate.limit
  {
    match step
    case Register(i) => HoldersUpdate(s.tasks, i, Registered(false));
    case Test(i, t1, t2, slack) => HoldersUpdate(s.tasks, i, Next(s, step).tasks[i]);
    case Wake(i) => HoldersUpdate(s.tasks, i, Idle);
    case Cancel(i) => HoldersUpdate(s.tasks, i, Idle);
    case Release(i) =>
      NoUnderflow(s, step);
      HoldersUpdate(s.tasks, i, Idle);
    case Notify => SameHolders(s.tasks, Next(s, step).tasks);
    case _ =>
  }

  // ----- no lost wake-up -----

  /** A waiter that only a notification can wake, and that has none. */
  predicate Waiting(t: Task) { t.Parked? && !t.notified && t.timer.None? }

  /** Whoever waits for a notification will get one: the gate is full, or one is on its way. */
  predicate WillWake(s: System) {
    forall i :: 0 <= i < |s.tasks| && Waiting(s.tasks[i]) ==> s.gate.active >= s.gate.limit || s.pending > 0
  }

  /**
   * The one step that can lose a wake-up: the cooldown ends between the two clock readings of
   * `acquire` while there is capacity, so the test fails, the delay is zero, and nobody is due to notify.
   */
  predicate Loses(s: System, step: Step) {
    && step.Test? && Enabled(s, step)
    && step.t1 < s.gate.cooldown <= step.t2
    && s.gate.active < s.gate.limit && !s.tasks[step.i].notified && s.pending == 0
  }

  /** Wake-ups survive a step exactly when it is not that one. */
  lemma StepKeepsWakeUps(s: System, step: Step)
    requires Safe(s) && WillWake(s) && Enabled(s, step)
    ensures step.Release? ==> s.gate.active > 0
    ensures WillWake(Next(s, step)) <==> !Loses(s, step)
  {
    StepIsSafe(s, step);
    var s' := Next(s, step);
    if Loses(s, step) {
      assert Waiting(s'.tasks[step.i]);
    } else {
      forall i | 0 <= i < |s'.tasks| && Waiting(s'.tasks[i])
        ensures s'.gate.active >= s'.gate.limit || s'.pending > 0
      {
        if !Waiting(s.tasks[i]) && !step.Notify? { assert step.Test? && step.i == i; }
      }
    }
  }

  // ----- whole runs -----

  predicate Runs(s: System, steps: seq<Step>)
    decreases |steps|
  {
    |steps| == 0 ||
    (Enabled(s, steps[0]) && (steps[0].Release? ==> s.gate.active > 0) && Runs(Next(s, steps[0]), steps[1..]))
  }

  function After(s: System, steps: seq<Step>): System
    requires Runs(s, steps)
    decreases |steps|
  {
    if |steps| == 0 then s else After(Next(s, steps[0]), steps[1..])
  }

  lemma {:induction false} RunIsSafe(s: System, steps: seq<Step>)
    requires Safe(s) && Runs(s, steps)
    ensures Safe(After(s, steps))
    decreases |steps|
  {
    if |steps| > 0 {
      StepIsSafe(s, steps[0]);
      RunIsSafe(Next(s, steps[0]), steps[1..]);
    }
  }

  predicate AlwaysWakes(s: System, steps: seq<Step>)
    requires Runs(s, steps)
    decreases |steps|
  {
    WillWake(s) && (|steps| == 0 || AlwaysWakes(Next(s, steps[0]), steps[1..]))
  }

  predicate NoneLoses(s: System, steps: seq<Step>)
    requires Runs(s, steps)
    decreases |steps|
  {
    |steps| == 0 || (!Loses(s, steps[0]) && NoneLoses(Next(s, steps[0]), steps[1..]))
  }

  /** Over a whole run, no wake-up is ever lost exactly when no critical section straddles the cooldown's end. */
  lemma {:induction false} RunKeepsWakeUps(s: System, steps: seq<Step>)
    requires Safe(s) && WillWake(s) && Runs(s, steps)
    ensures AlwaysWakes(s, steps) <==> NoneLoses(s, steps)
    ensures NoneLoses(s, steps) ==> WillWake(After(s, steps))
    decreases |steps|
  {
    if |steps| > 0 {
      StepIsSafe(s, steps[0]);
      StepKeepsWakeUps(s, steps[0]);
      if !Loses(s, steps[0]) { RunKeepsWakeUps(Next(s, steps[0]), steps[1..]); }
    }
  }

  /** Each critical section of the run reads the clock once. */
  predicate OneReading(steps: seq<Step>) {
    forall k :: 0 <= k < |steps| && steps[k].Test? ==> steps[k].t1 == steps[k].t2
  }

  lemma {:induction false} OneReadingLosesNothing(s: System, steps: seq<Step>)
    requires Runs(s, steps) && OneReading(steps)
    ensures NoneLoses(s, steps)
    decreases |steps|
  {
    if |steps| > 0 { OneReadingLosesNothing(Next(s, steps[0]), steps[1..]); }
  }

  /** In every interleaving, from the start, whatever the number of tasks. */
  lemma EveryRunIsSafe(cap: nat, n: nat, now: nat, steps: seq<Step>)
    requires Runs(Start(cap, n, now), steps)
    ensures var s := After(Start(cap, n, now), steps);
      && 1 <= s.gate.limit <= s.gate.cap == Max(cap, 1)
      && s.gate.active == Holders(s.tasks) <= s.gate.cap && s.gate.healthy < 8
      && s.gate.cooldown <= s.now + 300_000_000_000
      && (OneReading(steps) ==> WillWake(s))
  {
    StartIsSafe(cap, n, now);
    RunIsSafe(Start(cap, n, now), steps);
    CapIsFixed(Start(cap, n, now), steps);
    if OneReading(steps) {
      OneReadingLosesNothing(Start(cap, n, now), steps);
      RunKeepsWakeUps(Start(cap, n, now), steps);
    }
  }

  lemma {:induction false} CapIsFixed(s: System, steps: seq<Step>)
    requires Runs(s, steps)
    ensures After(s, steps).gate.cap == s.gate.cap && |After(s, steps).tasks| == |s.tasks|
    decreases |steps|
  {
    if |steps| > 0 { CapIsFixed(Next(s, steps[0]), steps[1..]); }
  }

  /** No further call of `healthy` or `throttled`, and no waiter gives up. */
  predicate Unaided(steps: seq<Step>) {
    forall k :: 0 <= k < |steps| ==> !steps[k].Healthy? && !steps[k].Throttle? && !steps[k].Cancel?
  }

  lemma RunStep(s: System, step: Step, rest: seq<Step>)
    requires Enabled(s, step) && (step.Release? ==> s.gate.active > 0)
    requires Runs(Next(s, step), rest)
    ensures Runs(s, [step] + rest) && After(s, [step] + rest) == After(Next(s, step), rest)
  {
    assert ([step] + rest)[1..] == rest;
  }

  /** How far a task is from its permit. */
  function Distance(t: Task): nat {
    match t
    case Parked(notified, _) => if notified then 3 else 4
    case Idle => 2
    case Registered(_) => 1
    case Holding => 0
  }

  /** The next step toward task `i`'s permit when it has none. */
  lemma Toward(s: System, i: nat) returns (step: Step)
    requires Safe(s) && WillWake(s) && i < |s.tasks| && !s.tasks[i].Holding?
    ensures Enabled(s, step) && (step.Release? ==> s.gate.active > 0) && Unaided([step]) && !Loses(s, step)
    ensures var s' := Next(s, step);
      || s'.tasks[i].Holding?
      || (s'.tasks[i] == s.tasks[i] && s'.gate.active < s.gate.active)
      || (s'.gate.active == s.gate.active && Distance(s'.tasks[i]) < Distance(s.tasks[i]))
      || (s'.gate.active == s.gate.active && s'.tasks[i] == s.tasks[i] && Due(s', i) && !Due(s, i))
  {
    var t := s.tasks[i];
    if s.gate.active > 0 {
      var j := SomeHolder(s.tasks);
      step := Release(j);
    } else if t.Idle? {
      step := Register(i);
    } else if t.Registered? {
      var at := Max(s.now, s.gate.cooldown);
      step := Test(i, at, at, 0);
    } else if Due(s, i) {
      step := Wake(i);
    } else if t.timer.Some? {
      step := Tick(t.timer.value);
    } else {
      step := Notify;
    }
  }

  predicate Due(s: System, i: nat) {
    && i < |s.tasks| && s.tasks[i].Parked?
    && (s.tasks[i].notified || (s.tasks[i].timer.Some? && s.tasks[i].timer.value <= s.now))
  }

  /** With no lost wake-up, every task can still be served: drop the live permits and let time pass. */
  lemma CanBeServed(s: System, i: nat) returns (steps: seq<Step>)
    requires Safe(s) && WillWake(s) && i < |s.tasks|
    ensures Unaided(steps) && Runs(s, steps) && i < |After(s, steps).tasks| && After(s, steps).tasks[i].Holding?
    decreases s.gate.active, Distance(s.tasks[i]), !Due(s, i)
  {
    if s.tasks[i].Holding? { return []; }
    var step := Toward(s, i);
    var s' := Next(s, step);
    StepIsSafe(s, step);
    StepKeepsWakeUps(s, step);
    var rest := [];
    if !s'.tasks[i].Holding? { rest := CanBeServed(s', i); }
    RunStep(s, step, rest);
    steps := [step] + rest;
  }

  /** Nothing is left that could ever notify: every task waits, and nobody holds a permit. */
  predicate Stuck(s: System) {
    s.pending == 0 && forall i :: 0 <= i < |s.tasks| ==> Waiting(s.tasks[i])
  }

  /** A throttle for 5 ns, then a test that reads the clock at 4 and at 5. */
  const LOSING: seq<Step> := [Throttle(5), Notify, Register(0), Test(0, 4, 5, 0)]

  const LOST: System := System(Gate(1, 0, 1, 0, 5), [Parked(false, None)], 0, 5)

  /** The losing run: a single waiter, no permit live, nothing pending, and capacity to spare. */
  lemma LosingRun()
    ensures Runs(Start(1, 1, 0), LOSING) && After(Start(1, 1, 0), LOSING) == LOST
    ensures Stuck(LOST) && LOST.gate.active < LOST.gate.limit
  {
    var s0 := Start(1, 1, 0);
    var s1 := Next(s0, Throttle(5));
    var s2 := Next(s1, Notify);
    var s3 := Next(s2, Register(0));
    assert !Admits(s3.gate, 4);
    assert Next(s3, Test(0, 4, 5, 0)) == LOST;
    RunStep(s3, Test(0, 4, 5, 0), []);
    RunStep(s2, Register(0), [Test(0, 4, 5, 0)]);
    RunStep(s1, Notify, [Register(0), Test(0, 4, 5, 0)]);
    RunStep(s0, Throttle(5), [Notify, Register(0), Test(0, 4, 5, 0)]);
    assert LOSING == [Throttle(5)] + [Notify, Register(0), Test(0, 4, 5, 0)];
    assert [Notify, Register(0), Test(0, 4, 5, 0)] == [Notify] + [Register(0), Test(0, 4, 5, 0)];
    assert [Register(0), Test(0, 4, 5, 0)] == [Register(0)] + [Test(0, 4, 5, 0)];
    assert [Test(0, 4, 5, 0)] == [Test(0, 4, 5, 0)] + [];
  }

  /** From there, unaided steps never wake anyone. */
  lemma {:induction false} StuckForever(s: System, steps: seq<Step>)
    requires Stuck(s) && Unaided(steps) && Runs(s, steps)
    ensures After(s, steps).tasks == s.tasks
    decreases |steps|
  {
    if |steps| > 0 {
      assert steps[0].Tick?;
      StuckForever(Next(s, steps[0]), steps[1..]);
    }
  }

  /** The lost wake-up is real, and without an outside call its waiter parks for ever, with capacity to spare. */
  lemma LostWakeUp()
    ensures Runs(Start(1, 1, 0), LOSING) && Stuck(After(Start(1, 1, 0), LOSING))
    ensures forall steps :: Unaided(steps) && Runs(LOST, steps) ==>
      After(LOST, steps).tasks == [Parked(false, None)] && LOST.gate.active < LOST.gate.limit
    ensures After(Start(1, 1, 0), LOSING) == LOST
  {
    LosingRun();
    forall steps | Unaided(steps) && Runs(LOST, steps) ensures After(LOST, steps).tasks == LOST.tasks {
      StuckForever(LOST, steps);
    }
  }
}
