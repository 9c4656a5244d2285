/**
 * The adaptive limiter of src/review/limiter.rs: the shared state that its mutex guards, as a
 * class whose methods are the critical sections, and the specification functions they refine.
 */
module Limiter {
  import opened Arith

  /** `Duration::from_secs(300)`, in nanoseconds. Instants are nanoseconds of a monotonic clock. */
  const FIVE_MINUTES: nat := 300_000_000_000

  datatype Gate = Gate(cap: nat, active: nat, limit: nat, healthy: nat, cooldown: nat)

  /** What a waiter learns from one critical section of `acquire`. */
  datatype Verdict = Granted | Refused(delay: nat)

  predicate IsGate(g: Gate) {
    1 <= g.limit <= g.cap && g.active <= g.cap && g.healthy < 8
  }

  // ----- the critical sections, as functions on the guarded state -----

  function Fresh(cap: nat, now: nat): Gate {
    Gate(Max(cap, 1), 0, Max(1, Min(cap, 3)), 0, now)
  }

  predicate Admits(g: Gate, now: nat) { g.cooldown <= now && g.active < g.limit }

  /** The clock is read at `t1` for the test and again at `t2` for the delay. */
  function Tested(g: Gate, t1: nat, t2: nat): (Gate, Verdict) {
    if Admits(g, t1) then (g.(active := g.active + 1), Granted) else (g, Refused(Max(g.cooldown - t2, 0)))
  }

  function Recovered(g: Gate): Gate {
    if g.healthy + 1 >= 8 then g.(limit := Min(g.limit + 1, g.cap), healthy := 0) else g.(healthy := g.healthy + 1)
  }

  function Slowed(g: Gate, pause: nat, now: nat): Gate {
    g.(limit := Max(g.limit / 2, 1), healthy := 0, cooldown := Max(g.cooldown, now + Min(pause, FIVE_MINUTES)))
  }

  function Released(g: Gate): Gate
    requires g.active > 0
  {
    g.(active := g.active - 1)
  }

  class AdaptiveLimiter {
    const cap: nat
    var active: nat
    var limit: nat
    var healthy: nat
    var cooldown: nat

    ghost function Contents(): Gate
      reads this
    {
      Gate(cap, active, limit, healthy, cooldown)
    }

    ghost predicate Valid()
      reads this
    {
      IsGate(Contents())
    }

    constructor (configured: nat, now: nat)
      ensures Valid() && Contents() == Fresh(configured, now)
    {
      cap := if configured >= 1 then configured else 1;
      active := 0;
      limit := if configured < 1 then 1 else if configured > 3 then 3 else configured;
      healthy := 0;
      cooldown := now;
    }

    /** The critical section of `acquire`. */
    method TryAcquire(t1: nat, t2: nat) returns (verdict: Verdict)
      requires Valid()
      modifies this
      ensures Valid() && (Contents(), verdict) == Tested(old(Contents()), t1, t2)
      ensures verdict.Granted? ==> old(cooldown) <= t1 && active <= limit
    {
      if cooldown <= t1 && active < limit {
        active := active + 1;
        return Granted;
      }
      verdict := Refused(if cooldown >= t2 then cooldown - t2 else 0);
    }

    method Healthy()
      requires Valid()
      modifies this
      ensures Valid() && Contents() == Recovered(old(Contents()))
    {
      healthy := healthy + 1;
      if healthy >= 8 {
        limit := if limit + 1 <= cap then limit + 1 else cap;
        healthy := 0;
      }
    }

    method Throttled(pause: nat, now: nat)
      requires Valid()
      modifies this
      ensures Valid() && Contents() == Slowed(old(Contents()), pause, now)
    {
      limit := if limit / 2 >= 1 then limit / 2 else 1;
      healthy := 0;
      var until := now + if pause <= FIVE_MINUTES then pause else FIVE_MINUTES;
      if until > cooldown { cooldown := until; }
    }

    /** Dropping a permit: the subtraction cannot wrap while a permit is live. */
    method Release()
      requires Valid() && active > 0
      modifies this
      ensures Valid() && Contents() == Released(old(Contents()))
    {
      active := active - 1;
    }
  }

  // ----- ramping up and down -----

  function RecoveredTimes(g: Gate, n: nat): Gate {
    if n == 0 then g else Recovered(RecoveredTimes(g, n - 1))
  }

  lemma RampStep(g: Gate, n: nat)
    requires IsGate(g)
    ensures Recovered(g.(limit := Min(g.cap, g.limit + (g.healthy + n) / 8), healthy := (g.healthy + n) % 8))
         == g.(limit := Min(g.cap, g.limit + (g.healthy + n + 1) / 8), healthy := (g.healthy + n + 1) % 8)
  {
    var h := g.healthy + n;
    assert (h + 1) / 8 == h / 8 + (if h % 8 == 7 then 1 else 0);
    assert (h + 1) % 8 == if h % 8 == 7 then 0 else h % 8 + 1;
  }

  /** Eight healthy responses buy one slot, up to the cap. */
  lemma {:induction false} HealthyRamp(g: Gate, n: nat)
    requires IsGate(g)
    ensures RecoveredTimes(g, n)
         == g.(limit := Min(g.cap, g.limit + (g.healthy + n) / 8), healthy := (g.healthy + n) % 8)
  {
    if n > 0 {
      hide Recovered, Min;
      HealthyRamp(g, n - 1);
      RampStep(g, n - 1);
    }
  }

  function SlowedTimes(g: Gate, pauses: seq<nat>, now: nat): Gate {
    if |pauses| == 0 then g else Slowed(SlowedTimes(g, pauses[..|pauses| - 1], now), pauses[|pauses| - 1], now)
  }

  function Pow2(k: nat): (p: nat)
    ensures p >= 1
  {
    if k == 0 then 1 else 2 * Pow2(k - 1)
  }

  /** Throttling halves the capacity but leaves one slot, and shuts the gate for at most five minutes. */
  lemma {:induction false} ThrottleHalves(g: Gate, pauses: seq<nat>, now: nat)
    requires IsGate(g)
    ensures SlowedTimes(g, pauses, now).limit == Max(1, g.limit / Pow2(|pauses|))
    ensures g.cooldown <= SlowedTimes(g, pauses, now).cooldown <= Max(g.cooldown, now + FIVE_MINUTES)
  {
    if |pauses| > 0 {
      var k := |pauses| - 1;
      ThrottleHalves(g, pauses[..k], now);
      HalfAgain(g.limit, Pow2(k));
    }
  }

  lemma HalfAgain(n: nat, p: nat)
    requires p >= 1
    ensures n / p / 2 == n / (2 * p)
    ensures Max(Max(1, n / p) / 2, 1) == Max(1, n / (2 * p))
  {
    var q, r := n / p, n % p;
    assert n == q * p + r;
    assert q % 2 * p + r < 2 * p by {
      if q % 2 == 1 { assert q % 2 * p == p; }
    }
    Quotient(n, 2 * p, q / 2, q % 2 * p + r) by {
      assert (2 * (q / 2) + q % 2) * p == q / 2 * (2 * p) + q % 2 * p;
    }
  }

  lemma Quotient(n: nat, d: nat, q: nat, r: nat)
    requires r < d && n == q * d + r
    ensures n / d == q
  {
    var k := n / d - q;
    assert k * d == r - n % d by { assert (q + k) * d == q * d + k * d; }
    assert k > 0 ==> k * d >= d;
    assert k < 0 ==> k * d + d <= 0;
  }
}
