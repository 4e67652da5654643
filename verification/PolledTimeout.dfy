/**
  Timeouts that are asked whether they have expired, on a 32-bit counter that wraps around.
*/
module PolledTimeout {
  import opened Words

  /** A unit of time: user units times multiplier over divider are ticks of the counter. */
  datatype TimePolicy = TimePolicy(multiplier: nat, multiplierMax: nat, divider: nat)

  predicate IsPolicy(p: TimePolicy) {
    0 < p.multiplier <= p.multiplierMax && p.divider > 0
  }

  /** The largest user timeout that can expire. */
  function TimeMax(p: TimePolicy): nat
    requires IsPolicy(p)
  {
    (TWO32 - 2) / p.multiplierMax
  }

  /** `toTimeTypeUnit`, in 32-bit arithmetic. */
  function ToTimeTypeUnit(p: TimePolicy, userUnit: u32): u32
    requires IsPolicy(p)
  {
    var ticks: nat := userUnit * p.multiplier % TWO32;
    Shrinks(ticks, p.divider);
    ticks / p.divider
  }

  lemma Shrinks(x: nat, d: nat)
    requires d > 0
    ensures 0 <= x / d <= x
  {
    assert x / d * d + x % d == x;
    if x / d > x {
      Monotone(1, d, x / d);
    }
  }

  /** The conversion does not overflow for any timeout that can expire. */
  lemma ConversionExact(p: TimePolicy, userUnit: u32)
    requires IsPolicy(p) && userUnit <= TimeMax(p)
    ensures ToTimeTypeUnit(p, userUnit) == userUnit * p.multiplier / p.divider <= TWO32 - 2
  {
    var ticks: nat := userUnit * p.multiplier;
    Monotone(p.multiplier, p.multiplierMax, userUnit);
    Monotone(userUnit, TimeMax(p), p.multiplierMax);
    assert (TWO32 - 2) / p.multiplierMax * p.multiplierMax <= TWO32 - 2;
    Small(ticks);
    Shrinks(ticks, p.divider);
  }

  /** The bound is exact: a timeout can expire whenever its largest conversion stays below 2^32 - 1. */
  lemma TimeMaxExactly(p: TimePolicy, userUnit: u32)
    requires IsPolicy(p)
    ensures userUnit <= TimeMax(p) <==> userUnit * p.multiplierMax <= TWO32 - 2
  {
    var q, r := (TWO32 - 2) / p.multiplierMax, (TWO32 - 2) % p.multiplierMax;
    assert TWO32 - 2 == q * p.multiplierMax + r;
    if userUnit <= q {
      Monotone(userUnit, q, p.multiplierMax);
    } else {
      Monotone(q + 1, userUnit, p.multiplierMax);
    }
  }

  /** What a timeout set by its user comes to: whether it can expire, and after how many ticks. */
  lemma SetBy(p: TimePolicy, userUnit: u32)
    requires IsPolicy(p)
    ensures userUnit <= TimeMax(p) <==> userUnit * p.multiplierMax <= TWO32 - 2
    ensures userUnit <= TimeMax(p) ==> ToTimeTypeUnit(p, userUnit) == userUnit * p.multiplier / p.divider
  {
    TimeMaxExactly(p, userUnit);
    if userUnit <= TimeMax(p) {
      ConversionExact(p, userUnit);
    }
  }

  // ---------------------------------------------------------------- periods

  /** The last boundary of the periods from t0 on that is not after t. */
  function Boundary(t0: nat, period: nat, t: nat): (b: nat)
    requires period > 0 && t0 <= t
    ensures t0 <= b <= t < b + period && (b - t0) % period == 0
  {
    var x := t - t0;
    assert x == x / period * period + x % period;
    DivideUnique(x / period * period, period, x / period, 0);
    Monotone(0, x / period, period);
    t0 + x / period * period
  }

  /** There is only one such boundary. */
  lemma BoundaryUnique(t0: nat, period: nat, t: nat, b: nat)
    requires period > 0 && t0 <= b <= t < b + period && (b - t0) % period == 0
    ensures Boundary(t0, period, t) == b
  {
    DivideUnique(t - t0, period, (b - t0) / period, t - b);
  }

  /** Whole periods after a boundary there is a boundary. */
  lemma NextBoundary(t0: nat, period: nat, b: nat, n: nat)
    requires period > 0 && t0 <= b && (b - t0) % period == 0
    ensures (b + n * period - t0) % period == 0
  {
    var k := (b - t0) / period;
    assert b + n * period - t0 == (k + n) * period + 0;
    DivideUnique(b + n * period - t0, period, k + n, 0);
  }

  /** The start of the next period after n whole ones; it is seen through the counter's 32 bits. */
  lemma Retriggered(startAt: nat, now: nat, timeout: u32, n: nat)
    requires startAt <= now && 0 < timeout <= (now - startAt) % TWO32 && n == (now - startAt) % TWO32 / timeout
    ensures var elapsed := (now - startAt) % TWO32;
            var next := now - elapsed % timeout;
            && startAt <= next <= now < next + timeout
            && next % TWO32 == (startAt % TWO32 + n * timeout) % TWO32
            && (now - startAt < TWO32 ==> next == startAt + n * timeout)
  {
    var d := now - startAt;
    var elapsed := d % TWO32;
    assert elapsed == n * timeout + elapsed % timeout;
    Wrapped(startAt, d / TWO32, n * timeout);
    assert now - elapsed % timeout == startAt + d / TWO32 * TWO32 + n * timeout;
  }

  lemma AtLeastOne(x: nat, p: nat)
    requires 0 < p <= x
    ensures x % p <= x - p && x / p * p == x - x % p
  {
    assert x == x / p * p + x % p;
    if x / p < 1 {
      Monotone(x / p, 0, p);
    } else {
      Monotone(1, x / p, p);
    }
  }

  /** A poll moves the boundary reached exactly when one has passed. */
  lemma OnTimePoll(resetAt: nat, timeout: nat, lastTrue: nat, now: nat, before: nat, after: nat)
    requires timeout > 0 && resetAt <= lastTrue <= now && before <= now
    requires before == Boundary(resetAt, timeout, lastTrue)
    requires if now < before + timeout then after == before else after == Boundary(resetAt, timeout, now) > before
    ensures Boundary(resetAt, timeout, now) > Boundary(resetAt, timeout, lastTrue) <==> now >= before + timeout
  {
    if now < before + timeout {
      BoundaryUnique(resetAt, timeout, now, before);
    }
  }

  lemma Wrapped(a: nat, k: nat, x: nat)
    ensures (a + k * TWO32 + x) % TWO32 == (a % TWO32 + x) % TWO32
  {
    assert a + k * TWO32 + x == (a % TWO32 + x) + (a / TWO32 + k) * TWO32;
    WholeTurns(a % TWO32 + x, a / TWO32 + k);
  }

  lemma NotWrapped(d: nat)
    ensures d < TWO32 ==> d % TWO32 == d
  {
  }

  lemma WholeTurns(a: nat, k: nat)
    ensures (a + k * TWO32) % TWO32 == a % TWO32
  {
  }

  // ---------------------------------------------------------------- the timeout

  const ALWAYS_EXPIRED: u32 := 0

  class Timeout {
    const policy: TimePolicy
    // The time source, of which the low 32 bits are seen.
    var now: nat
    var timeout: u32
    var start: u32
    var neverExpires: bool
    // The true times of the last reset, of the period boundary that `start` stands for, and of the
    // last poll that returned true; and whether every poll came within 2^32 ticks of `start`.
    ghost var resetAt: nat
    ghost var startAt: nat
    ghost var lastTrue: nat
    ghost var onTime: bool

    constructor (timePolicy: TimePolicy, time: nat, userTimeout: u32)
      requires IsPolicy(timePolicy)
      ensures Valid() && now == resetAt == time && onTime && policy == timePolicy
      ensures !neverExpires <==> userTimeout * policy.multiplierMax <= TWO32 - 2
      ensures !neverExpires ==> timeout == userTimeout * policy.multiplier / policy.divider
    {
      SetBy(timePolicy, userTimeout);
      policy, now := timePolicy, time;
      start, timeout := time % TWO32, ToTimeTypeUnit(timePolicy, userTimeout);
      neverExpires := userTimeout > TimeMax(timePolicy);
      resetAt, startAt, lastTrue, onTime := time, time, time, true;
    }

    /** `start` is the last boundary before the last poll that returned true, as long as polls are on time. */
    ghost predicate Valid()
      reads this
    {
      && IsPolicy(policy) && start == startAt % TWO32
      && resetAt <= startAt <= lastTrue <= now
      && (timeout > 0 && !neverExpires ==> lastTrue < startAt + timeout)
      && (timeout > 0 && !neverExpires && onTime ==> startAt == Boundary(resetAt, timeout, lastTrue))
    }

    method Elapse(ticks: nat)
      requires Valid()
      modifies `now
      ensures Valid() && now == old(now) + ticks
    {
      now := now + ticks;
    }

    function Time(): u32
      reads this
    {
      now % TWO32
    }

    predicate CanWait()
      reads this
    {
      timeout != ALWAYS_EXPIRED
    }

    /** The ticks since `start`, as far as 32 bits show them. */
    function Elapsed(): u32
      reads this
    {
      (Time() - start + TWO32) % TWO32
    }

    lemma ElapsedSeen()
      requires Valid()
      ensures Elapsed() == (now - startAt) % TWO32
    {
      var d := now - startAt;
      var q, r := startAt / TWO32 + d / TWO32, startAt % TWO32 + d % TWO32;
      assert now == q * TWO32 + r;
    }

    /** `reset`. */
    method Reset()
      requires Valid()
      modifies `start, `resetAt, `startAt, `lastTrue, `onTime
      ensures Valid() && resetAt == now && onTime
    {
      start := Time();
      resetAt, startAt, lastTrue, onTime := now, now, now, true;
    }

    /** `reset` with a new timeout. */
    method ResetTo(newUserTimeout: u32)
      requires Valid()
      modifies `start, `timeout, `neverExpires, `resetAt, `startAt, `lastTrue, `onTime
      ensures Valid() && resetAt == now && onTime
      ensures !neverExpires <==> newUserTimeout * policy.multiplierMax <= TWO32 - 2
      ensures !neverExpires ==> timeout == newUserTimeout * policy.multiplier / policy.divider
    {
      start := Time();
      resetAt, startAt, lastTrue, onTime := now, now, now, true;
      SetBy(policy, newUserTimeout);
      timeout := ToTimeTypeUnit(policy, newUserTimeout);
      neverExpires := newUserTimeout > TimeMax(policy);
    }

    /** `checkExpired`. */
    predicate CheckExpired()
      reads this
    {
      !neverExpires && Elapsed() >= timeout
    }

    /** `resetToNeverExpires`. */
    method ResetToNeverExpires()
      requires Valid()
      modifies `timeout, `neverExpires
      ensures Valid() && neverExpires && timeout == 1
    {
      timeout := ALWAYS_EXPIRED + 1;
      neverExpires := true;
    }

    /** `expiredOneShot`: right as long as it is asked within 2^32 ticks of the reset. */
    method ExpiredOneShot() returns (expired: bool)
      requires Valid()
      ensures now - startAt < TWO32 ==> (expired <==> timeout == 0 || (!neverExpires && now >= startAt + timeout))
    {
      ElapsedSeen();
      expired := !CanWait() || CheckExpired();
    }

    /**
      `expiredRetrigger`: polled on time, it returns true exactly when a period boundary has passed
      since it last did, and never drifts from the boundaries.
    */
    method ExpiredRetrigger() returns (expired: bool)
      requires Valid()
      modifies `start, `startAt, `lastTrue, `onTime
      ensures Valid() && onTime == (old(onTime) && now - old(startAt) < TWO32)
      ensures timeout == 0 ==> expired
      ensures timeout > 0 && neverExpires ==> !expired
      ensures timeout > 0 && !neverExpires && onTime ==>
        (expired <==> Boundary(resetAt, timeout, now) > Boundary(resetAt, timeout, old(lastTrue)))
      ensures lastTrue == if expired then now else old(lastTrue)
    {
      hide Boundary, IsPolicy;
      ghost var s0, t0 := startAt, lastTrue;
      ElapsedSeen();
      NotWrapped(now - startAt);
      onTime := onTime && now - startAt < TWO32;
      if !CanWait() {
        lastTrue := now;
        return true;
      }
      var elapsed := Elapsed();
      expired := CheckExpired();
      if expired {
        Advance(elapsed);
      }
      if onTime && !neverExpires {
        OnTimePoll(resetAt, timeout, t0, now, s0, startAt);
      }
    }

    /** The part of `expiredRetrigger` that moves `start` to the last boundary. */
    method Advance(elapsed: u32)
      requires Valid() && elapsed == Elapsed() && !neverExpires && 0 < timeout <= elapsed
      requires onTime ==> now - startAt < TWO32
      modifies `start, `startAt, `lastTrue
      ensures Valid() && lastTrue == now && startAt >= old(startAt) + timeout
    {
      hide IsPolicy, Boundary;
      ElapsedSeen();
      NotWrapped(now - startAt);
      var n := elapsed / timeout;
      Retriggered(startAt, now, timeout, n);
      AtLeastOne(elapsed, timeout);
      if onTime {
        NextBoundary(resetAt, timeout, startAt, n);
        BoundaryUnique(resetAt, timeout, now, startAt + n * timeout);
      }
      start := (start + n * timeout) % TWO32;
      startAt, lastTrue := now - elapsed % timeout, now;
    }
  }

  /** A timeout that can expire is reported by the first poll once it has passed, and not before. */
  method Reported(policy: TimePolicy, time: nat, userTimeout: u32, waited: nat) returns (once: bool, again: bool)
    requires IsPolicy(policy) && userTimeout * policy.multiplierMax <= TWO32 - 2 && waited < TWO32
    ensures once == again == (waited >= userTimeout * policy.multiplier / policy.divider)
  {
    var oneShot := new Timeout(policy, time, userTimeout);
    var periodic := new Timeout(policy, time, userTimeout);
    oneShot.Elapse(waited);
    periodic.Elapse(waited);
    FirstBoundary(time, periodic.timeout, waited);
    once := oneShot.ExpiredOneShot();
    again := periodic.ExpiredRetrigger();
  }

  lemma FirstBoundary(t0: nat, period: nat, waited: nat)
    ensures period > 0 ==> (Boundary(t0, period, t0 + waited) > Boundary(t0, period, t0) <==> waited >= period)
  {
    if period > 0 {
      BoundaryUnique(t0, period, t0, t0);
      if waited < period {
        BoundaryUnique(t0, period, t0 + waited, t0);
      }
    }
  }
}
