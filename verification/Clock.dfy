/**
  The clock: a 32-bit microsecond counter extended to 64 bits by a periodic tick, and its
  division by 1000 with a multiplier split into 32-bit parts.
*/
module Clock {
  import opened Words

  const TWO64: int := 0x1_0000_0000_0000_0000

  const MAGIC_1E3_wLO: u32 := 0x4bc6a7f0
  const MAGIC_1E3_wHI: u32 := 0x00418937

  // ---------------------------------------------------------------- the division

  /** What the accumulator holds before its high word is taken, without any truncation. */
  function Accumulated(m: u32, c: u32): nat {
    m * MAGIC_1E3_wLO / TWO32 + m * MAGIC_1E3_wHI + c * MAGIC_1E3_wLO
  }

  /** The accumulator never overflows its 64 bits. */
  lemma NoOverflow(m: u32, c: u32)
    ensures Accumulated(m, c) < TWO64
  {
    assert m * MAGIC_1E3_wLO / TWO32 <= MAGIC_1E3_wLO;
  }

  /** The result before it is cut to 32 bits is the high part of the whole product. */
  lemma HighPart(m: u32, c: u32)
    ensures Accumulated(m, c) / TWO32 + c * MAGIC_1E3_wHI
         == (c * TWO32 + m) * (MAGIC_1E3_wHI * TWO32 + MAGIC_1E3_wLO) / TWO64
  {
    var low := m * MAGIC_1E3_wLO;
    var rest := m * MAGIC_1E3_wHI + c * MAGIC_1E3_wLO;
    var high := c * MAGIC_1E3_wHI;
    assert (c * TWO32 + m) * (MAGIC_1E3_wHI * TWO32 + MAGIC_1E3_wLO) == low + TWO32 * rest + TWO64 * high;
    Carries(low, rest, high);
  }

  lemma Carries(low: nat, rest: nat, high: nat)
    ensures (low / TWO32 + rest) / TWO32 + high == (low + TWO32 * rest + TWO64 * high) / TWO64
  {
    var q, r := low / TWO32, low % TWO32;
    var p, s := (q + rest) / TWO32, (q + rest) % TWO32;
    assert low + TWO32 * rest + TWO64 * high == r + TWO32 * s + TWO64 * (p + high);
    assert 0 <= r + TWO32 * s < TWO64;
  }

  /** Whether the multiplier divides t exactly enough. */
  predicate Precise(t: nat) {
    t % 1000 * TWO64 + 384 * t < 1000 * TWO64
  }

  /** The multiplier is (2^64 + 384) / 1000: the product is the quotient, or one too large. */
  lemma Quotient(t: nat)
    requires t < TWO64
    ensures t * (MAGIC_1E3_wHI * TWO32 + MAGIC_1E3_wLO) / TWO64 == t / 1000 + if Precise(t) then 0 else 1
  {
    var k := MAGIC_1E3_wHI * TWO32 + MAGIC_1E3_wLO;
    assert 1000 * k == TWO64 + 384;
    var q, r := t / 1000, t % 1000;
    assert t == 1000 * q + r;
    assert 1000 * (t * k) == 1000 * (q * TWO64) + (r * TWO64 + 384 * t);
    assert 0 <= r * TWO64 + 384 * t < 2000 * TWO64;
  }

  /** What `millis` computes from a counter and its overflow count. */
  function MillisOf(m: u32, c: u32): u32 {
    (Accumulated(m, c) / TWO32 + c * MAGIC_1E3_wHI) % TWO32
  }

  /** The division is exact modulo 2^32 for exactly the precise times. */
  lemma MillisExactly(m: u32, c: u32)
    ensures MillisOf(m, c) == (c * TWO32 + m) / 1000 % TWO32 <==> Precise(c * TWO32 + m)
  {
    hide Precise, Accumulated;
    var t := c * TWO32 + m;
    HighPart(m, c);
    Quotient(t);
    OneMore(t / 1000, Precise(t));
  }

  lemma OneMore(q: nat, same: bool)
    ensures (q + if same then 0 else 1) % TWO32 == q % TWO32 <==> same
  {
  }

  /** All times up to 2^64 / 384 microseconds are precise, so all with a count below 2^22 are. */
  lemma PreciseForCenturies(m: u32, c: u32)
    requires c < 0x40_0000
    ensures Precise(c * TWO32 + m)
  {
    assert (c * TWO32 + m) % 1000 <= 999;
  }

  /** The first time that is not precise, in the year 1522 of the clock. */
  const FIRST_IMPRECISE: nat := 48038396025285999

  lemma FirstImprecise()
    ensures forall t: nat :: t < FIRST_IMPRECISE ==> Precise(t)
    ensures !Precise(FIRST_IMPRECISE)
    ensures FIRST_IMPRECISE / TWO32 == 0xaa_aaaa
  {
    forall t: nat | t < FIRST_IMPRECISE
      ensures Precise(t)
    {
      if 384 * t >= TWO64 {
        assert t % 1000 <= 998;
      } else {
        assert t % 1000 <= 999;
      }
    }
  }

  // ---------------------------------------------------------------- the clock

  /** How often the counter wraps around unnoticed from one tick to the time `now`. */
  function Unnoticed(tickedAt: nat, now: nat): nat
    requires tickedAt <= now
  {
    (now - tickedAt) / TWO32
  }

  /** Comparing the counter with its value at the last tick notices one wrap-around. */
  lemma Noticed(count: nat, last: u32, tickedAt: nat, now: nat)
    requires count * TWO32 + last == tickedAt <= now
    ensures var m := now % TWO32;
            (count + (if m < last then 1 else 0) + Unnoticed(tickedAt, now)) * TWO32 + m == now
  {
    var m, d := now % TWO32, (now - tickedAt) % TWO32;
    assert now == tickedAt + TWO32 * Unnoticed(tickedAt, now) + d;
    if last + d < TWO32 {
      assert now == (count + Unnoticed(tickedAt, now)) * TWO32 + (last + d);
    } else {
      assert now == (count + 1 + Unnoticed(tickedAt, now)) * TWO32 + (last + d - TWO32);
    }
  }

  class SystemClock {
    var microsAtLastOverflowTick: u32
    var microsOverflowCount: u32
    // The true time in microseconds, of which the hardware shows the low 32 bits.
    var now: nat
    // The time of the last tick, and how many wrap-arounds went unnoticed between ticks.
    ghost var tickedAt: nat
    ghost var missed: nat

    constructor ()
      ensures Valid() && now == 0 && missed == 0
    {
      microsAtLastOverflowTick, microsOverflowCount, now, tickedAt, missed := 0, 0, 0, 0, 0;
    }

    ghost predicate Valid()
      reads this
    {
      && tickedAt <= now < TWO64
      && (microsOverflowCount + missed) * TWO32 + microsAtLastOverflowTick == tickedAt
    }

    /** Time goes by. */
    method Elapse(us: nat)
      requires Valid() && now + us < TWO64
      modifies `now
      ensures Valid() && now == old(now) + us
    {
      now := now + us;
    }

    /** `system_get_time`. */
    function SystemGetTime(): u32
      reads this
    {
      now % TWO32
    }

    /** `micros_overflow_tick`; the counts lose nothing when ticks are less than 2^32 microseconds apart. */
    method MicrosOverflowTick()
      requires Valid()
      modifies `microsAtLastOverflowTick, `microsOverflowCount, `tickedAt, `missed
      ensures Valid() && tickedAt == now && missed == old(missed) + Unnoticed(old(tickedAt), now)
    {
      Noticed(microsOverflowCount + missed, microsAtLastOverflowTick, tickedAt, now);
      var m := SystemGetTime();
      if m < microsAtLastOverflowTick {
        microsOverflowCount := (microsOverflowCount + 1) % TWO32;
      }
      microsAtLastOverflowTick := m;
      missed := missed + Unnoticed(tickedAt, now);
      tickedAt := now;
    }

    /** The overflow count that `millis` and `micros64` see, and with it the time they go by. */
    function SeenCount(): u32
      reads this
    {
      (microsOverflowCount + if SystemGetTime() < microsAtLastOverflowTick then 1 else 0) % TWO32
    }

    /** The true time less the wrap-arounds that went unnoticed. */
    ghost function SeenTime(): int
      requires Valid()
      reads this
    {
      now - TWO32 * (missed + Unnoticed(tickedAt, now))
    }

    lemma SeenParts()
      requires Valid()
      ensures SeenCount() * TWO32 + SystemGetTime() == SeenTime()
    {
      Noticed(microsOverflowCount + missed, microsAtLastOverflowTick, tickedAt, now);
      var carry := if SystemGetTime() < microsAtLastOverflowTick then 1 else 0;
      CountFits(microsOverflowCount + carry, missed + Unnoticed(tickedAt, now), SystemGetTime(), now);
    }

    /** `micros64`: exact, and so monotone over a run, exactly while no wrap-around goes unnoticed. */
    method Micros64() returns (us: nat)
      requires Valid()
      ensures us == SeenTime()
      ensures us == now <==> missed == 0 && now - tickedAt < TWO32
    {
      hide Unnoticed;
      SeenParts();
      NoneUnnoticed(tickedAt, now);
      var low := SystemGetTime();
      us := SeenCount() * TWO32 + low;
    }

    /**
      `millis`: the milliseconds of the time seen modulo 2^32, exactly when that time is precise;
      it is the true time exactly while no wrap-around goes unnoticed.
    */
    method Millis() returns (ms: u32)
      requires Valid()
      ensures SeenTime() >= 0 && (ms == SeenTime() / 1000 % TWO32 <==> Precise(SeenTime()))
      ensures SeenTime() == now <==> missed == 0 && now - tickedAt < TWO32
    {
      hide MillisOf, Precise, Unnoticed;
      SeenParts();
      NoneUnnoticed(tickedAt, now);
      var m := SystemGetTime();
      var c := SeenCount();
      ms := Divide(m, c);
      MillisExactly(m, c);
    }
  }

  lemma NoneUnnoticed(tickedAt: nat, now: nat)
    requires tickedAt <= now
    ensures Unnoticed(tickedAt, now) >= 0 && (Unnoticed(tickedAt, now) == 0 <==> now - tickedAt < TWO32)
  {
  }

  /** The overflow count of a time below 2^64 fits its 32 bits. */
  lemma CountFits(count: nat, missed: nat, m: u32, now: nat)
    requires (count + missed) * TWO32 + m == now < TWO64
    ensures count % TWO32 == count && count * TWO32 + m == now - TWO32 * missed
  {
    Small(count);
  }

  /** The accumulation in `millis`: a 64-bit accumulator whose high word is also written on its own. */
  method Divide(m: u32, c: u32) returns (ms: u32)
    ensures ms == MillisOf(m, c)
  {
    hide MillisOf;
    var a, b, d := m * MAGIC_1E3_wLO, m * MAGIC_1E3_wHI, c * MAGIC_1E3_wLO;
    Steps(m, c, a, b, d);
    Small64(a);
    var q := a % TWO64 / TWO32;
    Small64(q + b);
    q := (q + b) % TWO64;
    Small64(q + d);
    q := (q + d) % TWO64;
    Cut(q / TWO32, c * MAGIC_1E3_wHI);
    ms := (q / TWO32 + c * MAGIC_1E3_wHI % TWO32) % TWO32;
  }

  /** The products of `millis` are such that no sum overflows. */
  lemma Steps(m: u32, c: u32, a: nat, b: nat, d: nat)
    requires a == m * MAGIC_1E3_wLO && b == m * MAGIC_1E3_wHI && d == c * MAGIC_1E3_wLO
    ensures a < TWO64 && a / TWO32 + b < TWO64 && a / TWO32 + b + d < TWO64
    ensures MillisOf(m, c) == ((a / TWO32 + b + d) / TWO32 + c * MAGIC_1E3_wHI) % TWO32
  {
    NoOverflow(m, c);
  }

  lemma Small64(x: nat)
    requires x < TWO64
    ensures x % TWO64 == x
  {
  }

  lemma Cut(a: nat, b: nat)
    ensures (a + b % TWO32) % TWO32 == (a + b) % TWO32
  {
    assert a + b == a + b % TWO32 + TWO32 * (b / TWO32);
    Periodic(a + b % TWO32, b / TWO32);
  }

  lemma Periodic(a: nat, k: nat)
    ensures (a + TWO32 * k) % TWO32 == a % TWO32
  {
  }
}
