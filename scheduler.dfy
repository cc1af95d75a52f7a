/**
 * The timing of ExecuteInstructionCycle (c8e_CPU.cpp:105-138): each call adds the
 * microseconds elapsed since the previous call to three accumulators; the
 * instruction accumulator lets at most one instruction run per call, and the delay
 * accumulator reports a frame at 60 Hz. The source keeps the accumulators in
 * `double`s, but every value they take is a whole number of microseconds, so they
 * are modelled as `nat`s and `fmod` as `%`.
 */
module Scheduler {

  /** DEFAULT_CLOCKSPEED: instructions per second. */
  const DefaultClockSpeed := 700
  /** TIMERSPEED: frames per second. */
  const TimerSpeed := 60
  const MicrosPerSecond := 1000000

  /** `1000000 / rate` in `int` arithmetic: the whole microseconds in one period of `rate` Hz. */
  function Period(rate: nat): (r: nat)
    requires 0 < rate <= MicrosPerSecond
    ensures 1 <= r && r * rate <= MicrosPerSecond < (r + 1) * rate
  {
    MicrosPerSecond / rate
  }

  /** The default instruction period is 1428 microseconds and the frame period 16666. */
  lemma DefaultPeriods()
    ensures Period(DefaultClockSpeed) == 1428 && Period(TimerSpeed) == 16666
  {
  }

  /**
   * `count += dt; if (count >= tick) count = fmod(count, tick)`: whether the
   * accumulator reached a period, and its new value. A firing call gives back
   * whole periods, at least one, and keeps less than a period; a call that elapses less than a
   * period from below a period loses nothing.
   */
  function Accumulate(acc: nat, dt: nat, period: nat): (r: (bool, nat))
    requires period > 0
    ensures r.0 <==> acc + dt >= period
    ensures r.0 ==> r.1 < period && r.1 + period <= acc + dt && (acc + dt - r.1) % period == 0
    ensures !r.0 ==> r.1 == acc + dt
    ensures acc < period ==> r.1 < period
    ensures r.0 && acc + dt < 2 * period ==> r.1 == acc + dt - period
  {
    var sum := acc + dt;
    if sum >= period then
      FiringRemainder(sum, period);
      (true, sum % period)
    else
      (false, sum)
  }

  /**
   * A call whose elapsed time spans two periods or more still fires only once, and
   * what it keeps is less than one period: the periods in between are dropped.
   */
  lemma {:induction false} LongCallDropsPeriods(acc: nat, dt: nat, period: nat)
    requires period > 0 && acc + dt >= 2 * period
    ensures Accumulate(acc, dt, period).0
    ensures Accumulate(acc, dt, period).1 + 2 * period <= acc + dt
  {
  }

  /** The total of a sequence of elapsed times. */
  function Sum(dts: seq<nat>): nat
  {
    if dts == [] then 0 else dts[0] + Sum(dts[1..])
  }

  /** Successive calls from accumulator `acc`: how many of them fired, and the final accumulator. */
  function Run(acc: nat, dts: seq<nat>, period: nat): (r: (nat, nat))
    requires period > 0
    ensures r.0 <= |dts|
    ensures acc < period ==> r.1 < period
    decreases |dts|
  {
    if dts == [] then (0, acc)
    else
      var step := Accumulate(acc, dts[0], period);
      var rest := Run(step.1, dts[1..], period);
      (rest.0 + (if step.0 then 1 else 0), rest.1)
  }

  /**
   * The scheduler never invents time: the periods that fired and what remains in
   * the accumulator add up to at most the time that elapsed.
   */
  lemma {:induction false} RunNeverGains(acc: nat, dts: seq<nat>, period: nat)
    requires period > 0
    ensures Run(acc, dts, period).0 * period + Run(acc, dts, period).1 <= acc + Sum(dts)
    decreases |dts|
  {
    if dts != [] {
      var step := Accumulate(acc, dts[0], period);
      RunNeverGains(step.1, dts[1..], period);
      var rest := Run(step.1, dts[1..], period);
      var f := if step.0 then 1 else 0;
      assert (rest.0 + f) * period == rest.0 * period + f * period;
    }
  }

  /**
   * When every call elapses less than a period, no time is lost: the periods that
   * fired and the remainder add up to exactly the elapsed time, so the number of
   * calls that fired is `(acc + total) / period`.
   */
  lemma {:induction false} RunExactWhenShort(acc: nat, dts: seq<nat>, period: nat)
    requires period > 0 && acc < period
    requires forall i :: 0 <= i < |dts| ==> dts[i] < period
    ensures Run(acc, dts, period).0 * period + Run(acc, dts, period).1 == acc + Sum(dts)
    ensures Run(acc, dts, period).0 == (acc + Sum(dts)) / period
    decreases |dts|
  {
    if dts != [] {
      var step := Accumulate(acc, dts[0], period);
      assert forall i :: 0 <= i < |dts[1..]| ==> dts[1..][i] < period by {
        forall i | 0 <= i < |dts[1..]| ensures dts[1..][i] < period {
          assert dts[1..][i] == dts[i + 1];
        }
      }
      RunExactWhenShort(step.1, dts[1..], period);
      var rest := Run(step.1, dts[1..], period);
      var f := if step.0 then 1 else 0;
      assert (rest.0 + f) * period == rest.0 * period + f * period;
    }
    var r := Run(acc, dts, period);
    DivOfMultiplePlusRemainder(r.0, r.1, period);
  }

  /** What a firing call keeps of `x >= m`: less than m, at most `x - m`, a whole number of m's short of x. */
  lemma {:induction false} FiringRemainder(x: nat, m: nat)
    requires 0 < m <= x
    ensures x % m < m && x % m + m <= x && (x - x % m) % m == 0
    ensures x < 2 * m ==> x % m == x - m
  {
    var q := x / m;
    assert x == q * m + x % m;
    if x < 2 * m {
      DivOfMultiplePlusRemainder(1, x - m, m);
    }
    RemainderLeavesMultiple(x, m);
  }

  /** Taking away `x % m` leaves a multiple of m. */
  lemma {:induction false} RemainderLeavesMultiple(x: nat, m: nat)
    requires m > 0
    ensures (x - x % m) % m == 0
  {
    var q := x / m;
    assert x - x % m == q * m;
    DivOfMultiplePlusRemainder(q, 0, m);
  }

  /** `(k * m + rem) / m == k` when `rem < m`. */
  lemma {:induction false} DivOfMultiplePlusRemainder(k: nat, rem: nat, m: nat)
    requires 0 <= rem < m
    ensures (k * m + rem) / m == k
  {
    var x := k * m + rem;
    var q, s := x / m, x % m;
    assert x == q * m + s;
    assert (q - k) * m == rem - s;
    ZeroMultiple(q - k, m, rem - s);
  }

  /** A multiple of m strictly between -m and m is 0 times m. */
  lemma {:induction false} ZeroMultiple(d: int, m: int, e: int)
    requires m > 0 && -m < e < m && d * m == e
    ensures d == 0
  {
    if d > 0 {
      PositiveMultiple(d, m);
    } else if d < 0 {
      PositiveMultiple(-d, m);
    }
  }

  /** A positive multiple of m is at least m. */
  lemma {:induction false} PositiveMultiple(d: int, m: int)
    requires d > 0 && m > 0
    ensures d * m >= m
  {
    var j := d - 1;
    assert d * m == j * m + m;
  }
}
