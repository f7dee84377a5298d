/** Which cycles a controller with its own update rate takes part in (ControllerManager::update), in
    exact real arithmetic. */
module RateSelection {
  import opened Reals

  /** The update rates of a controller and of the controller manager. */
  datatype Rates = Rates(controller: nat, manager: nat)

  predicate Positive(r: Rates) { r.controller > 0 && r.manager > 0 }

  predicate AtManagerRate(r: Rates) { r.controller >= r.manager }

  /** The time zero marks a controller that has not run since its activation. */
  const NEVER: real := 0.0

  /** The period that the controller is told. */
  function Elapsed(r: Rates, period: real, last: real, now: real): real
    requires Positive(r)
  {
    if last != NEVER then now - last
    else if AtManagerRate(r) then period
    else 1.0 / r.controller as real
  }

  /** controller_go. */
  predicate Due(r: Rates, period: real, time: real, last: real, now: real)
    requires Positive(r)
  {
    var elapsed := Elapsed(r, period, last, now);
    var errorNow := Abs(elapsed * r.controller as real - 1.0);
    var errorIfSkipped := Abs((elapsed + 1.0 / r.manager as real) * r.controller as real - 1.0);
    AtManagerRate(r) || time == 0.0 || errorNow <= errorIfSkipped || last == NEVER
  }

  class ControllerSpec {
    var rates: Rates
    var lastUpdateCycleTime: real

    /** The part of update that decides about one active controller. */
    method Tick(period: real, time: real, now: real) returns (go: bool, elapsed: real)
      requires Positive(rates)
      modifies `lastUpdateCycleTime
      ensures go <==> Due(rates, period, time, old(lastUpdateCycleTime), now)
      ensures elapsed == Elapsed(rates, period, old(lastUpdateCycleTime), now)
      ensures lastUpdateCycleTime == if go then now else old(lastUpdateCycleTime)
    {
      var controllerPeriod := if AtManagerRate(rates) then period else 1.0 / rates.controller as real;
      var first := lastUpdateCycleTime == NEVER;
      elapsed := if first then controllerPeriod else now - lastUpdateCycleTime;
      var errorNow := Abs(elapsed * rates.controller as real - 1.0);
      var errorIfSkipped := Abs((elapsed + 1.0 / rates.manager as real) * rates.controller as real - 1.0);
      go := AtManagerRate(rates) || time == 0.0 || errorNow <= errorIfSkipped || first;
      if go {
        lastUpdateCycleTime := now;
      }
    }
  }

  /** The wanted period less half a tick. */
  function Threshold(r: Rates): real
    requires Positive(r)
  {
    1.0 / r.controller as real - 1.0 / (2 * r.manager) as real
  }

  /** Running now is no worse than skipping a tick exactly when the threshold is reached. */
  lemma DueIff(r: Rates, period: real, time: real, last: real, now: real)
    requires Positive(r) && !AtManagerRate(r) && time != 0.0 && last != NEVER
    ensures Due(r, period, time, last, now) <==> now - last >= Threshold(r)
  {
    var c, m := r.controller as real, r.manager as real;
    var elapsed := now - last;
    var a := elapsed * c - 1.0;
    Reciprocals(r);
    var step := 1.0 / m;
    assert (elapsed + step) * c - 1.0 == a + step * c;
    assert step * c > 0.0;
    assert Due(r, period, time, last, now) <==> 2.0 * a + step * c >= 0.0;
    assert 2.0 * a + step * c == (elapsed - Threshold(r)) * (2.0 * c) by {
      assert (elapsed - Threshold(r)) * (2.0 * c) == 2.0 * (elapsed * c) - Threshold(r) * (2.0 * c);
    }
    if elapsed >= Threshold(r) {
      assert (elapsed - Threshold(r)) * (2.0 * c) >= 0.0;
    } else {
      assert (elapsed - Threshold(r)) * (2.0 * c) < 0.0;
    }
  }

  lemma Reciprocals(r: Rates)
    requires Positive(r)
    ensures 1.0 / r.manager as real > 0.0
    ensures Threshold(r) * (2.0 * r.controller as real) == 2.0 - 1.0 / r.manager as real * r.controller as real
  {
    var c, m := r.controller as real, r.manager as real;
    assert (1.0 / c) * c == 1.0;
    assert 1.0 / (2 * r.manager) as real == 0.5 * (1.0 / m);
    assert Threshold(r) == 1.0 / c - 0.5 * (1.0 / m);
    assert Threshold(r) * (2.0 * c) == 2.0 * ((1.0 / c) * c) - (1.0 / m) * c;
  }

  /** Which of the cycles at the given times a controller takes part in, when it ran last at `last`. */
  function Runs(r: Rates, period: real, last: real, ticks: seq<real>): (runs: seq<bool>)
    requires Positive(r)
    ensures |runs| == |ticks|
    decreases |ticks|
  {
    if ticks == [] then []
    else
      var go := Due(r, period, ticks[0], last, ticks[0]);
      [go] + Runs(r, period, if go then ticks[0] else last, ticks[1..])
  }

  /** The number of ticks between two runs. */
  function Stride(r: Rates): nat
    requires Positive(r)
  {
    (2 * r.manager + r.controller - 1) / (2 * r.controller)
  }

  /** The stride is the least number of ticks that reach the threshold. */
  lemma StrideIsLeast(r: Rates, k: nat)
    requires Positive(r)
    ensures k as real / r.manager as real >= Threshold(r) <==> k >= Stride(r)
    ensures !AtManagerRate(r) ==> Stride(r) >= 1
  {
    hide Threshold;
    hide Stride;
    // k / m >= 1 / c - 1 / 2m  <=>  2ck >= 2m - c
    var c, m := r.controller, r.manager;
    var elapsed, factor := k as real / m as real, (2 * m * c) as real;
    FactorPositive(m, c);
    Scaled(elapsed, Threshold(r), factor);
    ElapsedTimes(k, m, c);
    ThresholdTimes(r);
    Whole(2 * c * k, 2 * m - c);
    StrideReaches(r, k);
    StrideReaches(r, 0);
  }

  lemma FactorPositive(m: nat, c: nat)
    requires m > 0 && c > 0
    ensures (2 * m * c) as real > 0.0
  {
  }

  lemma ElapsedTimes(k: nat, m: nat, c: nat)
    requires m > 0
    ensures k as real / m as real * (2 * m * c) as real == (2 * c * k) as real
  {
    assert k as real / m as real * m as real == k as real;
    assert (2 * m * c) as real == m as real * (2 * c) as real;
  }

  lemma ThresholdTimes(r: Rates)
    requires Positive(r)
    ensures Threshold(r) * (2 * r.manager * r.controller) as real == (2 * r.manager - r.controller) as real
  {
    var c, m := r.controller, r.manager;
    ElapsedTimes(1, c, m);
    assert 1.0 / c as real * (2 * m * c) as real == (2 * m) as real;
    assert 1.0 / (2 * m) as real * (2 * m * c) as real == c as real;
  }

  lemma StrideReaches(r: Rates, k: nat)
    requires Positive(r)
    ensures 2 * r.controller * k >= 2 * r.manager - r.controller <==> k >= Stride(r)
  {
    var c: int, m: int := r.controller, r.manager;
    Ceiling(2 * m - c, 2 * c, k);
    assert (2 * m - c) + 2 * c - 1 == 2 * m + c - 1;
  }

  lemma Whole(a: int, b: int)
    ensures a as real >= b as real <==> a >= b
  {
  }

  lemma Scaled(a: real, b: real, f: real)
    requires f > 0.0
    ensures a >= b <==> a * f >= b * f
  {
    if a >= b {
      assert (a - b) * f >= 0.0;
    } else {
      assert (b - a) * f > 0.0;
    }
  }

  lemma Ceiling(n: int, d: nat, k: int)
    requires d > 0
    ensures d * k >= n <==> k >= (n + d - 1) / d
  {
    var q, rest := (n + d - 1) / d, (n + d - 1) % d;
    assert n + d - 1 == d * q + rest;
    if k >= q {
      Monotone(d, q, k);
    } else {
      Monotone(d, k, q - 1);
      assert d * (q - 1) == d * q - d;
    }
  }

  lemma Monotone(d: nat, a: int, b: int)
    requires a <= b
    ensures d * a <= d * b
  {
  }

  /** The time of a tick, counted from a start. */
  function TickTime(r: Rates, start: real, i: nat): real
    requires Positive(r)
  {
    start + i as real / r.manager as real
  }

  /** A controller always runs in its first cycle; the period that it is told then is exactly its own, or the
      manager's if it is as fast as that. Later it is told the time since it ran last. */
  lemma FirstPeriodIsItsOwn(r: Rates, period: real, time: real, last: real, now: real)
    requires Positive(r)
    ensures last == NEVER ==>
              && Due(r, period, time, last, now)
              && (if AtManagerRate(r) then Elapsed(r, period, last, now) == period
                  else Elapsed(r, period, last, now) * r.controller as real == 1.0)
    ensures last != NEVER ==> last + Elapsed(r, period, last, now) == now
  {
  }

  /** These are the ticks after tick `i`, exactly one manager period apart. */
  predicate Regular(r: Rates, start: real, i: nat, ticks: seq<real>)
    requires Positive(r)
  {
    forall j :: 0 <= j < |ticks| ==> ticks[j] == TickTime(r, start, i + j + 1)
  }

  lemma TickDifference(r: Rates, start: real, i: nat, k: nat)
    requires Positive(r) && i <= k
    ensures TickTime(r, start, k) - TickTime(r, start, i) == (k - i) as real / r.manager as real
    ensures start > 0.0 ==> TickTime(r, start, i) > 0.0
  {
    assert i as real / r.manager as real >= 0.0;
  }

  /** With regular ticks, a controller that ran at the start runs exactly at every tick whose number is
      a multiple of the stride. */
  lemma {:induction false} RunsEveryStride(r: Rates, period: real, start: real, p: nat, i: nat, ticks: seq<real>, j: nat)
    requires Positive(r) && !AtManagerRate(r) && start > 0.0 && Regular(r, start, i, ticks)
    requires Stride(r) >= 1 && p % Stride(r) == 0 && p <= i < p + Stride(r) && j < |ticks|
    ensures Runs(r, period, TickTime(r, start, p), ticks)[j] <==> (i + j + 1) % Stride(r) == 0
    decreases |ticks|
  {
    var last, now := TickTime(r, start, p), ticks[0];
    TickDifference(r, start, p, i + 1);
    TickDifference(r, start, i + 1, i + 1);
    DueIff(r, period, now, last, now);
    StrideIsLeast(r, i + 1 - p);
    NextMultiple(p, i + 1, Stride(r));
    var go := Due(r, period, now, last, now);
    assert go <==> (i + 1) % Stride(r) == 0;
    if j > 0 {
      RunsEveryStride(r, period, start, if go then i + 1 else p, i + 1, ticks[1..], j - 1);
    }
  }

  lemma NextMultiple(p: nat, i: nat, k: nat)
    requires k >= 1 && p % k == 0 && p < i <= p + k
    ensures i % k == 0 <==> i == p + k
  {
    var q := p / k;
    assert p == k * q;
    if i == p + k {
      Remainder(i, k, q + 1, 0);
    } else {
      Remainder(i, k, q, i - p);
    }
  }

  lemma Remainder(n: nat, k: nat, q: int, f: nat)
    requires k >= 1 && n == k * q + f && f < k
    ensures n % k == f
  {
    var t, g := n / k, n % k;
    assert n == k * t + g;
    if t < q {
      Monotone(k, t + 1, q);
    } else if t > q {
      Monotone(k, q + 1, t);
    }
  }

  /** Hence the distance of its runs is its own period, but for half a tick. */
  lemma PeriodWithinHalfTick(r: Rates)
    requires Positive(r) && !AtManagerRate(r)
    ensures var error := Stride(r) as real / r.manager as real - 1.0 / r.controller as real;
            var half := 1.0 / (2 * r.manager) as real;
            -half <= error < half
  {
    var k := Stride(r);
    StrideIsLeast(r, k);
    StrideIsLeast(r, k - 1);
    assert k as real / r.manager as real == (k - 1) as real / r.manager as real + 1.0 / r.manager as real;
    assert 1.0 / r.manager as real == 2.0 * (1.0 / (2 * r.manager) as real);
  }

  /** The distances of the runs of a controller that ran last at `last`. */
  function Periods(last: real, ticks: seq<real>, runs: seq<bool>): (periods: seq<real>)
    requires |runs| == |ticks|
    decreases |ticks|
  {
    if ticks == [] then []
    else if runs[0] then [ticks[0] - last] + Periods(ticks[0], ticks[1..], runs[1..])
    else Periods(last, ticks[1..], runs[1..])
  }

  /** The ticks after `previous` move on by at most `step`. */
  predicate AtMostApart(previous: real, step: real, ticks: seq<real>)
    decreases |ticks|
  {
    ticks == [] || (0.0 < ticks[0] <= previous + step && AtMostApart(ticks[0], step, ticks[1..]))
  }

  lemma ThresholdPositive(r: Rates)
    requires Positive(r) && !AtManagerRate(r)
    ensures Threshold(r) > 0.0
  {
    StrideIsLeast(r, 0);
  }

  /** With any ticks at most `step` apart, every period is at least the threshold, and less than a tick
      longer. */
  lemma {:induction false} PeriodsBounded(r: Rates, period: real, last: real, previous: real, step: real, ticks: seq<real>,
                                          j: nat)
    requires Positive(r) && !AtManagerRate(r) && last > 0.0 && AtMostApart(previous, step, ticks)
    requires previous - last < Threshold(r)
    requires j < |Periods(last, ticks, Runs(r, period, last, ticks))|
    ensures Threshold(r) <= Periods(last, ticks, Runs(r, period, last, ticks))[j] < Threshold(r) + step
    decreases |ticks|
  {
    var now := ticks[0];
    DueIff(r, period, now, last, now);
    ThresholdPositive(r);
    var go := Due(r, period, now, last, now);
    var runs := Runs(r, period, last, ticks);
    var next := if go then now else last;
    assert runs[1..] == Runs(r, period, next, ticks[1..]);
    if go {
      if j > 0 {
        PeriodsBounded(r, period, now, now, step, ticks[1..], j - 1);
      }
    } else {
      PeriodsBounded(r, period, last, now, step, ticks[1..], j);
    }
  }

  /** A controller that is as fast as the manager takes part in every cycle. */
  lemma {:induction false} FastRunsAlways(r: Rates, period: real, last: real, ticks: seq<real>, j: nat)
    requires Positive(r) && AtManagerRate(r) && j < |ticks|
    ensures Runs(r, period, last, ticks)[j]
    decreases |ticks|
  {
    if j > 0 {
      FastRunsAlways(r, period, ticks[0], ticks[1..], j - 1);
    }
  }
}
