/** The windows that the joint limiters clamp a command to (joint_limits_helpers.cpp), in exact real
    arithmetic. */
module JointLimits {
  import opened Names
  import opened Reals

  datatype Limits = Limits(
    minPosition: real, maxPosition: real, maxVelocity: real, maxAcceleration: real, maxDeceleration: real,
    maxEffort: real, maxJerk: real,
    hasPosition: bool, hasVelocity: bool, hasAcceleration: bool, hasDeceleration: bool, hasEffort: bool)

  predicate Sane(l: Limits) {
    && l.minPosition <= l.maxPosition
    && l.maxVelocity >= 0.0 && l.maxAcceleration >= 0.0 && l.maxDeceleration >= 0.0
    && l.maxEffort >= 0.0 && l.maxJerk >= 0.0
  }

  const VALUE_CONSIDERED_ZERO: real := 0.0000000001
  const POSITION_BOUNDS_TOLERANCE: real := 0.002
  const OUT_OF_BOUNDS_EXCEPTION_TOLERANCE: real := 0.0087

  /** An ordered pair of limits, or no limits at all. */
  datatype Window = Unbounded | Window(lower: real, upper: real)

  predicate Ordered(w: Window) {
    w.Window? ==> w.lower <= w.upper
  }

  predicate Inside(x: real, w: Window) {
    w.Window? ==> w.lower <= x <= w.upper
  }

  /** `std::clamp`; its behaviour is defined for ordered bounds only. */
  function Clamp(x: real, w: Window): (r: real)
    requires Ordered(w)
    ensures Inside(r, w)
    ensures Inside(x, w) ==> r == x
    ensures w.Window? && !Inside(x, w) ==> r == w.lower || r == w.upper
  {
    if w.Unbounded? then x else if x < w.lower then w.lower else if w.upper < x then w.upper else x
  }

  /** is_limited. */
  predicate IsLimited(x: real, w: Window) {
    w.Window? && (x < w.lower || x > w.upper)
  }

  /** check_and_swap_limits. */
  function CheckAndSwap(lower: real, upper: real): (w: Window)
    ensures w.Window? && Ordered(w)
  {
    if lower > upper then Window(upper, lower) else Window(lower, upper)
  }

  /** verify_actual_position_within_limits throws. */
  predicate FarOutOfBounds(l: Limits, position: Option<real>) {
    position.Some? && l.hasPosition
    && (position.value > l.maxPosition + OUT_OF_BOUNDS_EXCEPTION_TOLERANCE
        || position.value < l.minPosition - OUT_OF_BOUNDS_EXCEPTION_TOLERANCE)
  }

  /** How far one command may move the position. */
  function PositionStep(l: Limits, actualVelocity: Option<real>, dt: real): real {
    var speed := if actualVelocity.Some? then Abs(actualVelocity.value) else 0.0;
    Min(l.maxVelocity, if l.hasAcceleration then speed + l.maxAcceleration * dt else l.maxVelocity) * dt
  }

  /** compute_position_limits, when it does not throw. */
  function PositionLimits(l: Limits, actualVelocity: Option<real>, actualPosition: Option<real>,
                          previous: Option<real>, dt: real): (w: Window)
    ensures w.Window? && Ordered(w)
  {
    var reference := if previous.Some? then previous else actualPosition;
    if l.hasVelocity && reference.Some? then
      var step := PositionStep(l, actualVelocity, dt);
      var lower := Max(Min(reference.value - step, l.maxPosition), l.minPosition);
      var upper := Min(Max(reference.value + step, lower), l.maxPosition);
      CheckAndSwap(lower, upper)
    else
      CheckAndSwap(l.minPosition, l.maxPosition)
  }

  /** The velocities that keep the joint inside its position limits for one step, within the maximum
      velocity; nothing but zero is left when the joint is out of bounds and moves on outwards, or is
      far out of bounds. */
  function VelocityForPosition(l: Limits, desired: real, actualPosition: Option<real>, dt: real): Window
    requires dt > 0.0
  {
    if !l.hasPosition || actualPosition.None? then Window(-l.maxVelocity, l.maxVelocity)
    else
      var x := actualPosition.value;
      var lower := Max((l.minPosition - x) / dt, -l.maxVelocity);
      var upper := Min((l.maxPosition - x) / dt, l.maxVelocity);
      if (x > l.maxPosition || x < l.minPosition)
         && ((x < l.maxPosition + POSITION_BOUNDS_TOLERANCE && x > l.minPosition && desired >= 0.0)
             || (x > l.minPosition - POSITION_BOUNDS_TOLERANCE && x < l.maxPosition && desired <= 0.0)
             || x > l.maxPosition + POSITION_BOUNDS_TOLERANCE
             || x < l.minPosition - POSITION_BOUNDS_TOLERANCE)
      then Window(0.0, 0.0)
      else Window(lower, upper)
  }

  /** The velocities that the acceleration limit allows after the previous command. */
  function VelocityForAcceleration(l: Limits, previous: Option<real>, dt: real): Window {
    if l.hasAcceleration && previous.Some?
    then Window(previous.value - l.maxAcceleration * dt, previous.value + l.maxAcceleration * dt)
    else Unbounded
  }

  /** compute_velocity_limits. */
  function VelocityLimits(l: Limits, desired: real, actualPosition: Option<real>, previous: Option<real>, dt: real): (w: Window)
    requires dt > 0.0
    ensures Ordered(w)
  {
    if !l.hasVelocity then Unbounded
    else
      var p := VelocityForPosition(l, desired, actualPosition, dt);
      var a := VelocityForAcceleration(l, previous, dt);
      if a.Unbounded? then CheckAndSwap(p.lower, p.upper)
      else CheckAndSwap(Max(a.lower, p.lower), Min(a.upper, p.upper))
  }

  /** compute_effort_limits. */
  function EffortLimits(l: Limits, actualPosition: Option<real>, actualVelocity: Option<real>): (w: Window)
    ensures Ordered(w)
    ensures Sane(l) && l.hasEffort ==> w.Window? && -l.maxEffort <= w.lower <= 0.0 <= w.upper <= l.maxEffort
  {
    if !l.hasEffort then Unbounded
    else
      var lower0 := if l.hasPosition && actualPosition.Some? && actualVelocity.Some?
                       && actualPosition.value <= l.minPosition && actualVelocity.value <= 0.0
                    then 0.0 else -l.maxEffort;
      var upper0 := if l.hasPosition && actualPosition.Some? && actualVelocity.Some?
                       && !(actualPosition.value <= l.minPosition && actualVelocity.value <= 0.0)
                       && actualPosition.value >= l.maxPosition && actualVelocity.value >= 0.0
                    then 0.0 else l.maxEffort;
      var lower := if l.hasVelocity && actualVelocity.Some? && actualVelocity.value < -l.maxVelocity then 0.0 else lower0;
      var upper := if l.hasVelocity && actualVelocity.Some? && !(actualVelocity.value < -l.maxVelocity)
                      && actualVelocity.value > l.maxVelocity
                   then 0.0 else upper0;
      CheckAndSwap(lower, upper)
  }

  /** compute_acceleration_limits. */
  function AccelerationLimits(l: Limits, desired: real, actualVelocity: Option<real>): (w: Window)
    ensures Ordered(w)
  {
    if l.hasDeceleration && actualVelocity.Some?
       && ((desired < 0.0 && actualVelocity.value > 0.0) || (desired > 0.0 && actualVelocity.value < 0.0))
    then CheckAndSwap(-l.maxDeceleration, l.maxDeceleration)
    else if l.hasAcceleration then CheckAndSwap(-l.maxAcceleration, l.maxAcceleration)
    else Unbounded
  }

  // ---------------------------------------------------------------------------------------
  // Positions
  // ---------------------------------------------------------------------------------------

  /** Every command stays inside the hard limits; measured from a reference inside the limits it moves
      by no more than the maximum velocity allows in `dt`. */
  lemma PositionCommandBounded(l: Limits, actualVelocity: Option<real>, actualPosition: Option<real>,
                               previous: Option<real>, desired: real, dt: real)
    requires Sane(l) && dt > 0.0
    ensures var c := Clamp(desired, PositionLimits(l, actualVelocity, actualPosition, previous, dt));
            && l.minPosition <= c <= l.maxPosition
            && (l.hasVelocity && previous.Some? && l.minPosition <= previous.value <= l.maxPosition
                ==> Abs(c - previous.value) <= l.maxVelocity * dt)
  {
    StepBounded(l, actualVelocity, dt);
  }

  lemma StepBounded(l: Limits, actualVelocity: Option<real>, dt: real)
    requires Sane(l) && dt > 0.0
    ensures 0.0 <= PositionStep(l, actualVelocity, dt) <= l.maxVelocity * dt
  {
    var speed := if actualVelocity.Some? then Abs(actualVelocity.value) else 0.0;
    MulMonotone(0.0, l.maxAcceleration, dt);
    var v := Min(l.maxVelocity, if l.hasAcceleration then speed + l.maxAcceleration * dt else l.maxVelocity);
    MulMonotone(0.0, v, dt);
    MulMonotone(v, l.maxVelocity, dt);
  }

  lemma MulMonotone(a: real, b: real, c: real)
    requires a <= b && c >= 0.0
    ensures a * c <= b * c
  {
  }

  /** A position inside the limits is commanded as it is if and only if it is not farther from the
      reference, the previous command or else the actual position, than the maximum velocity, and the
      velocity that the acceleration limit allows to reach, lead in `dt`. A position that is farther away
      is approached as far as that. */
  lemma PositionCommandKeptIff(l: Limits, actualVelocity: Option<real>, actualPosition: Option<real>,
                               previous: Option<real>, desired: real, dt: real)
    requires Sane(l) && dt > 0.0 && InBounds(l, desired)
    requires var reference := if previous.Some? then previous else actualPosition;
             reference.Some? ==> InBounds(l, reference.value)
    ensures var reference := if previous.Some? then previous else actualPosition;
            var c := Clamp(desired, PositionLimits(l, actualVelocity, actualPosition, previous, dt));
            if l.hasVelocity && reference.Some?
            then var way := Abs(desired - reference.value);
                 var reached := (if actualVelocity.Some? then Abs(actualVelocity.value) else 0.0) + l.maxAcceleration * dt;
                 && (c == desired <==> way <= l.maxVelocity * dt && (l.hasAcceleration ==> way <= reached * dt))
                 && (c != desired ==>
                       && (desired < reference.value ==> c <= reference.value)
                       && (desired > reference.value ==> c >= reference.value)
                       && (Abs(c - reference.value) == l.maxVelocity * dt
                           || (l.hasAcceleration && Abs(c - reference.value) == reached * dt)))
            else c == desired
  {
    hide PositionStep;
    hide PositionLimits;
    hide Clamp;
    var reference := if previous.Some? then previous else actualPosition;
    if l.hasVelocity && reference.Some? {
      StepBounded(l, actualVelocity, dt);
      StepIs(l, actualVelocity, dt);
      WindowAround(l, actualVelocity, actualPosition, previous, desired, dt);
    } else {
      AnyPosition(l, actualVelocity, actualPosition, previous, desired, dt);
    }
  }

  lemma StepIs(l: Limits, actualVelocity: Option<real>, dt: real)
    requires Sane(l) && dt > 0.0
    ensures var reached := (if actualVelocity.Some? then Abs(actualVelocity.value) else 0.0) + l.maxAcceleration * dt;
            PositionStep(l, actualVelocity, dt)
            == if l.hasAcceleration then Min(l.maxVelocity * dt, reached * dt) else l.maxVelocity * dt
  {
    var reached := (if actualVelocity.Some? then Abs(actualVelocity.value) else 0.0) + l.maxAcceleration * dt;
    if l.maxVelocity <= reached {
      MulMonotone(l.maxVelocity, reached, dt);
    } else {
      MulMonotone(reached, l.maxVelocity, dt);
    }
  }

  lemma WindowAround(l: Limits, actualVelocity: Option<real>, actualPosition: Option<real>, previous: Option<real>,
                     desired: real, dt: real)
    requires Sane(l) && l.hasVelocity && InBounds(l, desired) && PositionStep(l, actualVelocity, dt) >= 0.0
    requires var reference := if previous.Some? then previous else actualPosition;
             reference.Some? && InBounds(l, reference.value)
    ensures var r := (if previous.Some? then previous else actualPosition).value;
            var c, step := Clamp(desired, PositionLimits(l, actualVelocity, actualPosition, previous, dt)), PositionStep(l, actualVelocity, dt);
            && (c == desired <==> Abs(desired - r) <= step)
            && (c != desired ==> Abs(c - r) == step && (desired < r ==> c <= r) && (desired > r ==> c >= r))
  {
    hide PositionStep;
  }

  lemma AnyPosition(l: Limits, actualVelocity: Option<real>, actualPosition: Option<real>, previous: Option<real>,
                    desired: real, dt: real)
    requires Sane(l) && InBounds(l, desired) && (!l.hasVelocity || (previous.None? && actualPosition.None?))
    ensures Clamp(desired, PositionLimits(l, actualVelocity, actualPosition, previous, dt)) == desired
  {
  }

  // ---------------------------------------------------------------------------------------
  // Velocities
  // ---------------------------------------------------------------------------------------

  /** The command keeps the maximum velocity, the acceleration limit, and the position after `dt`. */
  predicate Respects(l: Limits, x: real, previous: real, c: real, dt: real) {
    && -l.maxVelocity <= c <= l.maxVelocity
    && Abs(c - previous) <= l.maxAcceleration * dt
    && l.minPosition <= x + c * dt <= l.maxPosition
  }

  predicate InBounds(l: Limits, x: real) {
    l.minPosition <= x <= l.maxPosition
  }

  /** Some velocity keeps all three limits. */
  predicate WindowsMeet(l: Limits, x: real, previous: real, dt: real)
    requires dt > 0.0
  {
    var p := VelocityForPosition(l, 0.0, Some(x), dt);
    var a := previous;
    Max(a - l.maxAcceleration * dt, p.lower) <= Min(a + l.maxAcceleration * dt, p.upper)
  }

  lemma DivisionBound(a: real, v: real, dt: real)
    requires dt > 0.0
    ensures v <= a / dt <==> v * dt <= a
    ensures a / dt <= v <==> a <= v * dt
  {
    var q := a / dt;
    assert q * dt == a;
    if v <= q {
      MulMonotone(v, q, dt);
    } else {
      assert (v - q) * dt > 0.0;
    }
    if q <= v {
      MulMonotone(q, v, dt);
    } else {
      assert (q - v) * dt > 0.0;
    }
  }

  /** A joint inside its limits: the window for the position contains zero and lies within the
      maximum velocity. */
  lemma VelocityWindowInBounds(l: Limits, desired: real, x: real, dt: real)
    requires Sane(l) && l.hasPosition && InBounds(l, x) && dt > 0.0
    ensures var p := VelocityForPosition(l, desired, Some(x), dt);
            && p == VelocityForPosition(l, 0.0, Some(x), dt) && p.Window?
            && -l.maxVelocity <= p.lower <= 0.0 <= p.upper <= l.maxVelocity
  {
    DivisionBound(l.minPosition - x, 0.0, dt);
    DivisionBound(l.maxPosition - x, 0.0, dt);
  }

  /** It holds exactly the velocities that keep the position inside for one step. */
  lemma VelocityInsideIff(l: Limits, desired: real, x: real, c: real, dt: real)
    requires Sane(l) && l.hasPosition && InBounds(l, x) && dt > 0.0
    ensures Inside(c, VelocityForPosition(l, desired, Some(x), dt))
            <==> (-l.maxVelocity <= c <= l.maxVelocity && l.minPosition <= x + c * dt <= l.maxPosition)
  {
    DivisionBound(l.minPosition - x, c, dt);
    DivisionBound(l.maxPosition - x, c, dt);
    var lower, upper := (l.minPosition - x) / dt, (l.maxPosition - x) / dt;
    assert VelocityForPosition(l, desired, Some(x), dt) == Window(Max(lower, -l.maxVelocity), Min(upper, l.maxVelocity));
  }

  /** With the actual position in bounds and the previous command within the maximum velocity, the
      command stays within it, whatever the acceleration window. */
  lemma VelocityCommandBounded(l: Limits, actualPosition: Option<real>, previous: Option<real>, desired: real, dt: real)
    requires Sane(l) && l.hasVelocity && dt > 0.0
    requires l.hasPosition && actualPosition.Some? ==> InBounds(l, actualPosition.value)
    requires previous.Some? ==> -l.maxVelocity <= previous.value <= l.maxVelocity
    ensures var c := Clamp(desired, VelocityLimits(l, desired, actualPosition, previous, dt));
            -l.maxVelocity <= c <= l.maxVelocity
  {
    if l.hasPosition && actualPosition.Some? {
      VelocityWindowInBounds(l, desired, actualPosition.value, dt);
    }
    MulMonotone(0.0, l.maxAcceleration, dt);
  }

  /** The command keeps the acceleration limit and the position limits of the next step exactly when
      the two windows meet. */
  lemma VelocityCommandRespectsIff(l: Limits, x: real, previous: real, desired: real, dt: real)
    requires Sane(l) && l.hasVelocity && l.hasPosition && l.hasAcceleration && dt > 0.0
    requires InBounds(l, x) && -l.maxVelocity <= previous <= l.maxVelocity
    ensures Respects(l, x, previous, Clamp(desired, VelocityLimits(l, desired, Some(x), Some(previous), dt)), dt)
            <==> WindowsMeet(l, x, previous, dt)
  {
    hide VelocityForPosition;
    hide VelocityLimits;
    hide Clamp;
    hide CheckAndSwap;
    hide Max;
    hide Min;
    hide Abs;
    VelocityWindowInBounds(l, desired, x, dt);
    var p, radius := VelocityForPosition(l, desired, Some(x), dt), l.maxAcceleration * dt;
    VelocityLimitsAre(l, desired, x, previous, dt, p, radius);
    TwoWindows(p.lower, p.upper, previous, radius, desired);
    var c := Clamp(desired, VelocityLimits(l, desired, Some(x), Some(previous), dt));
    VelocityInsideIff(l, desired, x, c, dt);
    assert Respects(l, x, previous, c, dt) <==> p.lower <= c <= p.upper && Abs(c - previous) <= radius;
    WindowsMeetIff(l, x, previous, dt, p, radius);
  }

  lemma WindowsMeetIff(l: Limits, x: real, previous: real, dt: real, p: Window, radius: real)
    requires dt > 0.0 && p == VelocityForPosition(l, 0.0, Some(x), dt) && p.Window? && radius == l.maxAcceleration * dt
    ensures WindowsMeet(l, x, previous, dt) <==> Max(previous - radius, p.lower) <= Min(previous + radius, p.upper)
  {
    hide VelocityForPosition;
    hide Max;
    hide Min;
  }

  lemma VelocityLimitsAre(l: Limits, desired: real, x: real, previous: real, dt: real, p: Window, radius: real)
    requires l.hasVelocity && l.hasPosition && l.hasAcceleration && dt > 0.0
    requires p == VelocityForPosition(l, desired, Some(x), dt) && p.Window? && radius == l.maxAcceleration * dt
    ensures VelocityLimits(l, desired, Some(x), Some(previous), dt)
            == CheckAndSwap(Max(previous - radius, p.lower), Min(previous + radius, p.upper))
  {
    hide VelocityForPosition;
    var a := VelocityForAcceleration(l, Some(previous), dt);
    assert a == Window(previous - radius, previous + radius);
    assert VelocityLimits(l, desired, Some(x), Some(previous), dt)
        == CheckAndSwap(Max(a.lower, p.lower), Min(a.upper, p.upper));
  }

  /** A value clamped to the, possibly swapped, intersection of two windows is in both exactly when
      they meet. */
  lemma TwoWindows(lower: real, upper: real, middle: real, radius: real, x: real)
    ensures var c := Clamp(x, CheckAndSwap(Max(middle - radius, lower), Min(middle + radius, upper)));
            (lower <= c <= upper && Abs(c - middle) <= radius)
            <==> Max(middle - radius, lower) <= Min(middle + radius, upper)
  {
  }

  /** A joint that runs fast towards its limit: the windows are apart, and the command is the acceleration
      limit's best, which leaves the position limits. */
  lemma WindowsApart()
    ensures var l := Limits(0.0, 1.0, 10.0, 1.0, 1.0, 1.0, 1.0, true, true, true, false, false);
            var command := Clamp(5.0, VelocityLimits(l, 5.0, Some(0.99), Some(5.0), 0.1));
            && InBounds(l, 0.99) && !WindowsMeet(l, 0.99, 5.0, 0.1)
            && command == 4.9 && !InBounds(l, 0.99 + command * 0.1)
  {
    var l := Limits(0.0, 1.0, 10.0, 1.0, 1.0, 1.0, 1.0, true, true, true, false, false);
    assert (l.minPosition - 0.99) / 0.1 == -9.9 && (l.maxPosition - 0.99) / 0.1 == 0.1;
    assert VelocityForPosition(l, 5.0, Some(0.99), 0.1) == Window(-9.9, 0.1) == VelocityForPosition(l, 0.0, Some(0.99), 0.1);
    VelocityLimitsAre(l, 5.0, 0.99, 5.0, 0.1, Window(-9.9, 0.1), 0.1);
  }

  /** A joint that is above its limits by less than the tolerance may move back and not farther out (but for a
      joint exactly at the tolerance, which is sent back); by more than that, it may not move at all. Moving back, it ends the step below the limit or is at least as
      fast as the maximum velocity; it is faster exactly if more is desired and needed. */
  lemma AboveLimitsVelocity(l: Limits, desired: real, x: real, dt: real)
    requires Sane(l) && l.hasVelocity && l.hasPosition && x > l.maxPosition && dt > 0.0
    ensures var c := Clamp(desired, VelocityLimits(l, desired, Some(x), None, dt));
            var out := x - l.maxPosition;
            if out > POSITION_BOUNDS_TOLERANCE || (desired >= 0.0 && out != POSITION_BOUNDS_TOLERANCE) then c == 0.0
            else && (x + c * dt <= l.maxPosition || c <= -l.maxVelocity)
                 && (c < -l.maxVelocity <==> desired < -l.maxVelocity && out > l.maxVelocity * dt)
  {
    DivisionBound(l.maxPosition - x, 0.0, dt);
    DivisionBound(l.maxPosition - x, -l.maxVelocity, dt);
    Ratios(l.minPosition - x, l.maxPosition - x, dt);
    assert (-l.maxVelocity) * dt == -(l.maxVelocity * dt);
    var c := Clamp(desired, VelocityLimits(l, desired, Some(x), None, dt));
    DivisionBound(l.maxPosition - x, c, dt);
  }

  lemma BelowLimitsVelocity(l: Limits, desired: real, x: real, dt: real)
    requires Sane(l) && l.hasVelocity && l.hasPosition && x < l.minPosition && dt > 0.0
    ensures var c := Clamp(desired, VelocityLimits(l, desired, Some(x), None, dt));
            var out := l.minPosition - x;
            if out > POSITION_BOUNDS_TOLERANCE || (desired <= 0.0 && out != POSITION_BOUNDS_TOLERANCE) then c == 0.0
            else && (x + c * dt >= l.minPosition || c >= l.maxVelocity)
                 && (c > l.maxVelocity <==> desired > l.maxVelocity && out > l.maxVelocity * dt)
  {
    DivisionBound(l.minPosition - x, 0.0, dt);
    DivisionBound(l.minPosition - x, l.maxVelocity, dt);
    Ratios(l.minPosition - x, l.maxPosition - x, dt);
    var c := Clamp(desired, VelocityLimits(l, desired, Some(x), None, dt));
    DivisionBound(l.minPosition - x, c, dt);
  }

  lemma Ratios(a: real, b: real, dt: real)
    requires a <= b && dt > 0.0
    ensures a / dt <= b / dt
  {
    DivisionBound(b, a / dt, dt);
  }

  /** A joint just above its limits that is commanded faster than its maximum velocity. */
  lemma ReturnBreaksMaximum()
    ensures var l := Limits(0.0, 1.0, 1.0, 1.0, 1.0, 1.0, 1.0, true, true, false, false, false);
            Clamp(-5.0, VelocityLimits(l, -5.0, Some(1.0015), None, 0.001)) == -1.5
  {
  }

  // ---------------------------------------------------------------------------------------
  // Efforts and accelerations
  // ---------------------------------------------------------------------------------------

  /** An effort passes exactly if it is within the maximum, does not push a joint farther that stands at, or
      beyond, a position limit and moves outwards, and does not speed up a joint that is too fast. */
  lemma EffortInsideIff(l: Limits, actualPosition: Option<real>, actualVelocity: Option<real>, effort: real)
    requires Sane(l) && l.hasEffort
    ensures var known := l.hasPosition && actualPosition.Some? && actualVelocity.Some?;
            var atLower := known && actualPosition.value <= l.minPosition && actualVelocity.value <= 0.0;
            var atUpper := known && actualPosition.value >= l.maxPosition && actualVelocity.value >= 0.0;
            var fast := l.hasVelocity && actualVelocity.Some? && Abs(actualVelocity.value) > l.maxVelocity;
            Inside(effort, EffortLimits(l, actualPosition, actualVelocity))
            <==> && Abs(effort) <= l.maxEffort
                 && (atLower ==> effort >= 0.0)
                 && (atUpper && !atLower ==> effort <= 0.0)
                 && (fast && actualVelocity.value < 0.0 ==> effort >= 0.0)
                 && (fast && actualVelocity.value > 0.0 ==> effort <= 0.0)
  {
  }

  /** The acceleration is within the limit for slowing down, if it slows down and there is one, or else
      within the limit for accelerations. */
  predicate AccelerationAllowed(l: Limits, a: real, velocity: real) {
    if l.hasDeceleration && ((a < 0.0 && velocity > 0.0) || (a > 0.0 && velocity < 0.0)) then Abs(a) <= l.maxDeceleration
    else l.hasAcceleration ==> Abs(a) <= l.maxAcceleration
  }

  /** An acceleration command is allowed; it is the desired one if that is allowed, and otherwise the largest
      in its direction. An unknown velocity counts as zero. */
  lemma AccelerationCommandAllowed(l: Limits, desired: real, actualVelocity: Option<real>)
    requires Sane(l)
    ensures var v := if actualVelocity.Some? then actualVelocity.value else 0.0;
            var c := Clamp(desired, AccelerationLimits(l, desired, actualVelocity));
            && AccelerationAllowed(l, c, v) && (c == desired <==> AccelerationAllowed(l, desired, v))
            && (c != desired ==>
                  (desired >= 0.0 ==> c >= 0.0) && (desired <= 0.0 ==> c <= 0.0)
                  && (if l.hasDeceleration && ((desired < 0.0 && v > 0.0) || (desired > 0.0 && v < 0.0))
                      then Abs(c) == l.maxDeceleration else Abs(c) == l.maxAcceleration))
  {
  }
}
