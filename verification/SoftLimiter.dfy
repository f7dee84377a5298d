/** The position branch of the soft limiter (joint_soft_limiter.cpp), for commands that consist of a
    position. */
module SoftLimiter {
  import opened Names
  import opened JointLimits
  import opened Reals
  import opened RangeLimiter

  const PI: real := 3.14159265358979323846

  /** One degree, or one centimetre, per second: how fast a joint outside the soft limits returns. */
  const SOFT_LIMIT_REACH_VELOCITY: real := PI / 180.0

  /** A missing value stands for one that is not finite. */
  datatype SoftLimits = SoftLimits(minPosition: Option<real>, maxPosition: Option<real>, kPosition: Option<real>)

  predicate HasSoftPositionLimits(s: SoftLimits) {
    s.minPosition.Some? && s.maxPosition.Some? && s.maxPosition.value - s.minPosition.value > VALUE_CONSIDERED_ZERO
  }

  predicate HasSoftLimits(s: SoftLimits) {
    HasSoftPositionLimits(s) && s.kPosition.Some? && Abs(s.kPosition.value) > VALUE_CONSIDERED_ZERO
  }

  /** A bound that is missing is infinite. */
  datatype Bounds = Bounds(lower: Option<real>, upper: Option<real>)

  predicate OrderedBounds(b: Bounds) {
    b.lower.Some? && b.upper.Some? ==> b.lower.value <= b.upper.value
  }

  predicate Within(x: real, b: Bounds) {
    (b.lower.Some? ==> b.lower.value <= x) && (b.upper.Some? ==> x <= b.upper.value)
  }

  /** `std::clamp`; its behaviour is defined for ordered bounds only. */
  function ClampTo(x: real, b: Bounds): (r: real)
    requires OrderedBounds(b)
    ensures Within(r, b)
    ensures Within(x, b) ==> r == x
    ensures !Within(x, b) ==> b.lower == Some(r) || b.upper == Some(r)
  {
    if b.lower.Some? && x < b.lower.value then b.lower.value
    else if b.upper.Some? && b.upper.value < x then b.upper.value
    else x
  }

  /** The velocity towards a soft limit, in proportion to the distance. */
  function Pull(k: real, p: real, limit: real): real {
    -k * (p - limit)
  }

  /** The velocities that the soft limits allow at the reference position `p`. */
  function SoftVelocities(l: Limits, s: SoftLimits, actualPosition: Option<real>, p: real): (v: (real, real))
    requires Sane(l)
  {
    if l.hasPosition && HasSoftLimits(s) then
      var full := Window(-l.maxVelocity, l.maxVelocity);
      var lower := Clamp(Pull(s.kPosition.value, p, s.minPosition.value), full);
      var upper := Clamp(Pull(s.kPosition.value, p, s.maxPosition.value), full);
      var actual := if actualPosition.Some? then actualPosition.value else p;
      if actual < l.minPosition - POSITION_BOUNDS_TOLERANCE || actual > l.maxPosition + POSITION_BOUNDS_TOLERANCE
      then (0.0, 0.0)
      else if actual < s.minPosition.value || actual > s.maxPosition.value
      then (CopySign(SOFT_LIMIT_REACH_VELOCITY, lower), CopySign(SOFT_LIMIT_REACH_VELOCITY, upper))
      else (lower, upper)
    else (-l.maxVelocity, l.maxVelocity)
  }

  /** The positions that the soft limits and the soft velocities allow. */
  function SoftBounds(l: Limits, s: SoftLimits, actualPosition: Option<real>, p: Option<real>, dt: real): (b: Bounds)
    requires Sane(l)
    ensures OrderedBounds(b)
    ensures HasSoftPositionLimits(s) ==> (b.lower.Some? && b.upper.Some?
                                          && s.minPosition.value <= b.lower.value && b.upper.value <= s.maxPosition.value)
  {
    if l.hasVelocity && p.Some? then ReachBounds(s, p.value, SoftVelocities(l, s, actualPosition, p.value), dt)
    else SoftPositions(s)
  }

  function SoftPositions(s: SoftLimits): (b: Bounds)
    ensures OrderedBounds(b)
  {
    if HasSoftPositionLimits(s) then Bounds(s.minPosition, s.maxPosition) else Bounds(None, None)
  }

  /** Where a joint at `p` gets with a velocity in one step. */
  function Reached(p: real, velocity: real, dt: real): real {
    p + velocity * dt
  }

  /** The part of the soft limits between the positions reached from `p` with two velocities. */
  function ReachBounds(s: SoftLimits, p: real, v: (real, real), dt: real): (b: Bounds)
    ensures OrderedBounds(b)
  {
    var lower := ClampTo(Reached(p, v.0, dt), SoftPositions(s));
    Bounds(Some(lower), Some(ClampTo(Reached(p, v.1, dt), Bounds(Some(lower), SoftPositions(s).upper))))
  }

  /** The two windows have a position in common. */
  predicate Meet(b: Bounds, w: Window)
    requires w.Window?
  {
    && (b.upper.Some? ==> w.lower <= b.upper.value) && (b.lower.Some? ==> b.lower.value <= w.upper)
  }

  class JointSoftLimiter {
    var limits: Limits
    var soft: SoftLimits
    var prev: Data

    /** on_enforce for a position command. */
    method OnEnforcePosition(actual: Data, desired: real, dt: real) returns (threw: bool, enforced: bool, command: real)
      requires Sane(limits)
      modifies `prev
      ensures dt <= 0.0 ==> !threw && !enforced && command == desired && prev == old(prev)
      ensures threw <==> dt > 0.0 && FarOutOfBounds(limits, actual.position)
      ensures threw ==> command == desired
      ensures threw <==> dt > 0.0 && limits.hasPosition && actual.position.Some?
                         && (actual.position.value - limits.maxPosition > 0.0087 || limits.minPosition - actual.position.value > 0.0087)
      ensures enforced <==> command != desired
      ensures dt > 0.0 && !threw ==>
                var before := Filled(old(prev), actual, NoData.(position := Some(desired)));
                var reference := if before.position.Some? then before.position else actual.position;
                var b := SoftBounds(limits, soft, actual.position, reference, dt);
                var hard := PositionLimits(limits, actual.velocity, actual.position, before.position, dt);
                && Within(command, b)
                && (Inside(command, hard) <==> Meet(b, hard))
                && (Within(desired, b) && Inside(desired, hard) ==> command == desired)
                && prev == before.(position := Some(command))
    {
      hide PositionLimits;
      hide SoftBounds;
      threw, enforced, command := false, false, desired;
      if dt <= 0.0 {
        return;
      }
      var wish := NoData.(position := Some(desired));
      prev := Filled(prev, actual, wish);
      var reference := if prev.position.Some? then prev.position else actual.position;
      var low, high := SoftWindow(actual.position, reference, dt);
      if FarOutOfBounds(limits, actual.position) {
        threw := true;
        return;
      }
      var hard := PositionLimits(limits, actual.velocity, actual.position, prev.position, dt);
      enforced, command := ClampToBoth(low, high, hard, desired);
      prev := prev.(position := Some(command));
    }

    /** The soft limits, narrowed by what the soft velocities reach in one step. */
    method SoftWindow(actualPosition: Option<real>, reference: Option<real>, dt: real)
      returns (low: Option<real>, high: Option<real>)
      requires Sane(limits)
      ensures Bounds(low, high) == SoftBounds(limits, soft, actualPosition, reference, dt)
    {
      if limits.hasVelocity && reference.Some? {
        var v := SoftVelocities(limits, soft, actualPosition, reference.value);
        low, high := ReachWindow(reference.value, v, dt);
      } else {
        low, high := SoftPositions(soft).lower, SoftPositions(soft).upper;
      }
    }

    method ReachWindow(p: real, v: (real, real), dt: real) returns (low: Option<real>, high: Option<real>)
      ensures Bounds(low, high) == ReachBounds(soft, p, v, dt)
    {
      hide Reached;
      low, high := SoftPositions(soft).lower, SoftPositions(soft).upper;
      low := Some(ClampTo(Reached(p, v.0, dt), Bounds(low, high)));
      high := Some(ClampTo(Reached(p, v.1, dt), Bounds(low, high)));
    }

    /** The intersection with the hard window or, when it is empty, the soft window alone. */
    method ClampToBoth(velocityLow: Option<real>, velocityHigh: Option<real>, hard: Window, desired: real)
      returns (enforced: bool, command: real)
      requires OrderedBounds(Bounds(velocityLow, velocityHigh)) && hard.Window? && Ordered(hard)
      ensures Within(command, Bounds(velocityLow, velocityHigh))
      ensures Inside(command, hard) <==> Meet(Bounds(velocityLow, velocityHigh), hard)
      ensures Within(desired, Bounds(velocityLow, velocityHigh)) && Inside(desired, hard) ==> command == desired
      ensures enforced <==> command != desired
    {
      var low := if velocityLow.Some? then Max(velocityLow.value, hard.lower) else hard.lower;
      var high := if velocityHigh.Some? then Min(velocityHigh.value, hard.upper) else hard.upper;
      var b := Bounds(Some(low), Some(high));
      if low > high {
        b := Bounds(velocityLow, velocityHigh);
      }
      enforced := !Within(desired, b);
      command := ClampTo(desired, b);
    }
  }

  /** Wherever the previous command was, the command lies inside the soft position limits, hence inside
      the hard ones when the soft limits are nested in them. */
  lemma SoftCommandInside(l: Limits, s: SoftLimits, actualPosition: Option<real>, p: Option<real>, dt: real, command: real)
    requires Sane(l) && HasSoftPositionLimits(s) && Within(command, SoftBounds(l, s, actualPosition, p, dt))
    ensures s.minPosition.value <= command <= s.maxPosition.value
    ensures l.minPosition <= s.minPosition.value && s.maxPosition.value <= l.maxPosition ==> InBounds(l, command)
  {
  }

  /** The speed that is allowed at a distance from a soft limit. */
  function SpeedAt(k: real, distance: real): real {
    k * distance
  }

  /** Between its soft limits, a joint is commanded exactly to the positions between them that it reaches in
      one step with the maximum velocity and with a velocity in proportion to the distance of the limit
      that it moves to. */
  lemma SoftApproachIff(l: Limits, s: SoftLimits, actualPosition: Option<real>, p: real, dt: real, command: real)
    requires Sane(l) && l.hasPosition && l.hasVelocity && HasSoftLimits(s) && s.kPosition.value > 0.0 && dt > 0.0
    requires s.minPosition.value <= p <= s.maxPosition.value
    requires var actual := if actualPosition.Some? then actualPosition.value else p;
             s.minPosition.value <= actual <= s.maxPosition.value
             && l.minPosition - POSITION_BOUNDS_TOLERANCE <= actual <= l.maxPosition + POSITION_BOUNDS_TOLERANCE
    ensures var up := Min(l.maxVelocity, SpeedAt(s.kPosition.value, s.maxPosition.value - p));
            var down := Min(l.maxVelocity, SpeedAt(s.kPosition.value, p - s.minPosition.value));
            && down >= 0.0 && up >= 0.0
            && (Within(command, SoftBounds(l, s, actualPosition, Some(p), dt))
                <==> && s.minPosition.value <= command <= s.maxPosition.value
                     && p - down * dt <= command <= p + up * dt)
  {
    hide Pull;
    hide SpeedAt;
    hide SoftBounds;
    var k := s.kPosition.value;
    PullIs(k, p, s.minPosition.value);
    PullIs(k, p, s.maxPosition.value);
    Approach(l, s, actualPosition, p, SpeedAt(k, p - s.minPosition.value), SpeedAt(k, s.maxPosition.value - p), dt, command);
  }

  lemma Approach(l: Limits, s: SoftLimits, actualPosition: Option<real>, p: real, a: real, b: real, dt: real, command: real)
    requires Sane(l) && l.hasPosition && l.hasVelocity && HasSoftLimits(s) && s.kPosition.value > 0.0 && dt > 0.0
    requires s.minPosition.value <= p <= s.maxPosition.value && a >= 0.0 && b >= 0.0
    requires var actual := if actualPosition.Some? then actualPosition.value else p;
             s.minPosition.value <= actual <= s.maxPosition.value
             && l.minPosition - POSITION_BOUNDS_TOLERANCE <= actual <= l.maxPosition + POSITION_BOUNDS_TOLERANCE
    requires Pull(s.kPosition.value, p, s.minPosition.value) == -a && Pull(s.kPosition.value, p, s.maxPosition.value) == b
    ensures var up, down := Min(l.maxVelocity, b), Min(l.maxVelocity, a);
            && down >= 0.0 && up >= 0.0
            && (Within(command, SoftBounds(l, s, actualPosition, Some(p), dt))
                <==> && s.minPosition.value <= command <= s.maxPosition.value
                     && p - down * dt <= command <= p + up * dt)
  {
    hide Pull;
    hide SoftVelocities;
    hide ReachBounds;
    hide SoftPositions;
    var up, down := Min(l.maxVelocity, b), Min(l.maxVelocity, a);
    SoftVelocitiesBetween(l, s, actualPosition, p, down, up);
    hide Min;
    MulMonotone(0.0, up, dt);
    MulMonotone(0.0, down, dt);
    ReachedIs(p, down, up, dt);
    SoftReach(s, p, down * dt, up * dt, -down, up, dt, command);
  }

  lemma ReachedIs(p: real, down: real, up: real, dt: real)
    ensures Reached(p, -down, dt) == p - down * dt && Reached(p, up, dt) == p + up * dt
  {
    assert (-down) * dt == -(down * dt);
  }

  lemma PullIs(k: real, p: real, limit: real)
    requires k > 0.0
    ensures Pull(k, p, limit) == SpeedAt(k, limit - p) == -SpeedAt(k, p - limit)
    ensures limit > p <==> Pull(k, p, limit) > 0.0
    ensures limit < p <==> Pull(k, p, limit) < 0.0
  {
    assert k * (limit - p) == k * limit - k * p;
    if limit > p {
      assert k * (limit - p) > 0.0;
    } else if limit < p {
      assert k * (p - limit) > 0.0;
    }
  }

  lemma SoftVelocitiesBetween(l: Limits, s: SoftLimits, actualPosition: Option<real>, p: real, down: real, up: real)
    requires Sane(l) && l.hasPosition && HasSoftLimits(s) && s.kPosition.value > 0.0
    requires var actual := if actualPosition.Some? then actualPosition.value else p;
             s.minPosition.value <= actual <= s.maxPosition.value
             && l.minPosition - POSITION_BOUNDS_TOLERANCE <= actual <= l.maxPosition + POSITION_BOUNDS_TOLERANCE
    requires Pull(s.kPosition.value, p, s.minPosition.value) <= 0.0 <= Pull(s.kPosition.value, p, s.maxPosition.value)
    requires down == Min(l.maxVelocity, -Pull(s.kPosition.value, p, s.minPosition.value))
    requires up == Min(l.maxVelocity, Pull(s.kPosition.value, p, s.maxPosition.value))
    ensures SoftVelocities(l, s, actualPosition, p) == (-down, up) && down >= 0.0 && up >= 0.0
  {
    hide Pull;
  }

  lemma SoftVelocitiesBack(l: Limits, s: SoftLimits, actualPosition: Option<real>, p: real, v: real)
    requires Sane(l) && l.hasPosition && HasSoftLimits(s) && l.maxVelocity > 0.0
    requires var actual := if actualPosition.Some? then actualPosition.value else p;
             && l.minPosition - POSITION_BOUNDS_TOLERANCE <= actual <= l.maxPosition + POSITION_BOUNDS_TOLERANCE
             && (actual < s.minPosition.value || actual > s.maxPosition.value)
    requires var a, b := Pull(s.kPosition.value, p, s.minPosition.value), Pull(s.kPosition.value, p, s.maxPosition.value);
             (a > 0.0 && b > 0.0 && v == SOFT_LIMIT_REACH_VELOCITY) || (a < 0.0 && b < 0.0 && v == -SOFT_LIMIT_REACH_VELOCITY)
    ensures SoftVelocities(l, s, actualPosition, p) == (v, v)
  {
    hide Pull;
  }

  lemma SoftReach(s: SoftLimits, p: real, down: real, up: real, lower: real, upper: real, dt: real, command: real)
    requires HasSoftPositionLimits(s) && s.minPosition.value <= p <= s.maxPosition.value && down >= 0.0 && up >= 0.0
    requires Reached(p, lower, dt) == p - down && Reached(p, upper, dt) == p + up
    ensures Within(command, ReachBounds(s, p, (lower, upper), dt))
            <==> s.minPosition.value <= command <= s.maxPosition.value && p - down <= command <= p + up
  {
    hide Reached;
  }

  /** A joint that is out of its soft limits, as is its reference, but not far out of the hard ones, is
      commanded back at a fixed velocity, and no farther than to the soft limit that it has left, if it
      gets there. */
  lemma SoftReturn(l: Limits, s: SoftLimits, actualPosition: Option<real>, p: real, dt: real, command: real)
    requires Sane(l) && l.hasPosition && l.hasVelocity && l.maxVelocity > 0.0 && dt > 0.0
    requires HasSoftLimits(s) && s.kPosition.value > 0.0
    requires var actual := if actualPosition.Some? then actualPosition.value else p;
             && l.minPosition - POSITION_BOUNDS_TOLERANCE <= actual <= l.maxPosition + POSITION_BOUNDS_TOLERANCE
             && ((actual < s.minPosition.value && p < s.minPosition.value) || (actual > s.maxPosition.value && p > s.maxPosition.value))
    ensures var back := SOFT_LIMIT_REACH_VELOCITY * dt;
            Within(command, SoftBounds(l, s, actualPosition, Some(p), dt))
            <==> command == ClampTo(if p < s.minPosition.value then p + back else p - back, SoftPositions(s))
  {
    hide Pull;
    hide SoftVelocities;
    hide ReachBounds;
    PullIs(s.kPosition.value, p, s.minPosition.value);
    PullIs(s.kPosition.value, p, s.maxPosition.value);
    var v := if p < s.minPosition.value then SOFT_LIMIT_REACH_VELOCITY else -SOFT_LIMIT_REACH_VELOCITY;
    SoftVelocitiesBack(l, s, actualPosition, p, v);
    assert (-SOFT_LIMIT_REACH_VELOCITY) * dt == -(SOFT_LIMIT_REACH_VELOCITY * dt);
    OnePosition(s, p, v, dt, command);
  }

  lemma OnePosition(s: SoftLimits, p: real, v: real, dt: real, command: real)
    requires HasSoftPositionLimits(s)
    ensures Within(command, ReachBounds(s, p, (v, v), dt)) <==> command == ClampTo(Reached(p, v, dt), SoftPositions(s))
  {
    hide Reached;
  }

  /** A joint that is far out of its hard limits is held where its reference is, within the soft limits. */
  lemma SoftHold(l: Limits, s: SoftLimits, actual: real, p: real, dt: real, command: real)
    requires Sane(l) && l.hasPosition && l.hasVelocity && HasSoftLimits(s)
    requires actual < l.minPosition - POSITION_BOUNDS_TOLERANCE || actual > l.maxPosition + POSITION_BOUNDS_TOLERANCE
    ensures Within(command, SoftBounds(l, s, Some(actual), Some(p), dt)) <==> command == ClampTo(p, SoftPositions(s))
  {
    OnePosition(s, p, 0.0, dt, command);
  }

  /** A joint that is out of its soft limits while its reference is between them is commanded no farther from
      the reference than the fixed velocity leads, in both directions. */
  lemma SoftCreepIff(l: Limits, s: SoftLimits, actual: real, p: real, dt: real, command: real)
    requires Sane(l) && l.hasPosition && l.hasVelocity && l.maxVelocity > 0.0 && dt > 0.0
    requires HasSoftLimits(s) && s.kPosition.value > 0.0 && s.minPosition.value < p < s.maxPosition.value
    requires l.minPosition - POSITION_BOUNDS_TOLERANCE <= actual <= l.maxPosition + POSITION_BOUNDS_TOLERANCE
    requires actual < s.minPosition.value || actual > s.maxPosition.value
    ensures var way := SOFT_LIMIT_REACH_VELOCITY * dt;
            Within(command, SoftBounds(l, s, Some(actual), Some(p), dt))
            <==> s.minPosition.value <= command <= s.maxPosition.value && p - way <= command <= p + way
  {
    hide Pull;
    hide ReachBounds;
    PullIs(s.kPosition.value, p, s.minPosition.value);
    PullIs(s.kPosition.value, p, s.maxPosition.value);
    var v := SOFT_LIMIT_REACH_VELOCITY;
    assert SoftVelocities(l, s, Some(actual), p) == (-v, v);
    MulMonotone(0.0, v, dt);
    ReachedIs(p, v, v, dt);
    SoftReach(s, p, v * dt, v * dt, -v, v, dt, command);
  }

  /** Without soft limits, or without a position limit, only the maximum velocity counts. */
  lemma SoftAbsentIff(l: Limits, s: SoftLimits, actualPosition: Option<real>, p: real, dt: real, command: real)
    requires Sane(l) && l.hasVelocity && dt > 0.0 && (!l.hasPosition || !HasSoftLimits(s))
    requires HasSoftPositionLimits(s) ==> s.minPosition.value <= p <= s.maxPosition.value
    ensures Within(command, SoftBounds(l, s, actualPosition, Some(p), dt))
            <==> p - l.maxVelocity * dt <= command <= p + l.maxVelocity * dt
                 && (HasSoftPositionLimits(s) ==> s.minPosition.value <= command <= s.maxPosition.value)
  {
    MulMonotone(0.0, l.maxVelocity, dt);
    ReachedIs(p, l.maxVelocity, l.maxVelocity, dt);
    assert SoftVelocities(l, s, actualPosition, p) == (-l.maxVelocity, l.maxVelocity);
    FreeReach(s, p, l.maxVelocity * dt, -l.maxVelocity, l.maxVelocity, dt, command);
  }

  lemma FreeReach(s: SoftLimits, p: real, way: real, lower: real, upper: real, dt: real, command: real)
    requires way >= 0.0 && Reached(p, lower, dt) == p - way && Reached(p, upper, dt) == p + way
    requires HasSoftPositionLimits(s) ==> s.minPosition.value <= p <= s.maxPosition.value
    ensures Within(command, ReachBounds(s, p, (lower, upper), dt))
            <==> p - way <= command <= p + way
                 && (HasSoftPositionLimits(s) ==> s.minPosition.value <= command <= s.maxPosition.value)
  {
    hide Reached;
  }
}
