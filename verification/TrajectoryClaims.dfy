/** What the limiter for trajectory points guarantees, and what it does not
    (joint_saturation_limiter.cpp). */
module TrajectoryClaims {
  import opened Names
  import opened JointLimits
  import opened Reals
  import opened TrajectoryLimiter

  // ---- What the limits guarantee for one joint ----

  predicate Between(a: real, x: real, b: real) {
    a <= x <= b || b <= x <= a
  }

  lemma Times(a: real, b: real, dt: real)
    requires a <= b && dt >= 0.0
    ensures a * dt <= b * dt
  {
  }

  lemma Divided(a: real, dt: real)
    requires dt > 0.0
    ensures (a / dt) * dt == a
    ensures a >= 0.0 <==> a / dt >= 0.0
    ensures a > 0.0 <==> a / dt > 0.0
  {
  }

  /** An acceleration cut to a smaller one leads from `u` part of the way to `v`. */
  lemma CutAcceleration(u: real, v: real, dt: real, bound: real)
    requires dt > 0.0 && 0.0 <= bound <= Abs((v - u) / dt)
    ensures Between(u, u + CopySign(bound, (v - u) / dt) * dt, v)
    ensures Abs(CopySign(bound, (v - u) / dt) * dt) <= bound * dt
    ensures v > u ==> CopySign(bound, (v - u) / dt) * dt >= 0.0
    ensures v < u ==> CopySign(bound, (v - u) / dt) * dt <= 0.0
  {
    var a := (v - u) / dt;
    Divided(v - u, dt);
    if a >= 0.0 {
      Times(bound, a, dt);
      Times(0.0, bound, dt);
    } else {
      Times(a, -bound, dt);
      Times(-bound, 0.0, dt);
    }
  }

  /** The acceleration that a plan holds is none, or the one that leads to its velocity. */
  predicate Consistent(s: Setting, now: Reading, p: Plan)
    requires s.dt > 0.0
  {
    Abs(p.acceleration) <= VALUE_CONSIDERED_ZERO || p.acceleration == (p.velocity - now.velocity) / s.dt
  }

  /** The change of velocity is one that the limit on it allows. */
  predicate AccelerationRespected(l: Limits, now: Reading, velocity: real, dt: real) {
    var change := velocity - now.velocity;
    var bound := AccelerationLimit(l, change, now.velocity);
    bound.Some? ==> Abs(change) <= bound.value * dt
  }

  /** The acceleration that leads to the planned velocity. */
  function Leading(s: Setting, now: Reading, p: Plan): real
    requires s.dt > 0.0
  {
    (p.velocity - now.velocity) / s.dt
  }

  /** The velocity that the limit on this acceleration leaves. */
  function AfterCut(l: Limits, s: Setting, now: Reading, p: Plan): real
    requires s.dt > 0.0
  {
    var a := Leading(s, now, p);
    if IsCut(l, a, now.velocity) then Pushed(now, CopySign(AccelerationLimit(l, a, now.velocity).value, a), s.dt)
    else p.velocity
  }

  lemma AccelerationCases(l: Limits, s: Setting, now: Reading, p: Plan)
    requires Sane(l) && s.dt > 0.0 && Consistent(s, now, p)
    ensures LimitAcceleration(l, s, now, p).velocity == AfterCut(l, s, now, p)
  {
    hide CopySign;
    hide Moved;
    hide Pushed;
    hide Abs;
  }

  lemma AccelerationStage(l: Limits, s: Setting, now: Reading, p: Plan)
    requires Sane(l) && s.dt > 0.0 && Consistent(s, now, p)
    ensures Between(now.velocity, LimitAcceleration(l, s, now, p).velocity, p.velocity)
    ensures AccelerationRespected(l, now, LimitAcceleration(l, s, now, p).velocity, s.dt)
  {
    hide LimitAcceleration;
    AccelerationCases(l, s, now, p);
    var a := Leading(s, now, p);
    if IsCut(l, a, now.velocity) {
      CutStage(l, now, p.velocity, s.dt);
    } else {
      UncutRespected(l, now, p.velocity, s.dt);
    }
  }

  lemma CutStage(l: Limits, now: Reading, v: real, dt: real)
    requires Sane(l) && dt > 0.0 && IsCut(l, (v - now.velocity) / dt, now.velocity)
    ensures var a := (v - now.velocity) / dt;
            var w := Pushed(now, CopySign(AccelerationLimit(l, a, now.velocity).value, a), dt);
            Between(now.velocity, w, v) && AccelerationRespected(l, now, w, dt)
  {
    hide AccelerationRespected;
    var a := (v - now.velocity) / dt;
    var bound := AccelerationLimit(l, a, now.velocity).value;
    var change := CopySign(bound, a) * dt;
    CutAcceleration(now.velocity, v, dt, bound);
    Divided(v - now.velocity, dt);
    Divided(now.velocity - v, dt);
    CutRespected(l, now, a, change, dt);
    assert Pushed(now, CopySign(bound, a), dt) == now.velocity + change;
  }

  lemma CutRespected(l: Limits, now: Reading, acceleration: real, change: real, dt: real)
    requires Sane(l) && dt > 0.0 && (acceleration > 0.0 ==> change >= 0.0) && (acceleration < 0.0 ==> change <= 0.0)
    requires acceleration != 0.0
    requires AccelerationLimit(l, acceleration, now.velocity).Some?
    requires Abs(change) <= AccelerationLimit(l, acceleration, now.velocity).value * dt
    ensures AccelerationRespected(l, now, now.velocity + change, dt)
  {
    Times(0.0, l.maxAcceleration, dt);
    Times(0.0, l.maxDeceleration, dt);
  }

  lemma UncutRespected(l: Limits, now: Reading, v: real, dt: real)
    requires Sane(l) && dt > 0.0
    requires var a := (v - now.velocity) / dt;
             var bound := AccelerationLimit(l, a, now.velocity);
             bound.Some? ==> Abs(a) <= bound.value
    ensures AccelerationRespected(l, now, v, dt)
  {
    var a := (v - now.velocity) / dt;
    Divided(v - now.velocity, dt);
    Divided(now.velocity - v, dt);
    var bound := AccelerationLimit(l, a, now.velocity);
    assert AccelerationLimit(l, v - now.velocity, now.velocity) == bound;
    if bound.Some? {
      Times(a, bound.value, dt);
      Times(-bound.value, a, dt);
    }
  }

  lemma BetweenDivided(a: real, b: real, dt: real)
    requires dt > 0.0 && Between(0.0, a, b)
    ensures Between(0.0, a / dt, b / dt)
  {
    Divided(a, dt);
    Divided(-a, dt);
    Divided(b - a, dt);
    Divided(a - b, dt);
  }

  lemma LookAheadStage(l: Limits, s: Setting, now: Reading, p: Plan)
    requires Sane(l) && s.dt > 0.0 && (l.hasPosition ==> InBounds(l, now.position))
    ensures Between(0.0, LookAhead(l, s, now, p).velocity, p.velocity)
    ensures l.hasPosition && s.givesVelocity && !s.givesPosition ==>
              InBounds(l, Reached(now, LookAhead(l, s, now, p).velocity, s.dt))
  {
    if l.hasPosition && s.givesVelocity && !s.givesPosition {
      var expected := Reached(now, p.velocity, s.dt);
      var position := Clamp(expected, Positions(l));
      BetweenDivided(position - now.position, expected - now.position, s.dt);
      Divided(position - now.position, s.dt);
      Quotient(p.velocity, s.dt);
    }
  }

  lemma Quotient(v: real, dt: real)
    requires dt > 0.0
    ensures v * dt / dt == v
  {
  }

  lemma VelocityStage(l: Limits, s: Setting, now: Reading, p: Plan)
    requires Sane(l) && s.dt > 0.0 && Consistent(s, now, p) && Abs(p.acceleration) <= VALUE_CONSIDERED_ZERO
    ensures Consistent(s, now, LimitVelocity(l, s, now, p))
    ensures l.hasVelocity ==> Abs(LimitVelocity(l, s, now, p).velocity) <= l.maxVelocity
  {
  }

  /** The joint is inside its limits. */
  predicate Calm(l: Limits, now: Reading) {
    (l.hasPosition ==> InBounds(l, now.position)) && (l.hasVelocity ==> Abs(now.velocity) <= l.maxVelocity)
  }

  lemma PlannedStages(l: Limits, s: Setting, now: Reading, wish: Plan)
    requires Sane(l) && s.dt > 0.0 && Calm(l, now) && wish.acceleration == 0.0
    ensures l.hasVelocity ==> Abs(Planned(l, s, now, wish).velocity) <= l.maxVelocity
    ensures s.givesPosition || !l.hasPosition ==> AccelerationRespected(l, now, Planned(l, s, now, wish).velocity, s.dt)
    ensures l.hasPosition && s.givesVelocity && !s.givesPosition ==>
              InBounds(l, Reached(now, Planned(l, s, now, wish).velocity, s.dt))
  {
    hide LimitVelocity;
    hide LimitAcceleration;
    hide AccelerationRespected;
    var p := LimitPosition(l, s, now, wish);
    var q := LimitVelocity(l, s, now, p);
    var r := LimitAcceleration(l, s, now, q);
    VelocityStage(l, s, now, p);
    AccelerationStage(l, s, now, q);
    LookAheadStage(l, s, now, r);
  }

  lemma BrakeStage(l: Limits, s: Setting, now: Reading, p: Plan)
    requires Sane(l) && s.dt > 0.0 && s.givesVelocity
    ensures Between(0.0, Braked(l, s, now, p).velocity, now.velocity)
    ensures AccelerationRespected(l, now, Braked(l, s, now, p).velocity, s.dt)
  {
    hide AccelerationRespected;
    var full := -now.velocity / s.dt;
    var brake := Brake(l, now.velocity, s.dt);
    assert full == (0.0 - now.velocity) / s.dt;
    CutAcceleration(now.velocity, 0.0, s.dt, Abs(brake));
    assert brake == CopySign(Abs(brake), full);
    BrakeRespected(l, now, brake, s.dt);
  }

  lemma BrakeRespected(l: Limits, now: Reading, brake: real, dt: real)
    requires Sane(l) && dt > 0.0 && Between(0.0, Pushed(now, brake, dt), now.velocity)
    requires l.hasDeceleration ==> Abs(brake) <= l.maxDeceleration
    requires !l.hasDeceleration && l.hasAcceleration ==> Abs(brake) <= l.maxAcceleration
    ensures AccelerationRespected(l, now, Pushed(now, brake, dt), dt)
  {
    Times(0.0, l.maxAcceleration, dt);
    Times(0.0, l.maxDeceleration, dt);
    if l.hasDeceleration {
      Times(brake, l.maxDeceleration, dt);
      Times(-l.maxDeceleration, brake, dt);
    } else if l.hasAcceleration {
      Times(brake, l.maxAcceleration, dt);
      Times(-l.maxAcceleration, brake, dt);
    }
  }

  /** The change from `u` to `v` is within the given bounds, if there are any. */
  predicate WithinBounds(faster: Option<real>, slower: Option<real>, u: real, v: real) {
    var bound := if slower.Some? && ((v < u && u > 0.0) || (v > u && u < 0.0)) then slower else faster;
    bound.Some? ==> Abs(v - u) <= bound.value
  }

  lemma RespectedIs(l: Limits, now: Reading, v: real, dt: real)
    ensures AccelerationRespected(l, now, v, dt)
            <==> WithinBounds(if l.hasAcceleration then Some(l.maxAcceleration * dt) else None,
                              if l.hasDeceleration then Some(l.maxDeceleration * dt) else None, now.velocity, v)
  {
  }

  /** A change within bounds, slowed down to `reach` at most. */
  lemma SlowedWithinBoundsIff(faster: Option<real>, slower: Option<real>, u: real, v: real, reach: real, reachNow: real)
    requires WithinBounds(faster, slower, u, v) && reach >= 0.0 && reachNow >= 0.0
    requires faster.Some? ==> faster.value >= 0.0
    requires slower.Some? ==> slower.value >= 0.0
    requires (v < 0.0 <==> u < 0.0) ==> reach == reachNow
    ensures var bound := if slower.Some? then slower else faster;
            WithinBounds(faster, slower, u, CopySign(Min(Abs(v), reach), v))
            <==> (bound.None? || Abs(u) - reachNow <= bound.value)
  {
  }

  lemma SlowedRespectedIff(l: Limits, now: Reading, v: real, reach: real, reachNow: real, dt: real)
    requires Sane(l) && dt > 0.0 && AccelerationRespected(l, now, v, dt) && reach >= 0.0 && reachNow >= 0.0
    requires (v < 0.0 <==> now.velocity < 0.0) ==> reach == reachNow
    ensures AccelerationRespected(l, now, CopySign(Min(Abs(v), reach), v), dt)
            <==> (SlowingLimit(l).None? || Abs(now.velocity) - reachNow <= SlowingLimit(l).value * dt)
  {
    hide AccelerationRespected;
    hide WithinBounds;
    hide CopySign;
    Times(0.0, l.maxAcceleration, dt);
    Times(0.0, l.maxDeceleration, dt);
    RespectedIs(l, now, v, dt);
    RespectedIs(l, now, CopySign(Min(Abs(v), reach), v), dt);
    SlowedWithinBoundsIff(if l.hasAcceleration then Some(l.maxAcceleration * dt) else None,
                          if l.hasDeceleration then Some(l.maxDeceleration * dt) else None,
                          now.velocity, v, reach, reachNow);
  }

  // ---- What the limiter guarantees ----

  /** All joints are inside their limits, velocities are requested and accelerations are not. */
  predicate Ready(limits: seq<Limits>, current: Point, desired: Point, dt: real) {
    && AllSane(limits) && Usable(|limits|, current, desired, dt)
    && Given(desired.velocities, |limits|) && !Given(desired.accelerations, |limits|)
    && forall i :: 0 <= i < |limits| ==> Calm(limits[i], ReadingOf(|limits|, current, i))
  }

  lemma VelocitiesBounded(limits: seq<Limits>, current: Point, desired: Point, dt: real, i: nat)
    requires Ready(limits, current, desired, dt) && i < |limits|
    ensures limits[i].hasVelocity ==>
              -limits[i].maxVelocity <= Commands(limits, current, desired, dt).velocities[i] <= limits[i].maxVelocity
  {
    hide Planned;
    hide Braked;
    hide AccelerationRespected;
    var s, now := SettingOf(|limits|, desired, dt), ReadingOf(|limits|, current, i);
    PlannedStages(limits[i], s, now, WishOf(|limits|, desired, i));
    BrakeStage(limits[i], s, now, PlanOf(limits, current, desired, dt, i));
  }

  /** How far it is to the limit in the direction of a velocity. */
  function Gap(l: Limits, now: Reading, velocity: real): real {
    if velocity < 0.0 then now.position - l.minPosition else l.maxPosition - now.position
  }

  /** The velocity that the look-ahead leaves. */
  function Ahead(l: Limits, now: Reading, v: real, dt: real): real
    requires Sane(l) && dt > 0.0
  {
    var expected := Reached(now, v, dt);
    var position := Clamp(expected, Positions(l));
    if position != expected then (position - now.position) / dt else v
  }

  lemma AheadUp(l: Limits, now: Reading, v: real, dt: real)
    requires Sane(l) && dt > 0.0 && InBounds(l, now.position) && v >= 0.0
    ensures Ahead(l, now, v, dt) == Min(v, (l.maxPosition - now.position) / dt)
  {
    DivisionBound(l.maxPosition - now.position, v, dt);
    Times(0.0, v, dt);
  }

  lemma AheadDown(l: Limits, now: Reading, v: real, dt: real)
    requires Sane(l) && dt > 0.0 && InBounds(l, now.position) && v < 0.0
    ensures Ahead(l, now, v, dt) == -Min(-v, (now.position - l.minPosition) / dt)
  {
    var gap := now.position - l.minPosition;
    DivisionBound(gap, -v, dt);
    Times(v, 0.0, dt);
    Negated(v, gap, dt);
    assert Reached(now, v, dt) == now.position - (-v) * dt;
    assert l.minPosition - now.position == -gap;
  }

  lemma Negated(v: real, gap: real, dt: real)
    requires dt > 0.0
    ensures (-v) * dt == -(v * dt)
    ensures (-gap) / dt == -(gap / dt)
  {
  }

  /** The look-ahead keeps the direction of a velocity, and slows it down to what reaches the limit. */
  lemma LookAheadIs(l: Limits, s: Setting, now: Reading, p: Plan)
    requires Sane(l) && s.dt > 0.0 && LooksAhead(l, s) && InBounds(l, now.position)
    ensures LookAhead(l, s, now, p).velocity
         == CopySign(Min(Abs(p.velocity), Gap(l, now, p.velocity) / s.dt), p.velocity)
  {
    hide Reached;
    Divided(Gap(l, now, p.velocity), s.dt);
    assert LookAhead(l, s, now, p).velocity == Ahead(l, now, p.velocity, s.dt);
    if p.velocity < 0.0 {
      AheadDown(l, now, p.velocity, s.dt);
    } else {
      AheadUp(l, now, p.velocity, s.dt);
    }
  }

  /** With any request, a returned velocity of a joint inside its limits is within the maximum exactly
      when all joints brake, or its acceleration is not cut, or the velocity that the cut acceleration
      leads to is within the maximum, or the look-ahead slows it down to that. */
  lemma VelocityBoundedIff(limits: seq<Limits>, current: Point, desired: Point, dt: real, i: nat)
    requires AllSane(limits) && Usable(|limits|, current, desired, dt) && Given(desired.velocities, |limits|)
    requires i < |limits| && limits[i].hasVelocity && Calm(limits[i], ReadingOf(|limits|, current, i))
    ensures var l, now := limits[i], ReadingOf(|limits|, current, i);
            Abs(Commands(limits, current, desired, dt).velocities[i]) <= l.maxVelocity
            <==> (|| Braking(limits, current, desired, dt)
                  || !CutAt(limits, current, desired, dt, i)
                  || CutVelocityBounded(l, SettingOf(|limits|, desired, dt), now,
                                        CutTo(l, WantedOf(limits, current, desired, dt, i), now.velocity)))
  {
    hide LimitPosition;
    hide LimitVelocity;
    hide LimitAcceleration;
    hide LookAhead;
    hide Braked;
    hide Braking;
    hide WantedAcceleration;
    hide CutTo;
    hide Pushed;
    var l, s, now := limits[i], SettingOf(|limits|, desired, dt), ReadingOf(|limits|, current, i);
    var q := SoughtOf(limits, current, desired, dt, i);
    var r := LimitAcceleration(l, s, now, q);
    SpeedLimited(l, s, now, LimitPosition(l, s, now, WishOf(|limits|, desired, i)));
    UncutIsKept(l, s, now, q);
    BrakeStage(l, s, now, PlanOf(limits, current, desired, dt, i));
    LookAheadStage(l, s, now, r);
    LookAheadBounded(l, s, now, r);
  }

  predicate CutVelocityBounded(l: Limits, s: Setting, now: Reading, acceleration: real)
    requires s.dt > 0.0
  {
    var v := Pushed(now, acceleration, s.dt);
    Abs(v) <= l.maxVelocity || (LooksAhead(l, s) && Gap(l, now, v) / s.dt <= l.maxVelocity)
  }

  lemma SpeedLimited(l: Limits, s: Setting, now: Reading, p: Plan)
    requires Sane(l) && s.dt > 0.0 && l.hasVelocity
    ensures Abs(LimitVelocity(l, s, now, p).velocity) <= l.maxVelocity
  {
    hide Rate;
    hide Reached;
  }

  lemma LookAheadBounded(l: Limits, s: Setting, now: Reading, p: Plan)
    requires Sane(l) && s.dt > 0.0 && (l.hasPosition ==> InBounds(l, now.position))
    ensures Abs(LookAhead(l, s, now, p).velocity) <= l.maxVelocity
            <==> (Abs(p.velocity) <= l.maxVelocity || (LooksAhead(l, s) && Gap(l, now, p.velocity) / s.dt <= l.maxVelocity))
  {
    hide LookAhead;
    if LooksAhead(l, s) {
      Divided(Gap(l, now, p.velocity), s.dt);
      LookAheadIs(l, s, now, p);
    } else {
      NoLookAhead(l, s, now, p);
    }
  }

  lemma NoLookAhead(l: Limits, s: Setting, now: Reading, p: Plan)
    requires Sane(l) && s.dt > 0.0 && !LooksAhead(l, s)
    ensures LookAhead(l, s, now, p) == p
  {
  }

  /** The limit on slowing down. */
  function SlowingLimit(l: Limits): Option<real> {
    if l.hasDeceleration then Some(l.maxDeceleration) else if l.hasAcceleration then Some(l.maxAcceleration) else None
  }

  /** Without an acceleration request, the change of a returned velocity is one that the limits allow
      exactly when all joints brake, or the look-ahead takes no part, or the joint is not so close to its
      limit, and so fast, that reaching it in one step takes more deceleration than allowed. */
  lemma AccelerationRespectedIff(limits: seq<Limits>, current: Point, desired: Point, dt: real, i: nat)
    requires Ready(limits, current, desired, dt) && i < |limits|
    ensures var l, now := limits[i], ReadingOf(|limits|, current, i);
            AccelerationRespected(l, now, Commands(limits, current, desired, dt).velocities[i], dt)
            <==> (|| Braking(limits, current, desired, dt)
                  || !LooksAhead(l, SettingOf(|limits|, desired, dt))
                  || SlowingLimit(l).None?
                  || Abs(now.velocity) - Gap(l, now, now.velocity) / dt <= SlowingLimit(l).value * dt)
  {
    hide LimitVelocity;
    hide LimitAcceleration;
    hide LookAhead;
    hide Braked;
    hide Braking;
    hide AccelerationRespected;
    var l, s, now := limits[i], SettingOf(|limits|, desired, dt), ReadingOf(|limits|, current, i);
    var p := LimitPosition(l, s, now, WishOf(|limits|, desired, i));
    var q := LimitVelocity(l, s, now, p);
    var r := LimitAcceleration(l, s, now, q);
    VelocityStage(l, s, now, p);
    AccelerationStage(l, s, now, q);
    BrakeStage(l, s, now, PlanOf(limits, current, desired, dt, i));
    if LooksAhead(l, s) {
      LookAheadIs(l, s, now, r);
      Divided(Gap(l, now, r.velocity), dt);
      Divided(Gap(l, now, now.velocity), dt);
      SlowedRespectedIff(l, now, r.velocity, Gap(l, now, r.velocity) / dt, Gap(l, now, now.velocity) / dt, dt);
    } else {
      NoLookAhead(l, s, now, r);
    }
  }

  /** While braking, no joint moves faster than before, and none reverses. */
  lemma BrakingSlowsDown(limits: seq<Limits>, current: Point, desired: Point, dt: real, i: nat)
    requires AllSane(limits) && Usable(|limits|, current, desired, dt) && Given(desired.velocities, |limits|)
    requires Braking(limits, current, desired, dt) && i < |limits|
    ensures Between(0.0, Commands(limits, current, desired, dt).velocities[i], ReadingOf(|limits|, current, i).velocity)
  {
    hide Planned;
    hide Braked;
    BrakeStage(limits[i], SettingOf(|limits|, desired, dt), ReadingOf(|limits|, current, i),
               PlanOf(limits, current, desired, dt, i));
  }

  /** A joint without limits on its motion whose requested velocity counts as zero gets the velocity that leads
      to the position that is returned, unless it is there already. */
  lemma MissingVelocityIsDerived(limits: seq<Limits>, current: Point, desired: Point, dt: real, i: nat)
    requires AllSane(limits) && Usable(|limits|, current, desired, dt) && i < |limits| && !Braking(limits, current, desired, dt)
    requires Given(desired.positions, |limits|) && Given(desired.velocities, |limits|)
    requires !limits[i].hasVelocity && !limits[i].hasAcceleration && !limits[i].hasDeceleration
    requires Abs(desired.velocities[i]) <= VALUE_CONSIDERED_ZERO
    ensures var r := Commands(limits, current, desired, dt);
            var way := r.positions[i] - current.positions[i];
            && r.positions[i] == (if limits[i].hasPosition then Clamp(desired.positions[i], Positions(limits[i])) else desired.positions[i])
            && r.velocities[i] == if Abs(way) > VALUE_CONSIDERED_ZERO then way / dt else desired.velocities[i]
  {
    hide Braking;
  }

  /** While braking, every joint brakes as hard as it may: it comes to rest in one step, or its returned
      acceleration is the largest that slowing down allows. */
  lemma BrakingIsHard(limits: seq<Limits>, current: Point, desired: Point, dt: real, i: nat)
    requires AllSane(limits) && Usable(|limits|, current, desired, dt) && Given(desired.accelerations, |limits|)
    requires Braking(limits, current, desired, dt) && i < |limits|
    ensures var l, v := limits[i], ReadingOf(|limits|, current, i).velocity;
            var a := Commands(limits, current, desired, dt).accelerations[i];
            && (v >= 0.0 ==> a <= 0.0) && (v <= 0.0 ==> a >= 0.0)
            && (v + a * dt == 0.0
                || (if l.hasDeceleration then Abs(a) == l.maxDeceleration else l.hasAcceleration && Abs(a) == l.maxAcceleration))
  {
    hide Planned;
    BrakeIsHard(limits[i], ReadingOf(|limits|, current, i).velocity, dt);
  }

  lemma BrakeIsHard(l: Limits, v: real, dt: real)
    requires Sane(l) && dt > 0.0
    ensures var a := Brake(l, v, dt);
            && (v >= 0.0 ==> a <= 0.0) && (v <= 0.0 ==> a >= 0.0)
            && (v + a * dt == 0.0
                || (if l.hasDeceleration then Abs(a) == l.maxDeceleration else l.hasAcceleration && Abs(a) == l.maxAcceleration))
    ensures AccelerationAllowed(l, Brake(l, v, dt), v)
  {
    Divided(-v, dt);
    Divided(v, dt);
  }

  /** For any request, every returned acceleration is within its limit, braking or not. */
  lemma AccelerationsBounded(limits: seq<Limits>, current: Point, desired: Point, dt: real, i: nat)
    requires AllSane(limits) && Usable(|limits|, current, desired, dt) && Given(desired.accelerations, |limits|) && i < |limits|
    ensures AccelerationAllowed(limits[i], Commands(limits, current, desired, dt).accelerations[i],
                                ReadingOf(|limits|, current, i).velocity)
  {
    hide LimitPosition;
    hide LimitVelocity;
    hide LimitAcceleration;
    hide LookAhead;
    hide Brake;
    hide AccelerationAllowed;
    var l, s, now := limits[i], SettingOf(|limits|, desired, dt), ReadingOf(|limits|, current, i);
    BrakeIsHard(l, now.velocity, dt);
    LimitedAcceleration(l, s, now, SoughtOf(limits, current, desired, dt, i));
    LookAheadKeepsRest(l, s, now, LimitAcceleration(l, s, now, SoughtOf(limits, current, desired, dt, i)));
  }

  lemma LookAheadKeepsRest(l: Limits, s: Setting, now: Reading, p: Plan)
    requires Sane(l) && s.dt > 0.0
    ensures LookAhead(l, s, now, p).acceleration == p.acceleration && LookAhead(l, s, now, p).position == p.position
    ensures LookAhead(l, s, now, p).velocity == p.velocity
            <==> !(LooksAhead(l, s) && !InBounds(l, now.position + p.velocity * s.dt))
  {
    if LooksAhead(l, s) {
      var position := Clamp(now.position + p.velocity * s.dt, Positions(l));
      Divided(position - now.position, s.dt);
      Quotient(p.velocity, s.dt);
    }
  }

  lemma LimitedAcceleration(l: Limits, s: Setting, now: Reading, q: Plan)
    requires Sane(l) && s.dt > 0.0
    ensures var w, a := WantedAcceleration(s, now, q), LimitAcceleration(l, s, now, q).acceleration;
            && AccelerationAllowed(l, a, now.velocity)
            && (if AccelerationAllowed(l, w, now.velocity)
                then a == if l.hasAcceleration || l.hasDeceleration then w else q.acceleration
                else Abs(a) < Abs(w) && (w >= 0.0 ==> a >= 0.0) && (w <= 0.0 ==> a <= 0.0) && Tight(l, a, w, now.velocity))
            && (IsCut(l, w, now.velocity) <==> !AccelerationAllowed(l, w, now.velocity))
  {
    hide WantedAcceleration;
    hide Pushed;
    hide Moved;
  }

  /** No larger acceleration in the direction of `wanted` would be allowed. */
  predicate Tight(l: Limits, a: real, wanted: real, velocity: real) {
    if l.hasDeceleration && ((wanted < 0.0 && velocity > 0.0) || (wanted > 0.0 && velocity < 0.0)) then Abs(a) == l.maxDeceleration
    else l.hasAcceleration && Abs(a) == l.maxAcceleration
  }

  /** Without braking, the acceleration that is wanted is returned if its limit allows it; otherwise the
      largest that is allowed in its direction. A joint without limits keeps the one that is sought. */
  lemma AccelerationsKeptIff(limits: seq<Limits>, current: Point, desired: Point, dt: real, i: nat)
    requires AllSane(limits) && Usable(|limits|, current, desired, dt) && Given(desired.accelerations, |limits|)
    requires i < |limits| && !Braking(limits, current, desired, dt)
    ensures var l, v := limits[i], ReadingOf(|limits|, current, i).velocity;
            var w, a := WantedOf(limits, current, desired, dt, i), Commands(limits, current, desired, dt).accelerations[i];
            if AccelerationAllowed(l, w, v)
            then a == if l.hasAcceleration || l.hasDeceleration then w else SoughtOf(limits, current, desired, dt, i).acceleration
            else Abs(a) < Abs(w) && (w >= 0.0 ==> a >= 0.0) && (w <= 0.0 ==> a <= 0.0) && Tight(l, a, w, v)
    ensures var v := limits[i].maxVelocity - Abs(WantedVelocityOf(limits, current, desired, dt, i));
            SoughtOf(limits, current, desired, dt, i).acceleration
            == if limits[i].hasVelocity && v < 0.0
               then (SoughtOf(limits, current, desired, dt, i).velocity - ReadingOf(|limits|, current, i).velocity) / dt
               else desired.accelerations[i]
  {
    hide LimitAcceleration;
    hide LookAhead;
    hide AccelerationAllowed;
    hide Tight;
    hide IsCut;
    hide Braking;
    var l, s, now := limits[i], SettingOf(|limits|, desired, dt), ReadingOf(|limits|, current, i);
    var q := SoughtOf(limits, current, desired, dt, i);
    SoughtAccelerationIs(l, s, now, WishOf(|limits|, desired, i));
    LimitedAcceleration(l, s, now, q);
    LookAheadKeepsRest(l, s, now, LimitAcceleration(l, s, now, q));
  }

  lemma SoughtAccelerationIs(l: Limits, s: Setting, now: Reading, wish: Plan)
    requires Sane(l) && s.dt > 0.0
    ensures var p := LimitPosition(l, s, now, wish);
            var q := LimitVelocity(l, s, now, p);
            q.acceleration == if l.hasVelocity && Abs(WantedVelocity(s, now, p)) > l.maxVelocity
                              then (q.velocity - now.velocity) / s.dt else wish.acceleration
  {
  }

  /** When the joint brakes or its acceleration is cut, what is returned agrees: the position is the one
      after one step with the returned acceleration, and so is the velocity, unless the look-ahead has
      to shorten a step that would leave the position limits. */
  lemma ReturnedValuesAgreeIff(limits: seq<Limits>, current: Point, desired: Point, dt: real, i: nat)
    requires AllSane(limits) && Usable(|limits|, current, desired, dt) && Given(desired.accelerations, |limits|) && i < |limits|
    requires Braking(limits, current, desired, dt) || CutAt(limits, current, desired, dt, i)
    ensures var l, r := limits[i], Commands(limits, current, desired, dt);
            var x, v, a := current.positions[i], ReadingOf(|limits|, current, i).velocity, r.accelerations[i];
            && (Given(desired.positions, |limits|) ==> r.positions[i] == x + v * dt + 0.5 * a * dt * dt)
            && (Given(desired.velocities, |limits|) ==>
                  (r.velocities[i] == v + a * dt
                   <==> || Braking(limits, current, desired, dt)
                        || !LooksAhead(l, SettingOf(|limits|, desired, dt))
                        || InBounds(l, x + (v + a * dt) * dt)))
  {
    hide LimitPosition;
    hide LimitVelocity;
    hide LimitAcceleration;
    hide LookAhead;
    hide Brake;
    hide WantedAcceleration;
    hide CutTo;
    hide IsCut;
    var l, s, now := limits[i], SettingOf(|limits|, desired, dt), ReadingOf(|limits|, current, i);
    var q := SoughtOf(limits, current, desired, dt, i);
    CutAgrees(l, s, now, q);
    LookAheadKeepsRest(l, s, now, LimitAcceleration(l, s, now, q));
  }

  lemma CutAgrees(l: Limits, s: Setting, now: Reading, q: Plan)
    requires Sane(l) && s.dt > 0.0
    ensures IsCut(l, WantedAcceleration(s, now, q), now.velocity) ==>
              var r := LimitAcceleration(l, s, now, q);
              && r.velocity == now.velocity + r.acceleration * s.dt
              && (s.givesPosition ==> r.position == now.position + now.velocity * s.dt + 0.5 * r.acceleration * s.dt * s.dt)
  {
    hide WantedAcceleration;
    hide CutTo;
  }

  /** Unless all joints brake, every returned velocity is one from which the joint can still come to
      rest before its limit. */
  lemma CanStillStop(limits: seq<Limits>, current: Point, desired: Point, dt: real, i: nat)
    requires AllSane(limits) && Usable(|limits|, current, desired, dt) && Given(desired.velocities, |limits|)
    requires !Braking(limits, current, desired, dt) && i < |limits| && limits[i].hasPosition
    ensures var v := Commands(limits, current, desired, dt).velocities[i];
            var x := current.positions[i];
            var d := if limits[i].hasDeceleration then limits[i].maxDeceleration
                     else if limits[i].hasAcceleration then limits[i].maxAcceleration else Abs(v) / dt;
            v != 0.0 ==> (d > 0.0
                          && (v > 0.0 ==> x + v * v / (2.0 * d) <= limits[i].maxPosition)
                          && (v < 0.0 ==> limits[i].minPosition <= x - v * v / (2.0 * d)))
  {
    hide Planned;
    hide StoppingDistance;
    hide StoppingDeceleration;
    hide Abs;
    assert !BrakesAt(limits, current, desired, dt, i);
    var v := PlanOf(limits, current, desired, dt, i).velocity;
    var d := StoppingDeceleration(limits[i], v, dt);
    StoppingDecelerationIs(limits[i], v, dt);
    if v != 0.0 {
      assert d != 0.0;
      StoppingDistanceIs(v, d);
    }
  }

  lemma StoppingDecelerationIs(l: Limits, v: real, dt: real)
    requires Sane(l) && dt > 0.0
    ensures var d := StoppingDeceleration(l, v, dt);
            && d >= 0.0
            && d == (if l.hasDeceleration then l.maxDeceleration else if l.hasAcceleration then l.maxAcceleration else Abs(v) / dt)
  {
    Divided(v, dt);
    Divided(-v, dt);
    assert (-v) / dt == -(v / dt);
  }

  /** Downwards, the check of the motion while stopping never holds for a joint inside its limits: it
      brakes exactly when the stopping distance is too long. */
  lemma DownwardBrakesIff(l: Limits, s: Setting, now: Reading, velocity: real)
    requires Sane(l) && s.dt > 0.0 && l.hasPosition && InBounds(l, now.position) && velocity < 0.0
    requires StoppingDeceleration(l, velocity, s.dt) > 0.0
    ensures MustBrake(l, s, now, velocity)
            <==> now.position - l.minPosition < StoppingDistance(velocity, StoppingDeceleration(l, velocity, s.dt))
  {
    hide StoppingDistance;
    var d := StoppingDeceleration(l, velocity, s.dt);
    assert Abs(velocity / d) >= 0.0;
    Times(velocity, 0.0, Abs(velocity / d));
  }

  /** Upwards, it is the motion while stopping that counts, twice the stopping distance. */
  lemma UpwardBrakesIff(l: Limits, s: Setting, now: Reading, velocity: real)
    requires Sane(l) && s.dt > 0.0 && l.hasPosition && velocity > 0.0
    requires StoppingDeceleration(l, velocity, s.dt) > 0.0
    ensures MustBrake(l, s, now, velocity)
            <==> l.maxPosition - now.position < velocity * velocity / StoppingDeceleration(l, velocity, s.dt)
  {
    var d := StoppingDeceleration(l, velocity, s.dt);
    StoppingDistanceIs(velocity, d);
    MotionIs(velocity, d);
  }

  lemma MotionIs(v: real, d: real)
    requires d > 0.0 && v > 0.0
    ensures v * Abs(v / d) == v * v / d && v * v / (2.0 * d) <= v * v / d
  {
    Divided(v, d);
    assert v * (v / d) == v * v / d;
    assert v * v > 0.0;
    assert v * v / (2.0 * d) == (v * v / d) / 2.0;
    Divided(v * v, d);
  }

  /** Of two joints that are mirror images of each other, the one that moves upwards brakes and the other
      does not. */
  lemma BrakingIsLopsided()
    ensures var l := PLAIN.(hasPosition := true, hasAcceleration := true);
            var s := Setting(0.1, false, true);
            && MustBrake(l, s, Reading(0.25, 1.0), 1.0)
            && !MustBrake(l, s, Reading(0.75, -1.0), -1.0)
  {
  }

  lemma StoppingDistanceIs(v: real, d: real)
    requires d > 0.0
    ensures StoppingDistance(v, d) == v * v / (2.0 * d)
  {
    assert v * v >= 0.0;
    Divided(v * v, 2.0 * d);
    assert -v * v / (2.0 * d) == -(v * v / (2.0 * d));
  }

  /** Unless all joints brake, a request of velocities alone keeps every joint inside its position
      limits for the next step. */
  lemma NextPositionsInside(limits: seq<Limits>, current: Point, desired: Point, dt: real, i: nat)
    requires Ready(limits, current, desired, dt) && !Given(desired.positions, |limits|) && i < |limits|
    requires limits[i].hasPosition && !Braking(limits, current, desired, dt)
    ensures InBounds(limits[i], current.positions[i] + Commands(limits, current, desired, dt).velocities[i] * dt)
  {
    hide Planned;
    hide AccelerationRespected;
    PlannedStages(limits[i], SettingOf(|limits|, desired, dt), ReadingOf(|limits|, current, i), WishOf(|limits|, desired, i));
  }

  /** A request that no limit changes is returned as it is, but for velocities and accelerations that count
      as zero. */
  lemma UnlimitedIsKept(limits: seq<Limits>, current: Point, desired: Point, dt: real)
    requires AllSane(limits) && Usable(|limits|, current, desired, dt) && !Enforces(limits, current, desired, dt)
    ensures var r := Commands(limits, current, desired, dt);
            && r.positions == desired.positions
            && |r.velocities| == |desired.velocities|
            && (forall i :: 0 <= i < |r.velocities| && Abs(desired.velocities[i]) > VALUE_CONSIDERED_ZERO ==>
                              r.velocities[i] == desired.velocities[i])
            && |r.accelerations| == |desired.accelerations|
            && (forall i :: 0 <= i < |r.accelerations| && Abs(desired.accelerations[i]) > VALUE_CONSIDERED_ZERO ==>
                              r.accelerations[i] == desired.accelerations[i])
  {
    hide Planned;
    var r := Commands(limits, current, desired, dt);
    forall i | 0 <= i < |limits|
      ensures OutcomeOf(limits, current, desired, dt, i).position == WishOf(|limits|, desired, i).position
      ensures Abs(WishOf(|limits|, desired, i).velocity) > VALUE_CONSIDERED_ZERO ==>
                OutcomeOf(limits, current, desired, dt, i).velocity == WishOf(|limits|, desired, i).velocity
      ensures Abs(WishOf(|limits|, desired, i).acceleration) > VALUE_CONSIDERED_ZERO ==>
                OutcomeOf(limits, current, desired, dt, i).acceleration == WishOf(|limits|, desired, i).acceleration
    {
      assert !PlanOf(limits, current, desired, dt, i).limited;
      UnlimitedJoint(limits[i], SettingOf(|limits|, desired, dt), ReadingOf(|limits|, current, i), WishOf(|limits|, desired, i));
    }
  }

  lemma UnlimitedJoint(l: Limits, s: Setting, now: Reading, wish: Plan)
    requires Sane(l) && s.dt > 0.0 && !Planned(l, s, now, wish).limited
    ensures Planned(l, s, now, wish).position == wish.position
    ensures Abs(wish.velocity) > VALUE_CONSIDERED_ZERO ==> Planned(l, s, now, wish).velocity == wish.velocity
    ensures Abs(wish.acceleration) > VALUE_CONSIDERED_ZERO ==> Planned(l, s, now, wish).acceleration == wish.acceleration
  {
    hide CopySign;
    hide Moved;
    hide Pushed;
    hide IsCut;
    hide Reached;
  }

  /** The velocity that the acceleration limit leaves of the request for joint `i`. */
  function AfterAcceleration(limits: seq<Limits>, current: Point, desired: Point, dt: real, i: nat): real
    requires AllSane(limits) && Usable(|limits|, current, desired, dt) && i < |limits|
  {
    var l, now := limits[i], ReadingOf(|limits|, current, i);
    if CutAt(limits, current, desired, dt, i)
    then Pushed(now, CutTo(l, WantedOf(limits, current, desired, dt, i), now.velocity), dt)
    else SoughtOf(limits, current, desired, dt, i).velocity
  }

  /** The code takes a velocity that counts as zero for one that is missing, and the position that is
      missing for zero. So a request to stand still is one for position zero: without braking it is kept,
      by a joint whose acceleration is not cut, only at position zero, or at a limit that is in the way. */
  lemma StandStillKeptIff(limits: seq<Limits>, current: Point, desired: Point, dt: real, i: nat)
    requires AllSane(limits) && Usable(|limits|, current, desired, dt) && i < |limits|
    requires !Given(desired.positions, |limits|) && desired.velocities[i] == 0.0 && !Braking(limits, current, desired, dt)
    requires limits[i].hasVelocity && limits[i].maxVelocity > 0.0
    requires limits[i].hasPosition ==> InBounds(limits[i], current.positions[i])
    ensures var l, now := limits[i], ReadingOf(|limits|, current, i);
            var v := AfterAcceleration(limits, current, desired, dt, i);
            && (Commands(limits, current, desired, dt).velocities[i] == 0.0
                <==> v == 0.0 || (l.hasPosition && Gap(l, now, v) == 0.0))
            && (!CutAt(limits, current, desired, dt, i) ==> (v == 0.0 <==> current.positions[i] == 0.0))
  {
    hide LimitAcceleration;
    hide LookAhead;
    hide CutTo;
    hide Pushed;
    hide WantedAcceleration;
    hide Braking;
    hide Calm;
    var l, s, now := limits[i], SettingOf(|limits|, desired, dt), ReadingOf(|limits|, current, i);
    var wish := WishOf(|limits|, desired, i);
    StandStillSought(l, s, now, wish);
    var q := SoughtOf(limits, current, desired, dt, i);
    UncutIsKept(l, s, now, q);
    StoppedByLookAheadIff(l, s, now, LimitAcceleration(l, s, now, q));
  }

  lemma StandStillSought(l: Limits, s: Setting, now: Reading, wish: Plan)
    requires Sane(l) && s.dt > 0.0 && !s.givesPosition && l.hasVelocity && l.maxVelocity > 0.0
    requires wish.position == wish.velocity == 0.0
    ensures LimitVelocity(l, s, now, LimitPosition(l, s, now, wish)).velocity == 0.0 <==> now.position == 0.0
  {
    Divided(0.0 - now.position, s.dt);
    Divided(now.position - 0.0, s.dt);
  }

  lemma StoppedByLookAheadIff(l: Limits, s: Setting, now: Reading, p: Plan)
    requires Sane(l) && s.dt > 0.0 && (l.hasPosition ==> InBounds(l, now.position))
    ensures LookAhead(l, s, now, p).velocity == 0.0
            <==> p.velocity == 0.0 || (LooksAhead(l, s) && Gap(l, now, p.velocity) == 0.0)
  {
    hide LookAhead;
    if LooksAhead(l, s) {
      Divided(Gap(l, now, p.velocity), s.dt);
      LookAheadIs(l, s, now, p);
    } else {
      NoLookAhead(l, s, now, p);
    }
  }

  const PLAIN: Limits := Limits(0.0, 1.0, 1.0, 1.0, 1.0, 1.0, 1.0, false, false, false, false, false)

  /** Such a joint, asked to stand still half-way, is sent off at its maximum velocity. */
  lemma StandStillMoves()
    ensures var l := PLAIN.(hasVelocity := true);
            var current, desired := Point([0.5], [0.0], []), Point([], [0.0], []);
            && Usable(1, current, desired, 0.1) && Calm(l, ReadingOf(1, current, 0))
            && Commands([l], current, desired, 0.1).velocities == [-1.0]
  {
    hide Planned;
    var l := PLAIN.(hasVelocity := true);
    var current, desired := Point([0.5], [0.0], []), Point([], [0.0], []);
    assert SettingOf(1, desired, 0.1) == Setting(0.1, false, true) && ReadingOf(1, current, 0) == Reading(0.5, 0.0);
    assert WishOf(1, desired, 0) == Plan(0.0, 0.0, 0.0, false);
    StandStillPlanned(l);
    assert PlanOf([l], current, desired, 0.1, 0).velocity == -1.0;
    assert !BrakesAt([l], current, desired, 0.1, 0);
  }

  lemma StandStillPlanned(l: Limits)
    requires l == PLAIN.(hasVelocity := true)
    ensures Planned(l, Setting(0.1, false, true), Reading(0.5, 0.0), Plan(0.0, 0.0, 0.0, false)).velocity == -1.0
  {
    assert Rate(0.5, 0.0, 0.1) == -5.0;
  }

  /** A joint that runs towards its limit may be given a velocity that its acceleration limit forbids. */
  lemma LookAheadBreaksAcceleration()
    ensures var l := PLAIN.(hasPosition := true, hasAcceleration := true, maxAcceleration := 5.0);
            var current, desired := Point([0.99], [1.0], []), Point([], [1.0], []);
            && Ready([l], current, desired, 0.1)
            && Commands([l], current, desired, 0.1).velocities == [0.1]
            && !AccelerationRespected(l, ReadingOf(1, current, 0), 0.1, 0.1)
  {
    var l := PLAIN.(hasPosition := true, hasAcceleration := true, maxAcceleration := 5.0);
    var current, desired := Point([0.99], [1.0], []), Point([], [1.0], []);
    var s, now := SettingOf(1, desired, 0.1), ReadingOf(1, current, 0);
    var wish := WishOf(1, desired, 0);
    assert LimitPosition(l, s, now, wish) == wish;
    assert LimitVelocity(l, s, now, wish) == wish;
    assert LimitAcceleration(l, s, now, wish) == wish;
    assert Reached(now, 1.0, 0.1) == 1.09;
    assert LookAhead(l, s, now, wish).velocity == 0.1;
    assert !MustBrake(l, s, now, 0.1);
    assert PlanOf([l], current, desired, 0.1, 0).velocity == 0.1;
    assert !BrakesAt([l], current, desired, 0.1, 0);
  }

  /** A requested acceleration that is cut decides about the velocity, maximum or not. */
  lemma RequestedAccelerationBreaksVelocity()
    ensures var l := PLAIN.(hasVelocity := true, hasAcceleration := true, maxAcceleration := 5.0);
            var current, desired := Point([0.0], [1.0], []), Point([], [0.5], [10.0]);
            && Usable(1, current, desired, 0.1) && Calm(l, ReadingOf(1, current, 0))
            && Commands([l], current, desired, 0.1).velocities == [1.5]
  {
    var l := PLAIN.(hasVelocity := true, hasAcceleration := true, maxAcceleration := 5.0);
    var current, desired := Point([0.0], [1.0], []), Point([], [0.5], [10.0]);
    var s, now := SettingOf(1, desired, 0.1), ReadingOf(1, current, 0);
    var wish := WishOf(1, desired, 0);
    assert LimitVelocity(l, s, now, LimitPosition(l, s, now, wish)) == wish;
    assert LimitAcceleration(l, s, now, wish).velocity == 1.5;
    assert PlanOf([l], current, desired, 0.1, 0).velocity == 1.5;
    assert !BrakesAt([l], current, desired, 0.1, 0);
  }

  /** The position that follows from a braking or a limited acceleration is not clamped again. */
  lemma PositionMayLeaveLimits()
    ensures var l := PLAIN.(hasPosition := true, hasAcceleration := true);
            var current, desired := Point([0.5], [10.0], []), Point([0.6], [], []);
            && Usable(1, current, desired, 0.1) && Calm(l, ReadingOf(1, current, 0))
            && Commands([l], current, desired, 0.1).positions == [1.495]
  {
    var l := PLAIN.(hasPosition := true, hasAcceleration := true);
    var current, desired := Point([0.5], [10.0], []), Point([0.6], [], []);
    var s, now := SettingOf(1, desired, 0.1), ReadingOf(1, current, 0);
    var wish := WishOf(1, desired, 0);
    assert LimitPosition(l, s, now, wish) == Plan(0.6, 1.0, 0.0, false);
    assert LimitAcceleration(l, s, now, Plan(0.6, 1.0, 0.0, false)) == Plan(1.495, 9.9, -1.0, true);
    assert Brake(l, 10.0, 0.1) == -1.0;
    assert PlanOf([l], current, desired, 0.1, 0).position == 1.495;
  }

  /** The request for joint `i` before accelerations are limited. */
  function SoughtOf(limits: seq<Limits>, current: Point, desired: Point, dt: real, i: nat): Plan
    requires AllSane(limits) && Usable(|limits|, current, desired, dt) && i < |limits|
  {
    var l, s, now := limits[i], SettingOf(|limits|, desired, dt), ReadingOf(|limits|, current, i);
    LimitVelocity(l, s, now, LimitPosition(l, s, now, WishOf(|limits|, desired, i)))
  }

  /** The acceleration that is wanted for joint `i`. */
  function WantedOf(limits: seq<Limits>, current: Point, desired: Point, dt: real, i: nat): real
    requires AllSane(limits) && Usable(|limits|, current, desired, dt) && i < |limits|
  {
    WantedAcceleration(SettingOf(|limits|, desired, dt), ReadingOf(|limits|, current, i), SoughtOf(limits, current, desired, dt, i))
  }

  predicate CutAt(limits: seq<Limits>, current: Point, desired: Point, dt: real, i: nat)
    requires AllSane(limits) && Usable(|limits|, current, desired, dt) && i < |limits|
  {
    IsCut(limits[i], WantedOf(limits, current, desired, dt, i), ReadingOf(|limits|, current, i).velocity)
  }

  /** The velocity that is wanted for joint `i`. */
  function WantedVelocityOf(limits: seq<Limits>, current: Point, desired: Point, dt: real, i: nat): real
    requires AllSane(limits) && Usable(|limits|, current, desired, dt) && i < |limits|
  {
    var s, now := SettingOf(|limits|, desired, dt), ReadingOf(|limits|, current, i);
    WantedVelocity(s, now, LimitPosition(limits[i], s, now, WishOf(|limits|, desired, i)))
  }

  predicate TooFast(limits: seq<Limits>, current: Point, desired: Point, dt: real, i: nat)
    requires AllSane(limits) && Usable(|limits|, current, desired, dt) && i < |limits|
  {
    limits[i].hasVelocity && Abs(WantedVelocityOf(limits, current, desired, dt, i)) > limits[i].maxVelocity
  }

  /** With any request, a returned position is inside the limits exactly when the position that is
      integrated last is: from the braking acceleration or, without braking, from the acceleration that is
      cut or, without a cut, from the maximum velocity. */
  lemma PositionInsideIff(limits: seq<Limits>, current: Point, desired: Point, dt: real, i: nat)
    requires AllSane(limits) && Usable(|limits|, current, desired, dt) && i < |limits|
    requires Given(desired.positions, |limits|) && limits[i].hasPosition
    ensures var l, now := limits[i], ReadingOf(|limits|, current, i);
            InBounds(l, Commands(limits, current, desired, dt).positions[i])
            <==> (if Braking(limits, current, desired, dt) then InBounds(l, Moved(now, Brake(l, now.velocity, dt), dt))
                  else if CutAt(limits, current, desired, dt, i)
                  then InBounds(l, Moved(now, CutTo(l, WantedOf(limits, current, desired, dt, i), now.velocity), dt))
                  else if TooFast(limits, current, desired, dt, i)
                  then InBounds(l, Reached(now, CopySign(l.maxVelocity, WantedVelocityOf(limits, current, desired, dt, i)), dt))
                  else true)
  {
    hide LimitPosition;
    hide LimitVelocity;
    hide Moved;
    hide Pushed;
    hide Brake;
    hide CutTo;
    hide Reached;
    hide CopySign;
    hide InBounds;
    hide WantedAcceleration;
    hide WantedVelocity;
    var l, s, now := limits[i], SettingOf(|limits|, desired, dt), ReadingOf(|limits|, current, i);
    SoughtPositionIs(l, s, now, WishOf(|limits|, desired, i));
    UncutIsKept(l, s, now, SoughtOf(limits, current, desired, dt, i));
  }

  lemma SoughtPositionIs(l: Limits, s: Setting, now: Reading, wish: Plan)
    requires Sane(l) && s.dt > 0.0 && s.givesPosition && l.hasPosition
    ensures var p := LimitPosition(l, s, now, wish);
            var v := WantedVelocity(s, now, p);
            var q := LimitVelocity(l, s, now, p);
            if l.hasVelocity && Abs(v) > l.maxVelocity then q.position == Reached(now, CopySign(l.maxVelocity, v), s.dt)
            else InBounds(l, q.position)
  {
    hide Rate;
    hide Reached;
    hide CopySign;
    hide WantedVelocity;
  }

  /** When the limit on accelerations does not cut, it changes neither position nor velocity. */
  lemma UncutIsKept(l: Limits, s: Setting, now: Reading, q: Plan)
    requires Sane(l) && s.dt > 0.0
    ensures var a, r := WantedAcceleration(s, now, q), LimitAcceleration(l, s, now, q);
            if IsCut(l, a, now.velocity)
            then r.velocity == Pushed(now, CutTo(l, a, now.velocity), s.dt)
                 && (s.givesPosition ==> r.position == Moved(now, CutTo(l, a, now.velocity), s.dt))
            else r.position == q.position && r.velocity == q.velocity
  {
    hide CutTo;
    hide Moved;
    hide Pushed;
    hide WantedAcceleration;
  }

  /** For a request of positions alone, a joint inside its limits seeks a position inside them; so only a
      cut or braking acceleration leads out. */
  lemma SoughtPositionInside(limits: seq<Limits>, current: Point, desired: Point, dt: real, i: nat)
    requires AllSane(limits) && Usable(|limits|, current, desired, dt) && i < |limits|
    requires !Given(desired.velocities, |limits|) && !Given(desired.accelerations, |limits|)
    requires limits[i].hasPosition && InBounds(limits[i], current.positions[i])
    ensures InBounds(limits[i], SoughtOf(limits, current, desired, dt, i).position)
  {
    hide LimitPosition;
    hide LimitVelocity;
    SoughtInside(limits[i], SettingOf(|limits|, desired, dt), ReadingOf(|limits|, current, i), desired.positions[i]);
  }

  lemma SoughtInside(l: Limits, s: Setting, now: Reading, position: real)
    requires Sane(l) && s.dt > 0.0 && s.givesPosition && l.hasPosition && InBounds(l, now.position)
    ensures var q := LimitVelocity(l, s, now, LimitPosition(l, s, now, Plan(position, 0.0, 0.0, false)));
            InBounds(l, q.position) && Consistent(s, now, q)
  {
    hide Rate;
    hide Reached;
    hide CopySign;
    hide Abs;
    var p := LimitPosition(l, s, now, Plan(position, 0.0, 0.0, false));
    SmallIsZero();
    if l.hasVelocity && Abs(Rate(now.position, p.position, s.dt)) > l.maxVelocity {
      SlowedPosition(l, now, p.position, s.dt);
    }
    var q := LimitVelocity(l, s, now, p);
    RateLeads(now, q, s);
  }

  lemma SmallIsZero()
    ensures Abs(0.0) <= VALUE_CONSIDERED_ZERO
  {
  }

  lemma RateLeads(now: Reading, q: Plan, s: Setting)
    requires s.dt > 0.0
    requires Abs(q.acceleration) <= VALUE_CONSIDERED_ZERO || q.acceleration == Rate(now.velocity, q.velocity, s.dt)
    ensures Consistent(s, now, q)
  {
  }

  /** At the maximum velocity, the joint gets part of the way. */
  lemma SlowedPosition(l: Limits, now: Reading, position: real, dt: real)
    requires Sane(l) && dt > 0.0 && Abs(Rate(now.position, position, dt)) > l.maxVelocity
    ensures Between(now.position, Reached(now, CopySign(l.maxVelocity, Rate(now.position, position, dt)), dt), position)
  {
    CutAcceleration(now.position, position, dt, l.maxVelocity);
  }
}
