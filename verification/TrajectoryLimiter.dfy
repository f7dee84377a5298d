/** The limiter for trajectory points of several joints (joint_saturation_limiter.cpp), in exact real
    arithmetic. */
module TrajectoryLimiter {
  import opened Names
  import opened JointLimits
  import opened Reals

  /** A trajectory point; a sequence of the wrong length counts as not given. */
  datatype Point = Point(positions: seq<real>, velocities: seq<real>, accelerations: seq<real>)

  /** The period and what the request gives. */
  datatype Setting = Setting(dt: real, givesPosition: bool, givesVelocity: bool)

  /** Where a joint is and how fast it moves. */
  datatype Reading = Reading(position: real, velocity: real)

  /** What is commanded to a joint, and whether a limit changed it. */
  datatype Plan = Plan(position: real, velocity: real, acceleration: real, limited: bool)

  function Positions(l: Limits): (w: Window)
    requires Sane(l)
    ensures w.Window? && Ordered(w)
  {
    Window(l.minPosition, l.maxPosition)
  }

  // ---- The limits of one joint, in the order in which they are applied ----

  function Rate(from: real, to: real, dt: real): real
    requires dt > 0.0
  {
    (to - from) / dt
  }

  function LimitPosition(l: Limits, s: Setting, now: Reading, p: Plan): Plan
    requires Sane(l) && s.dt > 0.0
  {
    if !s.givesPosition then p
    else
      var position := if l.hasPosition then Clamp(p.position, Positions(l)) else p.position;
      var difference := position - now.position;
      var velocity := if Abs(difference) > VALUE_CONSIDERED_ZERO && Abs(p.velocity) <= VALUE_CONSIDERED_ZERO
                      then Rate(now.position, position, s.dt) else p.velocity;
      Plan(position, velocity, p.acceleration, p.limited || position != p.position)
  }

  /** The requested velocity or, if there is none, the one that leads to the planned position. */
  function WantedVelocity(s: Setting, now: Reading, p: Plan): real
    requires s.dt > 0.0
  {
    if Abs(p.velocity) <= VALUE_CONSIDERED_ZERO then Rate(now.position, p.position, s.dt) else p.velocity
  }

  function LimitVelocity(l: Limits, s: Setting, now: Reading, p: Plan): Plan
    requires Sane(l) && s.dt > 0.0
  {
    if !l.hasVelocity then p
    else
      var velocity := WantedVelocity(s, now, p);
      if Abs(velocity) > l.maxVelocity then
        var top := CopySign(l.maxVelocity, velocity);
        Plan(if s.givesPosition then Reached(now, top, s.dt) else p.position,
             top, Rate(now.velocity, top, s.dt), true)
      else p.(velocity := velocity)
  }

  /** The limit for an acceleration; slowing down has its own, when it is given. */
  function AccelerationLimit(l: Limits, acceleration: real, velocity: real): Option<real> {
    if l.hasDeceleration && ((acceleration < 0.0 && velocity > 0.0) || (acceleration > 0.0 && velocity < 0.0))
    then Some(l.maxDeceleration)
    else if l.hasAcceleration then Some(l.maxAcceleration)
    else None
  }

  /** The limit cuts this acceleration. */
  predicate IsCut(l: Limits, acceleration: real, velocity: real) {
    var bound := AccelerationLimit(l, acceleration, velocity);
    bound.Some? && Abs(acceleration) > bound.value
  }

  /** The velocity and the position after one step with an acceleration. */
  function Pushed(now: Reading, acceleration: real, dt: real): real {
    now.velocity + acceleration * dt
  }

  /** The position after one step with a velocity. */
  function Reached(now: Reading, velocity: real, dt: real): real {
    now.position + velocity * dt
  }

  function Moved(now: Reading, acceleration: real, dt: real): real {
    now.position + now.velocity * dt + 0.5 * acceleration * dt * dt
  }

  /** The requested acceleration or, if there is none, the one that leads to the planned velocity. */
  function WantedAcceleration(s: Setting, now: Reading, p: Plan): real
    requires s.dt > 0.0
  {
    if Abs(p.acceleration) <= VALUE_CONSIDERED_ZERO then Rate(now.velocity, p.velocity, s.dt) else p.acceleration
  }

  function CutTo(l: Limits, acceleration: real, velocity: real): real
    requires IsCut(l, acceleration, velocity)
  {
    CopySign(AccelerationLimit(l, acceleration, velocity).value, acceleration)
  }

  function LimitAcceleration(l: Limits, s: Setting, now: Reading, p: Plan): Plan
    requires Sane(l) && s.dt > 0.0
  {
    if !l.hasAcceleration && !l.hasDeceleration then p
    else
      var acceleration := WantedAcceleration(s, now, p);
      if IsCut(l, acceleration, now.velocity) then
        var top := CutTo(l, acceleration, now.velocity);
        Plan(if s.givesPosition then Moved(now, top, s.dt) else p.position,
             Pushed(now, top, s.dt), top, true)
      else p.(acceleration := acceleration)
  }

  predicate LooksAhead(l: Limits, s: Setting) {
    l.hasPosition && s.givesVelocity && !s.givesPosition
  }

  /** A request of velocities alone must not leave the position limits in one step. */
  function LookAhead(l: Limits, s: Setting, now: Reading, p: Plan): Plan
    requires Sane(l) && s.dt > 0.0
  {
    if LooksAhead(l, s) then
      var expected := Reached(now, p.velocity, s.dt);
      var position := Clamp(expected, Positions(l));
      if position != expected then p.(velocity := (position - now.position) / s.dt, limited := true) else p
    else p
  }

  function StoppingDeceleration(l: Limits, velocity: real, dt: real): (d: real)
    requires Sane(l) && dt > 0.0
  {
    if l.hasDeceleration then l.maxDeceleration
    else if l.hasAcceleration then l.maxAcceleration
    else Abs(velocity / dt)
  }

  function StoppingDistance(velocity: real, deceleration: real): real
    requires deceleration != 0.0
  {
    Abs(-velocity * velocity / (2.0 * deceleration))
  }

  /** The joint could not stop before its limit. A deceleration of zero takes forever. The second
      disjunct of a motion downwards compares a distance with a negative motion, as the code does. */
  predicate MustBrake(l: Limits, s: Setting, now: Reading, velocity: real)
    requires Sane(l) && s.dt > 0.0
  {
    l.hasPosition && velocity != 0.0 &&
    var deceleration := StoppingDeceleration(l, velocity, s.dt);
    deceleration == 0.0 ||
    var gap := if velocity < 0.0 then now.position - l.minPosition else l.maxPosition - now.position;
    (gap < StoppingDistance(velocity, deceleration) || gap < velocity * Abs(velocity / deceleration))
  }

  function Planned(l: Limits, s: Setting, now: Reading, wish: Plan): Plan
    requires Sane(l) && s.dt > 0.0
  {
    LookAhead(l, s, now, LimitAcceleration(l, s, now, LimitVelocity(l, s, now, LimitPosition(l, s, now, wish))))
  }

  /** The acceleration that stops a joint within one step, as far as its limits allow. */
  function Brake(l: Limits, velocity: real, dt: real): real
    requires Sane(l) && dt > 0.0
  {
    var full := -velocity / dt;
    if l.hasDeceleration then CopySign(Min(Abs(full), l.maxDeceleration), full)
    else if l.hasAcceleration then CopySign(Min(Abs(full), l.maxAcceleration), full)
    else full
  }

  function Braked(l: Limits, s: Setting, now: Reading, p: Plan): Plan
    requires Sane(l) && s.dt > 0.0
  {
    var brake := Brake(l, now.velocity, s.dt);
    Plan(if s.givesPosition then Moved(now, brake, s.dt) else p.position,
         if s.givesVelocity then Pushed(now, brake, s.dt) else p.velocity, brake, true)
  }

  // ---- All joints ----

  predicate Given(values: seq<real>, joints: nat) { |values| == joints }

  function SettingOf(joints: nat, desired: Point, dt: real): Setting {
    Setting(dt, Given(desired.positions, joints), Given(desired.velocities, joints))
  }

  function ReadingOf(joints: nat, current: Point, i: nat): Reading
    requires i < joints && Given(current.positions, joints)
  {
    Reading(current.positions[i], if Given(current.velocities, joints) then current.velocities[i] else 0.0)
  }

  function WishOf(joints: nat, desired: Point, i: nat): Plan
    requires i < joints
  {
    Plan(if Given(desired.positions, joints) then desired.positions[i] else 0.0,
         if Given(desired.velocities, joints) then desired.velocities[i] else 0.0,
         if Given(desired.accelerations, joints) then desired.accelerations[i] else 0.0, false)
  }

  predicate AllSane(limits: seq<Limits>) {
    forall i :: 0 <= i < |limits| ==> Sane(limits[i])
  }

  /** The request can be limited; otherwise it is returned as it is. */
  predicate Usable(joints: nat, current: Point, desired: Point, dt: real) {
    dt > 0.0 && Given(current.positions, joints) && (Given(desired.positions, joints) || Given(desired.velocities, joints))
  }

  function PlanOf(limits: seq<Limits>, current: Point, desired: Point, dt: real, i: nat): Plan
    requires AllSane(limits) && Usable(|limits|, current, desired, dt) && i < |limits|
  {
    Planned(limits[i], SettingOf(|limits|, desired, dt), ReadingOf(|limits|, current, i), WishOf(|limits|, desired, i))
  }

  predicate BrakesAt(limits: seq<Limits>, current: Point, desired: Point, dt: real, i: nat)
    requires AllSane(limits) && Usable(|limits|, current, desired, dt) && i < |limits|
  {
    MustBrake(limits[i], SettingOf(|limits|, desired, dt), ReadingOf(|limits|, current, i),
              PlanOf(limits, current, desired, dt, i).velocity)
  }

  /** One joint that cannot stop in time makes all joints brake. */
  predicate Braking(limits: seq<Limits>, current: Point, desired: Point, dt: real)
    requires AllSane(limits) && Usable(|limits|, current, desired, dt)
  {
    exists i :: 0 <= i < |limits| && BrakesAt(limits, current, desired, dt, i)
  }

  function OutcomeOf(limits: seq<Limits>, current: Point, desired: Point, dt: real, i: nat): Plan
    requires AllSane(limits) && Usable(|limits|, current, desired, dt) && i < |limits|
  {
    var p := PlanOf(limits, current, desired, dt, i);
    if Braking(limits, current, desired, dt)
    then Braked(limits[i], SettingOf(|limits|, desired, dt), ReadingOf(|limits|, current, i), p)
    else p
  }

  /** What is returned: of each kind of value that the request gives, the outcome for every joint. */
  function Commands(limits: seq<Limits>, current: Point, desired: Point, dt: real): (r: Point)
    requires AllSane(limits) && Usable(|limits|, current, desired, dt)
  {
    var n := |limits|;
    Point(
      if Given(desired.positions, n)
      then seq(n, i requires 0 <= i < n => OutcomeOf(limits, current, desired, dt, i).position) else desired.positions,
      if Given(desired.velocities, n)
      then seq(n, i requires 0 <= i < n => OutcomeOf(limits, current, desired, dt, i).velocity) else desired.velocities,
      if Given(desired.accelerations, n)
      then seq(n, i requires 0 <= i < n => OutcomeOf(limits, current, desired, dt, i).acceleration)
      else desired.accelerations)
  }

  /** Some limit changed the request. */
  predicate Enforces(limits: seq<Limits>, current: Point, desired: Point, dt: real)
    requires AllSane(limits) && Usable(|limits|, current, desired, dt)
  {
    || Braking(limits, current, desired, dt)
    || exists i :: 0 <= i < |limits| && PlanOf(limits, current, desired, dt, i).limited
  }

  class JointSaturationLimiter {
    var limits: seq<Limits>

    /** The values of joint `i`. */
    ghost function At(pos: array<real>, vel: array<real>, acc: array<real>, i: nat, limited: bool): Plan
      requires i < pos.Length == vel.Length == acc.Length
      reads pos, vel, acc
    {
      Plan(pos[i], vel[i], acc[i], limited)
    }

    ghost predicate Distinct(pos: array<real>, vel: array<real>, acc: array<real>)
      reads this
    {
      && pos.Length == vel.Length == acc.Length == |limits|
      && pos != vel && pos != acc && vel != acc
    }

    method LimitPositionAt(s: Setting, now: Reading, pos: array<real>, vel: array<real>, acc: array<real>,
                           i: nat, enforced: bool) returns (limited: bool)
      requires AllSane(limits) && s.dt > 0.0 && Distinct(pos, vel, acc) && i < |limits|
      modifies pos, vel
      ensures At(pos, vel, acc, i, limited) == LimitPosition(limits[i], s, now, old(At(pos, vel, acc, i, enforced)))
      ensures forall k :: 0 <= k < |limits| && k != i ==> pos[k] == old(pos[k]) && vel[k] == old(vel[k])
    {
      limited := enforced;
      if s.givesPosition {
        if limits[i].hasPosition {
          var position := Clamp(pos[i], Positions(limits[i]));
          if position != pos[i] {
            pos[i] := position;
            limited := true;
          }
        }
        var difference := pos[i] - now.position;
        if Abs(difference) > VALUE_CONSIDERED_ZERO && Abs(vel[i]) <= VALUE_CONSIDERED_ZERO {
          vel[i] := difference / s.dt;
        }
      }
    }

    method LimitVelocityAt(s: Setting, now: Reading, pos: array<real>, vel: array<real>, acc: array<real>,
                           i: nat, enforced: bool) returns (limited: bool)
      requires AllSane(limits) && s.dt > 0.0 && Distinct(pos, vel, acc) && i < |limits|
      modifies pos, vel, acc
      ensures At(pos, vel, acc, i, limited) == LimitVelocity(limits[i], s, now, old(At(pos, vel, acc, i, enforced)))
      ensures forall k :: 0 <= k < |limits| && k != i ==>
                            pos[k] == old(pos[k]) && vel[k] == old(vel[k]) && acc[k] == old(acc[k])
    {
      hide Rate;
      hide Reached;
      hide CopySign;
      limited := enforced;
      if limits[i].hasVelocity {
        if Abs(vel[i]) <= VALUE_CONSIDERED_ZERO {
          vel[i] := Rate(now.position, pos[i], s.dt);
        }
        if Abs(vel[i]) > limits[i].maxVelocity {
          vel[i] := CopySign(limits[i].maxVelocity, vel[i]);
          limited := true;
          if s.givesPosition {
            pos[i] := Reached(now, vel[i], s.dt);
          }
          acc[i] := Rate(now.velocity, vel[i], s.dt);
        }
      }
    }

    method LimitAccelerationAt(s: Setting, now: Reading, pos: array<real>, vel: array<real>, acc: array<real>,
                               i: nat, enforced: bool) returns (limited: bool)
      requires AllSane(limits) && s.dt > 0.0 && Distinct(pos, vel, acc) && i < |limits|
      modifies pos, vel, acc
      ensures At(pos, vel, acc, i, limited) == LimitAcceleration(limits[i], s, now, old(At(pos, vel, acc, i, enforced)))
      ensures forall k :: 0 <= k < |limits| && k != i ==>
                            pos[k] == old(pos[k]) && vel[k] == old(vel[k]) && acc[k] == old(acc[k])
    {
      hide Moved;
      hide Pushed;
      hide CopySign;
      hide Rate;
      hide Abs;
      limited := enforced;
      var l := limits[i];
      if l.hasAcceleration || l.hasDeceleration {
        if Abs(acc[i]) <= VALUE_CONSIDERED_ZERO {
          acc[i] := Rate(now.velocity, vel[i], s.dt);
        }
        var decelerationApplied, applied := false, false;
        if (acc[i] < 0.0 && now.velocity > 0.0) || (acc[i] > 0.0 && now.velocity < 0.0) {
          if l.hasDeceleration {
            applied := CutAt(acc, i, l.maxDeceleration);
            decelerationApplied := true;
          }
        }
        if l.hasAcceleration && !decelerationApplied {
          applied := CutAt(acc, i, l.maxAcceleration);
        }
        if applied {
          limited := true;
          vel[i] := Pushed(now, acc[i], s.dt);
          if s.givesPosition {
            pos[i] := Moved(now, acc[i], s.dt);
          }
        }
      }
    }

    /** apply_acc_or_dec_limit. */
    method CutAt(acc: array<real>, i: nat, bound: real) returns (cut: bool)
      requires i < acc.Length && bound >= 0.0
      modifies acc
      ensures cut <==> Abs(old(acc[i])) > bound
      ensures acc[i] == if cut then CopySign(bound, old(acc[i])) else old(acc[i])
      ensures forall k :: 0 <= k < acc.Length && k != i ==> acc[k] == old(acc[k])
    {
      cut := Abs(acc[i]) > bound;
      if cut {
        acc[i] := CopySign(bound, acc[i]);
      }
    }

    method LookAheadAt(s: Setting, now: Reading, pos: array<real>, vel: array<real>, acc: array<real>,
                       i: nat, enforced: bool) returns (limited: bool)
      requires AllSane(limits) && s.dt > 0.0 && Distinct(pos, vel, acc) && i < |limits|
      modifies vel
      ensures At(pos, vel, acc, i, limited) == LookAhead(limits[i], s, now, old(At(pos, vel, acc, i, enforced)))
      ensures forall k :: 0 <= k < |limits| && k != i ==> vel[k] == old(vel[k])
    {
      limited := enforced;
      if limits[i].hasPosition && s.givesVelocity && !s.givesPosition {
        var expected := Reached(now, vel[i], s.dt);
        var position := Clamp(expected, Positions(limits[i]));
        if position != expected {
          vel[i] := (position - now.position) / s.dt;
          limited := true;
        }
      }
    }

    /** Checks the distance needed to stop, then the motion while stopping. A division by zero is
        infinite, hence more than any distance. */
    method NeedsBraking(l: Limits, s: Setting, now: Reading, velocity: real) returns (braking: bool)
      requires Sane(l) && s.dt > 0.0
      ensures braking <==> MustBrake(l, s, now, velocity)
    {
      braking := false;
      if l.hasPosition {
        var deceleration := StoppingDeceleration(l, velocity, s.dt);
        if deceleration == 0.0 {
          return velocity != 0.0;
        }
        var distance := StoppingDistance(velocity, deceleration);
        var duration := Abs(velocity / deceleration);
        var below, above := now.position - l.minPosition, l.maxPosition - now.position;
        if (velocity < 0.0 && below < distance) || (velocity > 0.0 && above < distance) {
          braking := true;
        } else {
          var motion := velocity * duration;
          if (velocity < 0.0 && below < motion) || (velocity > 0.0 && above < motion) {
            braking := true;
          }
        }
      }
    }

    method BrakeAt(s: Setting, now: Reading, pos: array<real>, vel: array<real>, acc: array<real>, i: nat,
                   ghost limited: bool)
      requires AllSane(limits) && s.dt > 0.0 && Distinct(pos, vel, acc) && i < |limits|
      modifies pos, vel, acc
      ensures At(pos, vel, acc, i, true) == Braked(limits[i], s, now, old(At(pos, vel, acc, i, limited)))
      ensures forall k :: 0 <= k < |limits| && k != i ==>
                            pos[k] == old(pos[k]) && vel[k] == old(vel[k]) && acc[k] == old(acc[k])
    {
      hide Moved;
      hide Pushed;
      hide CopySign;
      var l := limits[i];
      acc[i] := -now.velocity / s.dt;
      if l.hasDeceleration {
        acc[i] := CopySign(Min(Abs(acc[i]), l.maxDeceleration), acc[i]);
      } else if l.hasAcceleration {
        acc[i] := CopySign(Min(Abs(acc[i]), l.maxAcceleration), acc[i]);
      }
      if s.givesVelocity {
        vel[i] := Pushed(now, acc[i], s.dt);
      }
      if s.givesPosition {
        pos[i] := Moved(now, acc[i], s.dt);
      }
    }

    /** One pass of the first loop. */
    method LimitJoint(s: Setting, now: Reading, pos: array<real>, vel: array<real>, acc: array<real>, i: nat)
      returns (limited: bool, braking: bool)
      requires AllSane(limits) && s.dt > 0.0 && Distinct(pos, vel, acc) && i < |limits|
      modifies pos, vel, acc
      ensures At(pos, vel, acc, i, limited) == Planned(limits[i], s, now, old(At(pos, vel, acc, i, false)))
      ensures braking <==> MustBrake(limits[i], s, now, vel[i])
      ensures forall k :: 0 <= k < |limits| && k != i ==>
                            pos[k] == old(pos[k]) && vel[k] == old(vel[k]) && acc[k] == old(acc[k])
    {
      hide LimitPosition;
      hide LimitVelocity;
      hide LimitAcceleration;
      hide LookAhead;
      hide MustBrake;
      limited := LimitPositionAt(s, now, pos, vel, acc, i, false);
      limited := LimitVelocityAt(s, now, pos, vel, acc, i, limited);
      limited := LimitAccelerationAt(s, now, pos, vel, acc, i, limited);
      limited := LookAheadAt(s, now, pos, vel, acc, i, limited);
      braking := NeedsBraking(limits[i], s, now, vel[i]);
    }

    /** The first loop. */
    method PlanJoints(current: Point, desired: Point, dt: real, pos: array<real>, vel: array<real>, acc: array<real>)
      returns (enforced: bool, braking: bool)
      requires AllSane(limits) && Usable(|limits|, current, desired, dt) && Distinct(pos, vel, acc)
      requires forall k :: 0 <= k < |limits| ==> pos[k] == vel[k] == acc[k] == 0.0
      modifies pos, vel, acc
      ensures forall k :: 0 <= k < |limits| ==>
                            var p := PlanOf(limits, current, desired, dt, k);
                            pos[k] == p.position && vel[k] == p.velocity && acc[k] == p.acceleration
      ensures braking <==> Braking(limits, current, desired, dt)
      ensures enforced <==> Enforces(limits, current, desired, dt)
    {
      hide Planned;
      hide MustBrake;
      enforced, braking := false, false;
      var n := |limits|;
      var s := SettingOf(n, desired, dt);
      for i := 0 to n
        invariant forall k :: 0 <= k < i ==>
                    var p := PlanOf(limits, current, desired, dt, k);
                    pos[k] == p.position && vel[k] == p.velocity && acc[k] == p.acceleration
        invariant forall k :: i <= k < n ==> pos[k] == vel[k] == acc[k] == 0.0
        invariant braking <==> exists k :: 0 <= k < i && BrakesAt(limits, current, desired, dt, k)
        invariant enforced <==> braking || exists k :: 0 <= k < i && PlanOf(limits, current, desired, dt, k).limited
      {
        if s.givesPosition {
          pos[i] := desired.positions[i];
        }
        if s.givesVelocity {
          vel[i] := desired.velocities[i];
        }
        if Given(desired.accelerations, n) {
          acc[i] := desired.accelerations[i];
        }
        var limited, brakes := LimitJoint(s, ReadingOf(n, current, i), pos, vel, acc, i);
        assert PlanOf(limits, current, desired, dt, i).limited == limited;
        assert BrakesAt(limits, current, desired, dt, i) == brakes;
        enforced := enforced || limited || brakes;
        braking := braking || brakes;
      }
    }

    /** The second loop: all joints brake, even if a single one is near its limit. */
    method BrakeJoints(current: Point, desired: Point, dt: real, pos: array<real>, vel: array<real>, acc: array<real>)
      requires AllSane(limits) && Usable(|limits|, current, desired, dt) && Distinct(pos, vel, acc)
      requires Braking(limits, current, desired, dt)
      requires forall k :: 0 <= k < |limits| ==>
                             var p := PlanOf(limits, current, desired, dt, k);
                             pos[k] == p.position && vel[k] == p.velocity && acc[k] == p.acceleration
      modifies pos, vel, acc
      ensures forall k :: 0 <= k < |limits| ==>
                            var p := OutcomeOf(limits, current, desired, dt, k);
                            pos[k] == p.position && vel[k] == p.velocity && acc[k] == p.acceleration
    {
      hide PlanOf;
      hide Braking;
      hide Braked;
      var n := |limits|;
      var s := SettingOf(n, desired, dt);
      for i := 0 to n
        invariant forall k :: 0 <= k < i ==>
                    var p := OutcomeOf(limits, current, desired, dt, k);
                    pos[k] == p.position && vel[k] == p.velocity && acc[k] == p.acceleration
        invariant forall k :: i <= k < n ==>
                    var p := PlanOf(limits, current, desired, dt, k);
                    pos[k] == p.position && vel[k] == p.velocity && acc[k] == p.acceleration
      {
        BrakeAt(s, ReadingOf(n, current, i), pos, vel, acc, i, PlanOf(limits, current, desired, dt, i).limited);
      }
    }

    /** on_enforce. */
    method OnEnforce(current: Point, desired: Point, dt: real) returns (enforced: bool, result: Point)
      requires AllSane(limits)
      ensures !Usable(|limits|, current, desired, dt) ==> !enforced && result == desired
      ensures Usable(|limits|, current, desired, dt) ==>
                && result == Commands(limits, current, desired, dt)
                && (enforced <==> Enforces(limits, current, desired, dt))
    {
      hide PlanOf;
      hide Braking;
      hide Braked;
      hide Enforces;
      enforced, result := false, desired;
      var n := |limits|;
      if !Usable(n, current, desired, dt) {
        return;
      }
      var pos, vel, acc := new real[n](_ => 0.0), new real[n](_ => 0.0), new real[n](_ => 0.0);
      var braking;
      enforced, braking := PlanJoints(current, desired, dt, pos, vel, acc);
      if braking {
        BrakeJoints(current, desired, dt, pos, vel, acc);
      }
      if Given(desired.positions, n) {
        result := result.(positions := pos[..]);
      }
      if Given(desired.velocities, n) {
        result := result.(velocities := vel[..]);
      }
      if Given(desired.accelerations, n) {
        result := result.(accelerations := acc[..]);
      }
    }
  }
}
