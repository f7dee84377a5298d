/** The saturation limiter for the command interfaces of one joint (joint_range_limiter.cpp) and what it
    guarantees over runs of any length. */
module RangeLimiter {
  import opened Names
  import opened JointLimits
  import opened Reals

  /** JointControlInterfacesData: the values that are present. */
  datatype Data = Data(
    position: Option<real>, velocity: Option<real>, effort: Option<real>,
    acceleration: Option<real>, jerk: Option<real>)

  const NoData := Data(None, None, None, None, None)

  predicate HasData(d: Data) {
    d != NoData
  }

  /** The initial previous command for one quantity: the actual value, or else the desired one. */
  function Initial(previous: Option<real>, actual: Option<real>, desired: Option<real>): Option<real> {
    if desired.None? then previous else if actual.Some? then actual else desired
  }

  /** The previous command that the limits are computed from. */
  function Filled(previous: Data, actual: Data, desired: Data): Data {
    if HasData(previous) then previous
    else Data(
           Initial(previous.position, actual.position, desired.position),
           Initial(previous.velocity, actual.velocity, desired.velocity),
           Initial(previous.effort, actual.effort, desired.effort),
           Initial(previous.acceleration, actual.acceleration, desired.acceleration),
           Initial(previous.jerk, actual.jerk, desired.jerk))
  }

  /** update_prev_command for one quantity. */
  function Updated(previous: Option<real>, command: Option<real>): Option<real> {
    if command.Some? then command else previous
  }

  /** A command is the desired value clamped to the window. */
  predicate Limited(command: Option<real>, desired: Option<real>, w: Window)
    requires Ordered(w)
  {
    command == if desired.Some? then Some(Clamp(desired.value, w)) else None
  }

  function JerkLimits(l: Limits): Window {
    Window(-l.maxJerk, l.maxJerk)
  }

  lemma LimitedIfChanged(x: real, w: Window)
    requires Ordered(w)
    ensures IsLimited(x, w) <==> Clamp(x, w) != x
  {
  }

  lemma JerkIsLimited(l: Limits, x: real)
    requires Sane(l)
    ensures var c := Clamp(x, JerkLimits(l)); Abs(c) <= l.maxJerk && (Abs(x) <= l.maxJerk ==> c == x)
  {
  }

  class JointSaturationLimiter {
    var limits: Limits
    var prev: Data

    /** on_init: nothing has been commanded yet. */
    constructor (limits: Limits)
      ensures this.limits == limits && prev == NoData
    {
      this.limits := limits;
      new;
      ResetInternals();
    }

    /** reset_internals. */
    method ResetInternals()
      modifies `prev
      ensures prev == NoData
    {
      prev := NoData;
    }

    /** The conditional filling of the previous command. */
    method FillPrevCommand(actual: Data, desired: Data)
      modifies `prev
      ensures prev == Filled(old(prev), actual, desired)
    {
      if !HasData(prev) {
        var filled := prev;
        if desired.position.Some? {
          filled := filled.(position := if actual.position.Some? then actual.position else desired.position);
        }
        if desired.velocity.Some? {
          filled := filled.(velocity := if actual.velocity.Some? then actual.velocity else desired.velocity);
        }
        if desired.effort.Some? {
          filled := filled.(effort := if actual.effort.Some? then actual.effort else desired.effort);
        }
        if desired.acceleration.Some? {
          filled := filled.(acceleration := if actual.acceleration.Some? then actual.acceleration else desired.acceleration);
        }
        if desired.jerk.Some? {
          filled := filled.(jerk := if actual.jerk.Some? then actual.jerk else desired.jerk);
        }
        prev := filled;
      }
    }

    /** on_enforce. `threw` stands for the exception on a position that is far out of bounds; the
        command is then left as it was. The result `enforced` tells whether the command was changed. */
    method OnEnforce(actual: Data, desired: Data, dt: real) returns (threw: bool, enforced: bool, command: Data)
      requires Sane(limits)
      modifies `prev
      ensures dt <= 0.0 ==> !threw && !enforced && command == desired && prev == old(prev)
      ensures threw <==> dt > 0.0 && desired.position.Some? && FarOutOfBounds(limits, actual.position)
      ensures threw ==> command == desired && prev == Filled(old(prev), actual, desired)
      ensures threw <==> dt > 0.0 && desired.position.Some? && limits.hasPosition && actual.position.Some?
                         && (actual.position.value - limits.maxPosition > 0.0087 || limits.minPosition - actual.position.value > 0.0087)
      ensures enforced <==> command != desired
      ensures dt > 0.0 && !threw ==>
                var p := Filled(old(prev), actual, desired);
                && Limited(command.position, desired.position,
                           PositionLimits(limits, actual.velocity, actual.position, p.position, dt))
                && (desired.velocity.Some? ==>
                      Limited(command.velocity, desired.velocity,
                              VelocityLimits(limits, desired.velocity.value, actual.position, p.velocity, dt)))
                && (desired.velocity.None? ==> command.velocity.None?)
                && Limited(command.effort, desired.effort, EffortLimits(limits, actual.position, actual.velocity))
                && (desired.acceleration.Some? ==>
                      Limited(command.acceleration, desired.acceleration,
                              AccelerationLimits(limits, desired.acceleration.value, actual.velocity)))
                && (desired.acceleration.None? ==> command.acceleration.None?)
                && Limited(command.jerk, desired.jerk, JerkLimits(limits))
                && (desired.jerk.Some? ==> Abs(command.jerk.value) <= limits.maxJerk
                                           && (Abs(desired.jerk.value) <= limits.maxJerk ==> command.jerk == desired.jerk))
                && prev == Data(Updated(p.position, command.position), Updated(p.velocity, command.velocity),
                                Updated(p.effort, command.effort), Updated(p.acceleration, command.acceleration),
                                Updated(p.jerk, command.jerk))
    {
      hide PositionLimits;
      hide VelocityLimits;
      hide EffortLimits;
      hide AccelerationLimits;
      hide JerkLimits;
      hide Filled;
      hide Updated;
      hide Clamp;
      hide IsLimited;
      threw, enforced, command := false, false, desired;
      if dt <= 0.0 {
        return;
      }
      FillPrevCommand(actual, desired);
      if desired.position.Some? {
        if FarOutOfBounds(limits, actual.position) {
          threw := true;
          return;
        }
        var w := PositionLimits(limits, actual.velocity, actual.position, prev.position, dt);
        LimitedIfChanged(desired.position.value, w);
        enforced := IsLimited(desired.position.value, w);
        command := command.(position := Some(Clamp(desired.position.value, w)));
      }
      if desired.velocity.Some? {
        var w := VelocityLimits(limits, desired.velocity.value, actual.position, prev.velocity, dt);
        LimitedIfChanged(desired.velocity.value, w);
        enforced := IsLimited(desired.velocity.value, w) || enforced;
        command := command.(velocity := Some(Clamp(desired.velocity.value, w)));
      }
      if desired.effort.Some? {
        var w := EffortLimits(limits, actual.position, actual.velocity);
        LimitedIfChanged(desired.effort.value, w);
        enforced := IsLimited(desired.effort.value, w) || enforced;
        command := command.(effort := Some(Clamp(desired.effort.value, w)));
      }
      if desired.acceleration.Some? {
        var w := AccelerationLimits(limits, desired.acceleration.value, actual.velocity);
        LimitedIfChanged(desired.acceleration.value, w);
        enforced := IsLimited(desired.acceleration.value, w) || enforced;
        command := command.(acceleration := Some(Clamp(desired.acceleration.value, w)));
      }
      if desired.jerk.Some? {
        var w := JerkLimits(limits);
        JerkIsLimited(limits, desired.jerk.value);
        LimitedIfChanged(desired.jerk.value, w);
        enforced := IsLimited(desired.jerk.value, w) || enforced;
        command := command.(jerk := Some(Clamp(desired.jerk.value, w)));
      }
      prev := Data(Updated(prev.position, command.position), Updated(prev.velocity, command.velocity),
                   Updated(prev.effort, command.effort), Updated(prev.acceleration, command.acceleration),
                   Updated(prev.jerk, command.jerk));
    }
  }

  // ---------------------------------------------------------------------------------------
  // Runs
  // ---------------------------------------------------------------------------------------

  /** One cycle as seen by the position, or velocity, limiter. */
  datatype Cycle = Cycle(actualPosition: Option<real>, actualVelocity: Option<real>, desired: real, dt: real)

  /** The previous command of cycle `k`. */
  function Previous(start: Option<real>, commands: seq<real>, k: nat): Option<real>
    requires k <= |commands|
  {
    if k == 0 then start else Some(commands[k - 1])
  }

  lemma PreviousInLonger(start: Option<real>, commands: seq<real>, command: real, k: nat)
    requires k <= |commands|
    ensures Previous(start, commands + [command], k) == Previous(start, commands, k)
  {
  }

  /** The command of one cycle, when no exception is thrown. */
  function PositionCommand(l: Limits, previous: Option<real>, c: Cycle): real {
    Clamp(c.desired, PositionLimits(l, c.actualVelocity, c.actualPosition, previous, c.dt))
  }

  function VelocityCommand(l: Limits, previous: Option<real>, c: Cycle): real
    requires Sane(l) && c.dt > 0.0
  {
    Clamp(c.desired, VelocityLimits(l, c.desired, c.actualPosition, previous, c.dt))
  }

  predicate Moving(cycles: seq<Cycle>) {
    forall k :: 0 <= k < |cycles| ==> cycles[k].dt > 0.0
  }

  /** A run in which every cycle commands a position and no exception is thrown. */
  ghost predicate PositionRun(l: Limits, start: Option<real>, cycles: seq<Cycle>, commands: seq<real>) {
    && |commands| == |cycles| && Moving(cycles)
    && forall k :: 0 <= k < |cycles| ==> commands[k] == PositionCommand(l, Previous(start, commands, k), cycles[k])
  }

  ghost predicate VelocityRun(l: Limits, start: Option<real>, cycles: seq<Cycle>, commands: seq<real>)
    requires Sane(l)
  {
    && |commands| == |cycles| && Moving(cycles)
    && forall k :: 0 <= k < |cycles| ==> commands[k] == VelocityCommand(l, Previous(start, commands, k), cycles[k])
  }

  /** The way between two positions is covered by a velocity in the given time. */
  predicate Near(first: real, last: real, velocity: real, time: real) {
    Abs(last - first) <= velocity * time
  }

  /** The time from cycle `i` to cycle `j`. */
  ghost function Elapsed(cycles: seq<Cycle>, i: nat, j: nat): real
    requires i <= j < |cycles|
  {
    if i == j then 0.0 else Elapsed(cycles, i, j - 1) + cycles[j].dt
  }

  /** Every position command is inside the limits, and the way from one command to any later one is
      covered by the maximum velocity. */
  lemma {:induction false} PositionRunBounded(l: Limits, start: Option<real>, cycles: seq<Cycle>, commands: seq<real>,
                                              i: nat, j: nat)
    requires Sane(l) && l.hasVelocity && PositionRun(l, start, cycles, commands) && i <= j < |cycles|
    ensures l.minPosition <= commands[j] <= l.maxPosition
    ensures Near(commands[i], commands[j], l.maxVelocity, Elapsed(cycles, i, j))
    decreases j
  {
    hide PositionCommand;
    hide Previous;
    hide Near;
    hide Elapsed;
    PositionStepBounded(l, start, cycles, commands, j);
    ElapsedStep(cycles, i, j);
    if i < j {
      PositionRunBounded(l, start, cycles, commands, i, j - 1);
      OneMoreStep(commands[i], commands[j - 1], commands[j], l.maxVelocity, Elapsed(cycles, i, j - 1), cycles[j].dt);
    } else {
      NoWay(commands[i], l.maxVelocity);
    }
  }

  lemma PositionStepBounded(l: Limits, start: Option<real>, cycles: seq<Cycle>, commands: seq<real>, j: nat)
    requires Sane(l) && l.hasVelocity && PositionRun(l, start, cycles, commands) && j < |cycles|
    ensures l.minPosition <= commands[j] <= l.maxPosition
    ensures j > 0 ==> Near(commands[j - 1], commands[j], l.maxVelocity, cycles[j].dt)
    decreases j
  {
    hide PositionLimits;
    hide Abs;
    PositionCommandBounded(l, cycles[j].actualVelocity, cycles[j].actualPosition, Previous(start, commands, j),
                           cycles[j].desired, cycles[j].dt);
    if j > 0 {
      PositionStepBounded(l, start, cycles, commands, j - 1);
    }
  }

  lemma ElapsedStep(cycles: seq<Cycle>, i: nat, j: nat)
    requires i <= j < |cycles|
    ensures Elapsed(cycles, i, j) == if i == j then 0.0 else Elapsed(cycles, i, j - 1) + cycles[j].dt
  {
  }

  lemma OneMoreStep(first: real, last: real, next: real, v: real, elapsed: real, dt: real)
    requires Near(first, last, v, elapsed) && Near(last, next, v, dt)
    ensures Near(first, next, v, elapsed + dt)
  {
    assert v * (elapsed + dt) == v * elapsed + v * dt;
  }

  lemma NoWay(x: real, v: real)
    ensures Near(x, x, v, 0.0)
  {
  }

  /** With every position that is read in bounds and a start within the maximum velocity, every velocity
      command is within it. */
  lemma {:induction false} VelocityRunBounded(l: Limits, start: Option<real>, cycles: seq<Cycle>, commands: seq<real>, k: nat)
    requires Sane(l) && l.hasVelocity && VelocityRun(l, start, cycles, commands) && k < |cycles|
    requires start.Some? ==> -l.maxVelocity <= start.value <= l.maxVelocity
    requires ReadInBounds(l, cycles)
    ensures -l.maxVelocity <= commands[k] <= l.maxVelocity
    ensures var previous := Previous(start, commands, k);
            previous.Some? ==> -l.maxVelocity <= previous.value <= l.maxVelocity
    decreases k
  {
    hide VelocityLimits;
    if k > 0 {
      VelocityRunBounded(l, start, cycles, commands, k - 1);
    }
    VelocityCommandBounded(l, cycles[k].actualPosition, Previous(start, commands, k), cycles[k].desired, cycles[k].dt);
  }

  predicate ReadInBounds(l: Limits, cycles: seq<Cycle>) {
    forall i :: 0 <= i < |cycles| && l.hasPosition && cycles[i].actualPosition.Some? ==> InBounds(l, cycles[i].actualPosition.value)
  }

  /** In such a run, the command of a cycle keeps the acceleration and position limits exactly when the
      windows of that cycle meet. */
  lemma VelocityRunRespectsIff(l: Limits, start: Option<real>, cycles: seq<Cycle>, commands: seq<real>, k: nat)
    requires Sane(l) && l.hasVelocity && VelocityRun(l, start, cycles, commands) && k < |cycles|
    requires start.Some? ==> -l.maxVelocity <= start.value <= l.maxVelocity
    requires ReadInBounds(l, cycles)
    requires l.hasPosition && l.hasAcceleration && cycles[k].actualPosition.Some? && Previous(start, commands, k).Some?
    ensures var x, previous := cycles[k].actualPosition.value, Previous(start, commands, k).value;
            Respects(l, x, previous, commands[k], cycles[k].dt) <==> WindowsMeet(l, x, previous, cycles[k].dt)
  {
    hide VelocityLimits;
    hide WindowsMeet;
    hide Respects;
    VelocityRunBounded(l, start, cycles, commands, k);
    VelocityCommandRespectsIff(l, cycles[k].actualPosition.value, Previous(start, commands, k).value,
                               cycles[k].desired, cycles[k].dt);
  }

  // ---------------------------------------------------------------------------------------
  // The control loop
  // ---------------------------------------------------------------------------------------

  function ActualOf(c: Cycle): Data {
    Data(c.actualPosition, c.actualVelocity, None, None, None)
  }

  /** The control loop commands a position in every cycle: the commands are a run as above, so they stay
      inside the limits, and the way between any two is covered by the maximum velocity. */
  method CommandPositions(limiter: JointSaturationLimiter, cycles: seq<Cycle>) returns (commands: seq<real>, ghost start: Option<real>)
    requires Sane(limiter.limits)
    requires forall k :: 0 <= k < |cycles| ==> cycles[k].dt > 0.0 && !FarOutOfBounds(limiter.limits, cycles[k].actualPosition)
    modifies limiter`prev
    ensures cycles != [] ==> start == Filled(old(limiter.prev), ActualOf(cycles[0]),
                                             NoData.(position := Some(cycles[0].desired))).position
    ensures cycles != [] ==> start == if old(limiter.prev) != NoData then old(limiter.prev).position
                                      else if cycles[0].actualPosition.Some? then cycles[0].actualPosition else Some(cycles[0].desired)
    ensures PositionRun(limiter.limits, start, cycles, commands)
    ensures limiter.limits.hasVelocity ==> Travels(limiter.limits, cycles, commands)
  {
    hide PositionLimits;
    hide VelocityLimits;
    hide EffortLimits;
    hide AccelerationLimits;
    hide Clamp;
    hide Travels;
    commands := [];
    start := if cycles == [] then None
             else Filled(limiter.prev, ActualOf(cycles[0]), NoData.(position := Some(cycles[0].desired))).position;
    for k := 0 to |cycles|
      invariant PositionRun(limiter.limits, start, cycles[..k], commands)
      invariant k == 0 ==> limiter.prev == old(limiter.prev)
      invariant k > 0 ==> limiter.prev.position == Some(commands[k - 1])
    {
      var threw, enforced, command := limiter.OnEnforce(ActualOf(cycles[k]), NoData.(position := Some(cycles[k].desired)), cycles[k].dt);
      PositionRunOneMore(limiter.limits, start, cycles, commands, command.position.value, k);
      commands := commands + [command.position.value];
    }
    assert cycles[..|cycles|] == cycles;
    PositionRunTravels(limiter.limits, start, cycles, commands);
  }

  /** The commands are inside the limits, and the way between any two is covered by the maximum velocity. */
  ghost predicate Travels(l: Limits, cycles: seq<Cycle>, commands: seq<real>)
    requires |commands| == |cycles|
  {
    forall i, j :: 0 <= i <= j < |cycles| ==>
      l.minPosition <= commands[j] <= l.maxPosition && Near(commands[i], commands[j], l.maxVelocity, Elapsed(cycles, i, j))
  }

  lemma PositionRunTravels(l: Limits, start: Option<real>, cycles: seq<Cycle>, commands: seq<real>)
    requires Sane(l) && PositionRun(l, start, cycles, commands)
    ensures l.hasVelocity ==> Travels(l, cycles, commands)
  {
    hide PositionCommand;
    hide Near;
    hide Elapsed;
    if l.hasVelocity {
      forall i, j | 0 <= i <= j < |cycles|
        ensures l.minPosition <= commands[j] <= l.maxPosition
        ensures Near(commands[i], commands[j], l.maxVelocity, Elapsed(cycles, i, j))
      {
        PositionRunBounded(l, start, cycles, commands, i, j);
      }
    }
  }

  lemma PositionRunOneMore(l: Limits, start: Option<real>, cycles: seq<Cycle>, commands: seq<real>, command: real, k: nat)
    requires k < |cycles| && PositionRun(l, start, cycles[..k], commands) && cycles[k].dt > 0.0
    requires command == PositionCommand(l, Previous(start, commands, k), cycles[k])
    ensures PositionRun(l, start, cycles[..k + 1], commands + [command])
  {
    hide PositionCommand;
    hide Previous;
    forall i | 0 <= i <= k
      ensures (commands + [command])[i] == PositionCommand(l, Previous(start, commands + [command], i), cycles[..k + 1][i])
    {
      PreviousInLonger(start, commands, command, i);
      if i < k {
        assert cycles[..k + 1][i] == cycles[..k][i] && (commands + [command])[i] == commands[i];
      }
    }
  }

  /** The same for velocities. */
  method CommandVelocities(limiter: JointSaturationLimiter, cycles: seq<Cycle>) returns (commands: seq<real>, ghost start: Option<real>)
    requires Sane(limiter.limits) && forall k :: 0 <= k < |cycles| ==> cycles[k].dt > 0.0
    modifies limiter`prev
    ensures cycles != [] ==> start == Filled(old(limiter.prev), ActualOf(cycles[0]),
                                             NoData.(velocity := Some(cycles[0].desired))).velocity
    ensures cycles != [] ==> start == if old(limiter.prev) != NoData then old(limiter.prev).velocity
                                      else if cycles[0].actualVelocity.Some? then cycles[0].actualVelocity else Some(cycles[0].desired)
    ensures VelocityRun(limiter.limits, start, cycles, commands)
    ensures limiter.limits.hasVelocity && ReadInBounds(limiter.limits, cycles)
            && (start.Some? ==> -limiter.limits.maxVelocity <= start.value <= limiter.limits.maxVelocity)
            ==> forall k :: 0 <= k < |cycles| ==> -limiter.limits.maxVelocity <= commands[k] <= limiter.limits.maxVelocity
  {
    hide VelocityLimits;
    hide PositionLimits;
    hide EffortLimits;
    hide AccelerationLimits;
    hide Clamp;
    commands := [];
    start := if cycles == [] then None
             else Filled(limiter.prev, ActualOf(cycles[0]), NoData.(velocity := Some(cycles[0].desired))).velocity;
    for k := 0 to |cycles|
      invariant VelocityRun(limiter.limits, start, cycles[..k], commands)
      invariant k == 0 ==> limiter.prev == old(limiter.prev)
      invariant k > 0 ==> limiter.prev.velocity == Some(commands[k - 1])
    {
      var threw, enforced, command := limiter.OnEnforce(ActualOf(cycles[k]), NoData.(velocity := Some(cycles[k].desired)), cycles[k].dt);
      VelocityRunOneMore(limiter.limits, start, cycles, commands, command.velocity.value, k);
      commands := commands + [command.velocity.value];
    }
    assert cycles[..|cycles|] == cycles;
    if limiter.limits.hasVelocity && ReadInBounds(limiter.limits, cycles)
       && (start.Some? ==> -limiter.limits.maxVelocity <= start.value <= limiter.limits.maxVelocity) {
      forall k | 0 <= k < |cycles|
        ensures -limiter.limits.maxVelocity <= commands[k] <= limiter.limits.maxVelocity
      {
        VelocityRunBounded(limiter.limits, start, cycles, commands, k);
      }
    }
  }

  lemma VelocityRunOneMore(l: Limits, start: Option<real>, cycles: seq<Cycle>, commands: seq<real>, command: real, k: nat)
    requires k < |cycles| && Sane(l) && VelocityRun(l, start, cycles[..k], commands) && cycles[k].dt > 0.0
    requires command == VelocityCommand(l, Previous(start, commands, k), cycles[k])
    ensures VelocityRun(l, start, cycles[..k + 1], commands + [command])
  {
    hide VelocityCommand;
    hide Previous;
    forall i | 0 <= i <= k
      ensures (commands + [command])[i] == VelocityCommand(l, Previous(start, commands + [command], i), cycles[..k + 1][i])
    {
      PreviousInLonger(start, commands, command, i);
      if i < k {
        assert cycles[..k + 1][i] == cycles[..k][i] && (commands + [command])[i] == commands[i];
      }
    }
  }
}
