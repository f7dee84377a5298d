/** The handshake between the service thread, which requests a controller switch, and the real-time
    loop (controller_manager.cpp, the end of switch_controller_cb, manage_switch and update). Both
    threads are state machines whose steps interleave in any order. The skip test of one controller,
    and the end of a cycle - `do_switch` is read and either the ready flag raised or the mutex tried -
    are single steps. */
module SwitchHandshake {
  import opened Names

  /** Where the service thread is. */
  datatype Service =
    | Idle
    | Filling                     // reset done, the request lists are being filled
    | Chosen                      // activate_asap is set
    | Lowered                     // ready_to_switch is lowered
    | Polling                     // non-asap: do_switch is raised, waiting for ready_to_switch
    | Managing                    // non-asap: inside manage_switch, holding the mutex
    | Managed                     // non-asap: manage_switch has returned
    | Locking                     // asap: do_switch is raised, about to lock the mutex
    | Checking(timedOut: bool)    // asap: holding the mutex, about to look at do_switch
    | Blocked                     // asap: inside the condition wait, mutex released
    | Leaving(normal: bool, locked: bool)   // the wait is over; clear_requests is about to start
    | Clearing(normal: bool, locked: bool)  // do_switch is lowered, the rest is being cleared

  /** Where the real-time loop is. */
  datatype RealTime =
    | Looping
    | Updating(c: Name)           // inside the update of one controller
    | Body                        // inside manage_switch, holding the mutex, before its effects
    | BodyDone                    // the effects have happened, do_switch is about to be lowered
    | Unlocking                   // do_switch is lowered, the mutex still held

  datatype Holder = Free | ByService | ByRealTime

  /** How the caller left the wait, and how often the body of manage_switch has run when the request is
      over, that is, cleared. */
  datatype Report = Report(asap: bool, normal: bool, runs: nat)

  datatype State = State(
    doSwitch: bool,
    ready: bool,
    asap: bool,
    named: set<Name>,
    mutex: Holder,
    service: Service,
    realTime: RealTime,
    runs: nat,
    reports: seq<Report>)

  const Start := State(false, false, false, {}, Free, Idle, Looping, 0, [])

  datatype Event =
    | Reset
    | Fill(named: set<Name>)
    | GiveUp
    | Choose(asap: bool)
    | LowerReady
    | RaiseDoSwitch
    | SeeReady
    | PollTimeout
    | FinishManaging
    | LockMutex
    | Look
    | Wake(timedOut: bool)
    | ClearDoSwitch
    | ClearRest
    | Consider(c: Name)
    | FinishUpdate
    | EndOfCycle
    | RunBody
    | LowerDoSwitch
    | Unlock

  /** One step; an event that is not possible in a state leaves it as it is. */
  function Step(s: State, e: Event): State {
    match e
    // ---- service thread
    case Reset =>
      if s.service == Idle then s.(doSwitch := false, asap := false, ready := false, service := Filling) else s
    case Fill(named) =>
      if s.service == Filling then s.(named := named) else s
    case GiveUp =>
      if s.service == Filling then s.(named := {}, service := Idle) else s
    case Choose(asap) =>
      if s.service == Filling then s.(asap := asap, service := Chosen) else s
    case LowerReady =>
      if s.service == Chosen then s.(ready := false, service := Lowered) else s
    case RaiseDoSwitch =>
      if s.service == Lowered then s.(doSwitch := true, runs := 0, service := if s.asap then Locking else Polling) else s
    case SeeReady =>
      if s.service != Polling || !s.ready then s
      else if s.mutex == Free then s.(mutex := ByService, service := Managing)
      else s.(service := Managed)  // try_lock fails, manage_switch returns at once
    case PollTimeout =>
      if s.service == Polling
      then s.(service := Leaving(false, false)) else s
    case FinishManaging =>
      if s.service == Managing then s.(runs := s.runs + 1, doSwitch := false, mutex := Free, service := Managed)
      else if s.service == Managed
      then s.(service := Leaving(true, false)) else s
    case LockMutex =>
      if s.service == Locking && s.mutex == Free then s.(mutex := ByService, service := Checking(false)) else s
    case Look =>
      if !s.service.Checking? then s
      else if !s.doSwitch
      then s.(mutex := Free, service := Leaving(true, false))
      else if s.service.timedOut
      then s.(service := Leaving(false, true))
      else s.(mutex := Free, service := Blocked)
    case Wake(timedOut) =>
      if s.service == Blocked && s.mutex == Free then s.(mutex := ByService, service := Checking(timedOut)) else s
    case ClearDoSwitch =>
      if s.service.Leaving? then s.(doSwitch := false, service := Clearing(s.service.normal, s.service.locked)) else s
    case ClearRest =>
      if s.service.Clearing?
      then s.(ready := false, asap := false, named := {}, mutex := if s.service.locked then Free else s.mutex,
              service := Idle, reports := s.reports + [Report(s.asap, s.service.normal, s.runs)])
      else s
    // ---- real-time thread
    case Consider(c) =>
      if s.realTime != Looping || (s.doSwitch && !s.asap && c in s.named) then s else s.(realTime := Updating(c))
    case FinishUpdate =>
      if s.realTime.Updating? then s.(realTime := Looping) else s
    case EndOfCycle =>
      if s.realTime != Looping || !s.doSwitch then s
      else if !s.asap then s.(ready := true)
      else if s.mutex == Free then s.(mutex := ByRealTime, realTime := Body)
      else s
    case RunBody =>
      if s.realTime == Body then s.(runs := s.runs + 1, realTime := BodyDone) else s
    case LowerDoSwitch =>
      if s.realTime == BodyDone then s.(doSwitch := false, realTime := Unlocking) else s
    case Unlock =>
      if s.realTime == Unlocking then s.(mutex := Free, realTime := Looping) else s
  }

  function Run(s: State, events: seq<Event>): State
    decreases |events|
  {
    if events == [] then s else Run(Step(s, events[0]), events[1..])
  }

  // ---------------------------------------------------------------------------------------
  // What is promised
  // ---------------------------------------------------------------------------------------

  /** While the service thread is inside manage_switch, the real-time loop is not inside the update of
      a controller that the request names, nor inside manage_switch itself. */
  ghost predicate Exclusive(s: State) {
    s.service == Managing ==> !(s.realTime.Updating? && s.realTime.c in s.named) && !InBody(s.realTime)
  }

  /** A request whose caller left the wait normally was served exactly once, one whose caller reports a
      timeout never. */
  ghost predicate Truthful(reports: seq<Report>) {
    forall i :: 0 <= i < |reports| ==> reports[i].runs == if reports[i].normal then 1 else 0
  }

  /** The real-time loop is inside manage_switch only for a caller that still waits: never after a wait
      has ended, and never between two requests. */
  ghost predicate ServesWaiting(s: State) {
    InBody(s.realTime) ==> s.service == Locking || s.service == Blocked
  }

  predicate InBody(r: RealTime) {
    r == Body || r == BodyDone || r == Unlocking
  }

  // ---------------------------------------------------------------------------------------
  // The invariant
  // ---------------------------------------------------------------------------------------

  /** Who holds the mutex. */
  ghost predicate MutexOwned(s: State) {
    && (s.mutex == ByRealTime <==> InBody(s.realTime))
    && (s.mutex == ByService <==>
          s.service == Managing || s.service.Checking? || (s.service.Leaving? && s.service.locked)
          || (s.service.Clearing? && s.service.locked))
  }

  /** do_switch is raised from the start of a wait to its end, unless the body has run. */
  ghost predicate FlagMatches(s: State) {
    && (s.service == Idle || s.service == Filling || s.service == Chosen || s.service == Lowered || s.service.Clearing?
        ==> !s.doSwitch)
    && (s.service == Polling || s.service == Managing ==> s.doSwitch && !s.asap && s.runs == 0)
    && (s.service == Managed ==> !s.doSwitch && s.runs == 1)
    && (s.service == Locking || s.service == Blocked || s.service.Checking? ==> s.asap)
    && (s.service.Leaving? && s.doSwitch ==> !s.service.normal && (s.asap <==> s.service.locked))
    && (s.service.Leaving? || s.service.Clearing? ==> s.runs == if s.service.normal then 1 else 0)
    && ServesWaiting(s)
  }

  /** In an asap wait, do_switch tells whether the body has run. */
  ghost predicate RunsCounted(s: State) {
    s.service == Locking || s.service == Blocked || s.service.Checking? ==>
      match s.realTime
      case Body => s.doSwitch && s.runs == 0
      case BodyDone => s.doSwitch && s.runs == 1
      case Unlocking => !s.doSwitch && s.runs == 1
      case _ => s.runs == if s.doSwitch then 0 else 1
  }

  /** The ready flag is raised only after a cycle that saw the request. */
  ghost predicate ReadyMatches(s: State) {
    && (s.service == Lowered ==> !s.ready)
    && (s.service == Managing ==> s.ready)
    && ((s.service == Polling || s.service == Managing) && s.ready && s.realTime.Updating? ==> s.realTime.c !in s.named)
  }

  ghost predicate Invariant(s: State) {
    MutexOwned(s) && FlagMatches(s) && RunsCounted(s) && ReadyMatches(s) && Truthful(s.reports)
  }

  lemma StepKeepsInvariant(s: State, e: Event)
    requires Invariant(s)
    ensures Invariant(Step(s, e))
  {
  }

  lemma {:induction false} RunKeepsInvariant(s: State, events: seq<Event>)
    requires Invariant(s)
    ensures Invariant(Run(s, events))
    decreases |events|
  {
    if events != [] {
      StepKeepsInvariant(s, events[0]);
      RunKeepsInvariant(Step(s, events[0]), events[1..]);
    }
  }

  /** In every interleaving of any number of requests, timeouts included, the handshake is exclusive,
      the body runs for waiting callers only, and every report is truthful when its request is over. */
  lemma EveryInterleavingIsSafe(events: seq<Event>)
    ensures Exclusive(Run(Start, events))
    ensures ServesWaiting(Run(Start, events))
    ensures Truthful(Run(Start, events).reports)
  {
    RunKeepsInvariant(Start, events);
  }

  /** The caller has reported a timeout only if one expired: without that, every request that is over
      was served. */
  lemma {:induction false} OnlyTimeoutsFail(s: State, events: seq<Event>)
    requires forall i :: 0 <= i < |events| ==> events[i] != PollTimeout && events[i] != Wake(true)
    requires (s.service.Leaving? || s.service.Clearing?) ==> s.service.normal
    requires s.service.Checking? ==> !s.service.timedOut
    requires forall i :: 0 <= i < |s.reports| ==> s.reports[i].normal
    ensures forall i :: 0 <= i < |Run(s, events).reports| ==> Run(s, events).reports[i].normal
    decreases |events|
  {
    if events != [] {
      OnlyTimeoutsFail(Step(s, events[0]), events[1..]);
    }
  }

  /** An expired timeout ends the wait of a caller that nobody serves. */
  lemma ExpiredTimeoutEndsWait(s: State)
    requires Invariant(s)
    ensures s.service == Polling ==> Step(s, PollTimeout).service == Leaving(false, false)
    ensures s.service == Blocked && s.doSwitch && !InBody(s.realTime)
            ==> Step(Step(s, Wake(true)), Look).service == Leaving(false, true)
  {
  }

  /** Between two controllers the real-time loop goes on to update any controller, and comes back, except
      one that a request names which is not asap and whose do_switch is raised: while its caller polls, is
      inside manage_switch, or has timed out and not yet cleared the request. */
  lemma SkipsExactlyTheNamed(s: State, c: Name)
    requires Invariant(s) && s.realTime == Looping
    ensures var skipped := c in s.named && !s.asap && s.doSwitch;
            && (skipped ==> s.service == Polling || s.service == Managing || s.service == Leaving(false, false))
            && (s.service == Polling || s.service == Managing ==> (skipped <==> c in s.named))
            && Step(s, Consider(c)) == (if skipped then s else s.(realTime := Updating(c)))
            && Step(Step(s, Consider(c)), FinishUpdate) == s
  {
  }

  /** The names that the request was filled with last are the ones that are respected until it is over. */
  lemma FilledNamesAreSafe(s: State, names: set<Name>, later: seq<Event>)
    requires Invariant(s) && s.service == Filling
    requires forall i :: 0 <= i < |later| ==> !later[i].Fill? && later[i] != GiveUp && later[i] != ClearRest
    ensures var t := Run(Step(s, Fill(names)), later);
            && t.named == names
            && (t.service == Managing && t.realTime.Updating? ==> t.realTime.c !in names)
  {
    StepKeepsInvariant(s, Fill(names));
    RunKeepsInvariant(Step(s, Fill(names)), later);
    NamesStay(Step(s, Fill(names)), later);
  }

  lemma {:induction false} NamesStay(s: State, later: seq<Event>)
    requires forall i :: 0 <= i < |later| ==> !later[i].Fill? && later[i] != GiveUp && later[i] != ClearRest
    ensures Run(s, later).named == s.named
    decreases |later|
  {
    if later != [] {
      NamesStay(Step(s, later[0]), later[1..]);
    }
  }

  // ---------------------------------------------------------------------------------------
  // Every phase of a request comes to its end
  // ---------------------------------------------------------------------------------------

  /** A request is made; it is served; its caller has left the wait and it is cleared, after which
      `reports` are all reports. */
  datatype Phase = Making | Serving | Ending(reports: seq<Report>)

  ghost predicate In(p: Phase, s: State) {
    && Invariant(s)
    && match p
       case Making => s.service == Idle || s.service == Filling || s.service == Chosen || s.service == Lowered
       case Serving =>
         || (s.service == Polling && s.ready) || s.service == Managing || s.service == Managed
         || ((s.service == Locking || s.service == Blocked || s.service.Checking?) && (InBody(s.realTime) || !s.doSwitch))
       case Ending(reports) =>
         (s.service.Leaving? || s.service.Clearing?) && s.reports + [Report(s.asap, s.service.normal, s.runs)] == reports
  }

  ghost predicate Done(p: Phase, s: State) {
    match p
    case Making => (s.service == Polling || s.service == Locking) && s.doSwitch && s.runs == 0 && (s.asap <==> s.service == Locking)
    case Serving => s.service == Leaving(true, false) && s.runs == 1
    case Ending(reports) => s.service == Idle && !s.doSwitch && s.named == {} && s.reports == reports && s.mutex != ByService
  }

  /** The step that brings the request closer to the end of its phase: of the real-time loop while it is
      inside manage_switch for an asap caller, else of the caller. */
  predicate Due(s: State, e: Event) {
    match s.service
    case Idle => e == Reset
    case Filling => e.Choose?
    case Chosen => e == LowerReady
    case Lowered => e == RaiseDoSwitch
    case Polling => e == SeeReady
    case Managing => e == FinishManaging
    case Managed => e == FinishManaging
    case Leaving(_, _) => e == ClearDoSwitch
    case Clearing(_, _) => e == ClearRest
    case _ => DueInWait(s, e)
  }

  predicate DueInWait(s: State, e: Event) {
    match s.realTime
    case Body => e == RunBody
    case BodyDone => e == LowerDoSwitch
    case Unlocking => e == Unlock
    case _ => if s.service == Locking then e == LockMutex else if s.service == Blocked then e.Wake? else e == Look
  }

  /** How many such steps are left. */
  function StepsLeft(s: State): nat {
    match s.service
    case Idle => 4
    case Filling => 3
    case Chosen => 2
    case Lowered => 1
    case Polling => 3
    case Managing => 2
    case Managed => 1
    case Leaving(_, _) => 2
    case Clearing(_, _) => 1
    case _ =>
      match s.realTime
      case Body => 5
      case BodyDone => 4
      case Unlocking => 3
      case _ => if s.service.Checking? then 1 else 2
  }

  /** How many of them occur until the phase is over. */
  ghost function StepsTaken(p: Phase, s: State, events: seq<Event>): nat
    decreases |events|
  {
    if events == [] || Done(p, s) then 0
    else (if Due(s, events[0]) then 1 else 0) + StepsTaken(p, Step(s, events[0]), events[1..])
  }

  /** Some moment of the run at which the phase is over. */
  ghost predicate Ends(p: Phase, s: State, events: seq<Event>) {
    exists n :: 0 <= n <= |events| && Done(p, Run(s, events[..n]))
  }

  /** The caller itself does not give up while filling the request, nor times out before it has seen the
      ready flag. */
  predicate Steady(s: State, events: seq<Event>)
    decreases |events|
  {
    events != [] ==>
      && !(s.service == Filling && events[0] == GiveUp) && !(s.service == Polling && events[0] == PollTimeout)
      && Steady(Step(s, events[0]), events[1..])
  }

  /** No other event gets in the way: no further timeout, no further cycle. */
  lemma PhaseStep(p: Phase, s: State, e: Event)
    requires In(p, s) && Steady(s, [e])
    ensures var t := Step(s, e);
            if Due(s, e) && StepsLeft(s) == 1 then Done(p, t)
            else In(p, t) && !Done(p, t) && StepsLeft(t) == StepsLeft(s) - (if Due(s, e) then 1 else 0)
  {
    StepKeepsInvariant(s, e);
    assert Steady(s, [e]) ==> !(s.service == Filling && e == GiveUp) && !(s.service == Polling && e == PollTimeout);
    hide Steady;
    match p
    case Making => MakingStep(s, e);
    case Serving => ServingStep(s, e);
    case Ending(reports) => EndingStep(reports, s, e);
  }

  lemma MakingStep(s: State, e: Event)
    requires In(Making, s) && Invariant(Step(s, e)) && !(s.service == Filling && e == GiveUp)
    ensures var t := Step(s, e);
            if Due(s, e) && StepsLeft(s) == 1 then Done(Making, t)
            else In(Making, t) && !Done(Making, t) && StepsLeft(t) == StepsLeft(s) - (if Due(s, e) then 1 else 0)
  {
  }

  lemma ServingStep(s: State, e: Event)
    requires In(Serving, s) && Invariant(Step(s, e)) && !(s.service == Polling && e == PollTimeout)
    ensures var t := Step(s, e);
            if Due(s, e) && StepsLeft(s) == 1 then Done(Serving, t)
            else In(Serving, t) && !Done(Serving, t) && StepsLeft(t) == StepsLeft(s) - (if Due(s, e) then 1 else 0)
  {
    hide Step;
    hide Invariant;
    hide Due;
    hide StepsLeft;
    hide Done;
    if s.service == Polling || s.service == Managing || s.service == Managed {
      PollingStep(s, e);
    } else {
      WaitingStep(s, e);
    }
  }

  lemma PollingStep(s: State, e: Event)
    requires In(Serving, s) && Invariant(Step(s, e)) && !(s.service == Polling && e == PollTimeout)
    requires s.service == Polling || s.service == Managing || s.service == Managed
    ensures var t := Step(s, e);
            if Due(s, e) && StepsLeft(s) == 1 then Done(Serving, t)
            else In(Serving, t) && !Done(Serving, t) && StepsLeft(t) == StepsLeft(s) - (if Due(s, e) then 1 else 0)
  {
    hide RunsCounted;
    hide ReadyMatches;
    hide Truthful;
  }

  lemma WaitingStep(s: State, e: Event)
    requires In(Serving, s) && Invariant(Step(s, e))
    requires s.service == Locking || s.service == Blocked || s.service.Checking?
    ensures var t := Step(s, e);
            if Due(s, e) && StepsLeft(s) == 1 then Done(Serving, t)
            else In(Serving, t) && !Done(Serving, t) && StepsLeft(t) == StepsLeft(s) - (if Due(s, e) then 1 else 0)
  {
    hide ReadyMatches;
    hide Truthful;
  }

  lemma EndingStep(reports: seq<Report>, s: State, e: Event)
    requires In(Ending(reports), s) && Invariant(Step(s, e))
    ensures var t := Step(s, e);
            if Due(s, e) && StepsLeft(s) == 1 then Done(Ending(reports), t)
            else In(Ending(reports), t) && !Done(Ending(reports), t) && StepsLeft(t) == StepsLeft(s) - (if Due(s, e) then 1 else 0)
  {
    hide RunsCounted;
    hide ReadyMatches;
    hide Truthful;
  }

  lemma EndsOneEarlier(p: Phase, s: State, events: seq<Event>)
    requires events != [] && !Done(p, s)
    ensures Ends(p, s, events) <==> Ends(p, Step(s, events[0]), events[1..])
  {
    hide Step;
    hide Done;
    var t, rest := Step(s, events[0]), events[1..];
    if Ends(p, s, events) {
      var n :| 0 <= n <= |events| && Done(p, Run(s, events[..n]));
      assert events[..n][1..] == rest[..n - 1];
    }
    if Ends(p, t, rest) {
      var n :| 0 <= n <= |rest| && Done(p, Run(t, rest[..n]));
      assert events[..n + 1][1..] == rest[..n];
    }
  }

  lemma EndsAtOnce(p: Phase, s: State, events: seq<Event>)
    requires Done(p, s)
    ensures Ends(p, s, events)
  {
    assert events[..0] == [];
  }

  lemma InIsNotDone(p: Phase, s: State)
    requires In(p, s)
    ensures !Done(p, s)
  {
  }

  /** In every interleaving a phase of a request ends exactly when the due steps that are left have
      occurred, whatever happens between them; until then it lasts. */
  lemma {:induction false} PhaseEnds(p: Phase, s: State, events: seq<Event>)
    requires In(p, s) && Steady(s, events)
    ensures StepsTaken(p, s, events) <= StepsLeft(s)
    ensures Ends(p, s, events) <==> StepsTaken(p, s, events) == StepsLeft(s)
    ensures !Ends(p, s, events) ==> In(p, Run(s, events))
    decreases |events|
  {
    hide In;
    hide Step;
    hide Due;
    hide Done;
    InIsNotDone(p, s);
    if events == [] {
      assert !Ends(p, s, events);
      StepsAreLeft(s);
    } else {
      var t := Step(s, events[0]);
      assert Steady(s, [events[0]]);
      PhaseStep(p, s, events[0]);
      EndsOneEarlier(p, s, events);
      if Done(p, t) {
        EndsAtOnce(p, t, events[1..]);
      } else {
        PhaseEnds(p, t, events[1..]);
      }
    }
  }

  lemma StepsAreLeft(s: State)
    ensures StepsLeft(s) > 0
  {
  }

  /** An asap caller that waits when a cycle ends is served by that cycle. In every interleaving that
      follows it leaves normally exactly when the three remaining steps of the real-time loop and its own
      two have occurred; until then it still waits, and no expired timeout makes it leave. */
  lemma WaitingCallerIsServed(s: State, events: seq<Event>)
    requires Invariant(s) && (s.service == Locking || s.service == Blocked) && s.realTime == Looping && s.doSwitch
    requires Steady(Step(s, EndOfCycle), events)
    ensures var t := Step(s, EndOfCycle);
            && t.realTime == Body
            && (Ends(Serving, t, events) <==> StepsTaken(Serving, t, events) == 5)
            && (Ends(Serving, t, events) || In(Serving, Run(t, events)))
  {
    StepKeepsInvariant(s, EndOfCycle);
    PhaseEnds(Serving, Step(s, EndOfCycle), events);
  }

  /** A caller that is not in a hurry and polls when a cycle ends sees the ready flag. In every interleaving
      that follows in which it does not time out first, it leaves normally, the body having run once,
      exactly when its three steps have occurred: it looks at the flag, runs manage_switch and returns. */
  lemma PollingCallerIsServed(s: State, events: seq<Event>)
    requires Invariant(s) && s.service == Polling && s.realTime == Looping
    requires Steady(Step(s, EndOfCycle), events)
    ensures var t := Step(s, EndOfCycle);
            && t.ready
            && (Ends(Serving, t, events) <==> StepsTaken(Serving, t, events) == 3)
            && (Ends(Serving, t, events) || In(Serving, Run(t, events)))
  {
    StepKeepsInvariant(s, EndOfCycle);
    PhaseEnds(Serving, Step(s, EndOfCycle), events);
  }

  /** From an idle service thread, a request waits exactly when its four steps have occurred, and once its
      caller has left the wait it is reported and over exactly when two more have. */
  lemma RequestsAreMadeAndCleared(s: State, events: seq<Event>)
    requires Invariant(s) && Steady(s, events)
    ensures s.service == Idle ==> (Ends(Making, s, events) <==> StepsTaken(Making, s, events) == 4)
    ensures s.service.Leaving? ==>
              var over := Ending(s.reports + [Report(s.asap, s.service.normal, s.runs)]);
              Ends(over, s, events) <==> StepsTaken(over, s, events) == 2
  {
    if s.service == Idle {
      PhaseEnds(Making, s, events);
    } else if s.service.Leaving? {
      PhaseEnds(Ending(s.reports + [Report(s.asap, s.service.normal, s.runs)]), s, events);
    }
  }
}
