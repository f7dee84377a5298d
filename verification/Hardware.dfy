/** Hardware components: their lifecycle, the lists of available interfaces, and the states of
    component groups (hardware_component.cpp and resource_manager.cpp). Every callback of a plug-in may
    answer SUCCESS, FAILURE or ERROR. */
module Hardware {
  import opened Names
  import opened Controllers

  datatype CallbackReturn = SUCCESS | FAILURE | ERROR

  datatype ReturnType = Ok | Error | Deactivate

  /** The components that are in no group have the empty group name. */
  const NoGroup := Name("")

  datatype Component = Component(
    name: Name,
    group: Name,
    sensor: bool,
    state: LifecycleState,
    stateInterfaces: seq<Interface>,
    commandInterfaces: seq<Interface>)

  // ---------------------------------------------------------------------------------------
  // The lifecycle methods of a component: `a` is the answer of the callback, `e` that of on_error
  // ---------------------------------------------------------------------------------------

  function AfterError(s: LifecycleState, e: CallbackReturn): (r: LifecycleState)
    ensures !Running(r)
  {
    if s == Unconfigured then s else if e == SUCCESS then Unconfigured else Finalized
  }

  function AfterConfigure(s: LifecycleState, a: CallbackReturn, e: CallbackReturn): LifecycleState {
    if s != Unconfigured then s
    else match a
      case SUCCESS => Inactive
      case FAILURE => Unconfigured
      case ERROR => AfterError(s, e)
  }

  function AfterCleanup(s: LifecycleState, a: CallbackReturn, e: CallbackReturn): LifecycleState {
    if s != Inactive then s else if a == SUCCESS then Unconfigured else AfterError(s, e)
  }

  function AfterShutdown(s: LifecycleState, a: CallbackReturn, e: CallbackReturn): LifecycleState {
    if s == Finalized then s else if a == SUCCESS then Finalized else AfterError(s, e)
  }

  function AfterActivate(s: LifecycleState, a: CallbackReturn, e: CallbackReturn): LifecycleState {
    if s != Inactive then s
    else match a
      case SUCCESS => Active
      case FAILURE => Inactive
      case ERROR => AfterError(s, e)
  }

  function AfterDeactivate(s: LifecycleState, a: CallbackReturn, e: CallbackReturn): LifecycleState {
    if s != Active then s
    else match a
      case SUCCESS => Inactive
      case FAILURE => Active
      case ERROR => AfterError(s, e)
  }

  /** What the plug-in answers to the transitions of one state request. */
  datatype Answers = Answers(
    configure: CallbackReturn, activate: CallbackReturn, deactivate: CallbackReturn,
    cleanup: CallbackReturn, shutdown: CallbackReturn, error: CallbackReturn)

  /** What one component does in a read or write cycle: its mutex may be held elsewhere, it may not be
      due, and its plug-in returns a result; `first` and `second` answer on_error. */
  datatype Turn = Turn(locked: bool, due: bool, result: ReturnType, first: CallbackReturn, second: CallbackReturn,
                       answers: Answers)

  // ---------------------------------------------------------------------------------------
  // What always holds
  // ---------------------------------------------------------------------------------------

  /** Names are unique, and no interface is exported twice. */
  ghost predicate WellFormed(cs: seq<Component>) {
    && (forall i :: 0 <= i < |cs| ==> Unique(cs[i].stateInterfaces) && Unique(cs[i].commandInterfaces))
    && (forall i, j :: 0 <= i < |cs| && 0 <= j < |cs| && i != j ==> Apart(cs[i], cs[j]))
  }

  ghost predicate Apart(a: Component, b: Component) {
    && a.name != b.name
    && (forall k :: k in a.stateInterfaces ==> k !in b.stateInterfaces)
    && (forall k :: k in a.commandInterfaces ==> k !in b.commandInterfaces)
  }

  /** All interfaces of the component are available. */
  ghost predicate Listed(c: Component, states: seq<Interface>, commands: seq<Interface>) {
    (forall k :: k in c.stateInterfaces ==> k in states) && (forall k :: k in c.commandInterfaces ==> k in commands)
  }

  ghost predicate AllListed(cs: seq<Component>, states: seq<Interface>, commands: seq<Interface>) {
    forall i :: 0 <= i < |cs| && Running(cs[i].state) ==> Listed(cs[i], states, commands)
  }

  ghost predicate GroupsKnown(cs: seq<Component>, groups: map<Name, ReturnType>) {
    forall i :: 0 <= i < |cs| && cs[i].group != NoGroup ==> cs[i].group in groups
  }

  lemma StateKeepsForm(cs: seq<Component>, k: nat, state: LifecycleState)
    requires WellFormed(cs) && k < |cs|
    ensures Unique(cs[k].stateInterfaces) && Unique(cs[k].commandInterfaces)
    ensures WellFormed(cs[k := cs[k].(state := state)])
  {
    var cs' := cs[k := cs[k].(state := state)];
    forall i, j | 0 <= i < |cs'| && 0 <= j < |cs'| && i != j
      ensures Apart(cs'[i], cs'[j])
    {
      assert Apart(cs[i], cs[j]);
    }
  }

  /** An ERROR is answered by on_error: SUCCESS there leads back to unconfigured, anything else to finalized. */
  predicate Recovered(s: LifecycleState, error: CallbackReturn) {
    s == if error == SUCCESS then Unconfigured else Finalized
  }

  /** The list loses, or gains, exactly these interfaces. */
  ghost predicate Moved(before: seq<Interface>, after: seq<Interface>, own: seq<Interface>, gone: bool, come: bool) {
    forall x :: x in after <==> if x in own && (gone || come) then come else x in before
  }

  /** Only the state of component `k` may differ. */
  ghost predicate OnlyStateOf(before: seq<Component>, after: seq<Component>, k: nat) {
    && |after| == |before| && k < |after|
    && after == before[k := before[k].(state := after[k].state)]
  }

  class ResourceStorage {
    var components: seq<Component>
    var availableStates: seq<Interface>
    var availableCommands: seq<Interface>
    var groupState: map<Name, ReturnType>

    /** Every inactive or active component has all its interfaces available, and no interface is
        listed twice. */
    ghost predicate Valid()
      reads this
    {
      && WellFormed(components) && GroupsKnown(components, groupState)
      && Unique(availableStates) && Unique(availableCommands)
      && AllListed(components, availableStates, availableCommands)
    }

    // -------------------------------------------------------------------------------------
    // The lifecycle functions of the storage
    // -------------------------------------------------------------------------------------

    /** The group forgets earlier errors. */
    method ResetGroup(k: nat)
      requires Valid() && k < |components|
      modifies `groupState
      ensures Valid()
      ensures groupState == GroupReset(old(groupState), components[k].group)
    {
      if components[k].group != NoGroup {
        groupState := groupState[components[k].group := Ok];
      }
    }

    method ConfigureHardware(k: nat, a: Answers) returns (result: bool)
      requires Valid() && k < |components|
      modifies this
      ensures Valid() && OnlyStateOf(old(components), components, k)
      ensures components[k].state == AfterConfigure(old(components)[k].state, a.configure, a.error)
      ensures groupState == GroupReset(old(groupState), components[k].group)
      ensures result <==> components[k].state == Inactive
      ensures components[k].state == (if old(components)[k].state != Unconfigured then old(components)[k].state
                                      else if a.configure == SUCCESS then Inactive else Unconfigured)
      ensures Moved(old(availableStates), availableStates, components[k].stateInterfaces, false, result)
      ensures Moved(old(availableCommands), availableCommands, components[k].commandInterfaces, false, result)
    {
      hide WellFormed;
      StateKeepsForm(components, k, AfterConfigure(components[k].state, a.configure, a.error));
      var c := components[k];
      var state := AfterConfigure(c.state, a.configure, a.error);
      result := state == Inactive;
      if result {
        availableStates := AddItems(availableStates, c.stateInterfaces);
        availableCommands := AddItems(availableCommands, c.commandInterfaces);
      }
      components := components[k := c.(state := state)];
      ResetGroup(k);
    }

    /** remove_all_hardware_interfaces_from_available_list. */
    method RemoveAllInterfaces(k: nat)
      requires Valid() && k < |components| && !Running(components[k].state)
      modifies `availableStates, `availableCommands
      ensures Valid()
      ensures forall i :: i in components[k].stateInterfaces ==> i !in availableStates
      ensures forall i :: i in components[k].commandInterfaces ==> i !in availableCommands
      ensures forall i :: i !in components[k].stateInterfaces ==> (i in availableStates <==> i in old(availableStates))
      ensures forall i :: i !in components[k].commandInterfaces ==> (i in availableCommands <==> i in old(availableCommands))
    {
      availableCommands := RemoveItems(availableCommands, components[k].commandInterfaces);
      availableStates := RemoveItems(availableStates, components[k].stateInterfaces);
      forall i | 0 <= i < |components| && Running(components[i].state)
        ensures Listed(components[i], availableStates, availableCommands)
      {
        assert Apart(components[i], components[k]);
        assert Listed(components[i], old(availableStates), old(availableCommands));
      }
    }

    method CleanupHardware(k: nat, a: Answers) returns (result: bool)
      requires Valid() && k < |components|
      modifies this
      ensures Valid() && OnlyStateOf(old(components), components, k)
      ensures components[k].state == AfterCleanup(old(components)[k].state, a.cleanup, a.error)
      ensures groupState == GroupReset(old(groupState), components[k].group)
      ensures result <==> components[k].state == Unconfigured
      ensures if old(components)[k].state != Inactive then components[k].state == old(components)[k].state
              else if a.cleanup == SUCCESS then components[k].state == Unconfigured
              else Recovered(components[k].state, a.error)
      ensures Moved(old(availableStates), availableStates, components[k].stateInterfaces, result, false)
      ensures Moved(old(availableCommands), availableCommands, components[k].commandInterfaces, result, false)
    {
      var c := components[k];
      components := components[k := c.(state := AfterCleanup(c.state, a.cleanup, a.error))];
      result := components[k].state == Unconfigured;
      if result {
        RemoveAllInterfaces(k);
      }
      ResetGroup(k);
    }

    method ShutdownHardware(k: nat, a: Answers) returns (result: bool)
      requires Valid() && k < |components|
      modifies this
      ensures Valid() && OnlyStateOf(old(components), components, k)
      ensures components[k].state == AfterShutdown(old(components)[k].state, a.shutdown, a.error)
      ensures result <==> components[k].state == Finalized
      ensures groupState == if result then GroupReset(old(groupState), components[k].group) else old(groupState)
      ensures if old(components)[k].state == Finalized || a.shutdown == SUCCESS then components[k].state == Finalized
              else if old(components)[k].state == Unconfigured then components[k].state == Unconfigured
              else Recovered(components[k].state, a.error)
      ensures Moved(old(availableStates), availableStates, components[k].stateInterfaces, result, false)
      ensures Moved(old(availableCommands), availableCommands, components[k].commandInterfaces, result, false)
    {
      var c := components[k];
      components := components[k := c.(state := AfterShutdown(c.state, a.shutdown, a.error))];
      result := components[k].state == Finalized;
      if result {
        RemoveAllInterfaces(k);
        ResetGroup(k);
      }
    }

    method ActivateHardware(k: nat, a: Answers) returns (result: bool)
      requires Valid() && k < |components|
      modifies `components
      ensures Valid() && OnlyStateOf(old(components), components, k)
      ensures components[k].state == AfterActivate(old(components)[k].state, a.activate, a.error)
      ensures result <==> components[k].state == Active
      ensures if old(components)[k].state != Inactive || a.activate == FAILURE
              then components[k].state == old(components)[k].state
              else if a.activate == SUCCESS then components[k].state == Active
              else Recovered(components[k].state, a.error)
    {
      var c := components[k];
      components := components[k := c.(state := AfterActivate(c.state, a.activate, a.error))];
      result := components[k].state == Active;
    }

    method DeactivateHardware(k: nat, a: Answers) returns (result: bool)
      requires Valid() && k < |components|
      modifies `components
      ensures Valid() && OnlyStateOf(old(components), components, k)
      ensures components[k].state == AfterDeactivate(old(components)[k].state, a.deactivate, a.error)
      ensures result <==> components[k].state == Inactive
      ensures if old(components)[k].state != Active || a.deactivate == FAILURE
              then components[k].state == old(components)[k].state
              else if a.deactivate == SUCCESS then components[k].state == Inactive
              else Recovered(components[k].state, a.error)
    {
      var c := components[k];
      components := components[k := c.(state := AfterDeactivate(c.state, a.deactivate, a.error))];
      result := components[k].state == Inactive;
    }

    /** set_component_state: the way from the present to the requested state. A finalized component
        can only be asked to stay finalized. */
    method SetComponentState(k: nat, target: LifecycleState, a: Answers) returns (result: bool)
      requires Valid() && k < |components|
      modifies this
      ensures Valid() && OnlyStateOf(old(components), components, k)
      ensures result ==> components[k].state == target
      ensures result <==> Reaches(old(components)[k].state, target, a)
      ensures components[k].state == AfterRequest(old(components)[k].state, target, a)
      ensures groupState == if ResetsGroup(old(components)[k].state, target, a)
                            then GroupReset(old(groupState), components[k].group) else old(groupState)
      ensures var gone, come := Removes(old(components)[k].state, target, result), Adds(old(components)[k].state, target, a);
              && Moved(old(availableStates), availableStates, components[k].stateInterfaces, gone, come)
              && Moved(old(availableCommands), availableCommands, components[k].commandInterfaces, gone, come)
    {
      result := false;
      var state := components[k].state;
      match target {
        case Unconfigured =>
          match state {
            case Unconfigured => result := true;
            case Inactive => result := CleanupHardware(k, a);
            case Active =>
              result := DeactivateHardware(k, a);
              if result {
                result := CleanupHardware(k, a);
              }
            case Finalized =>
          }
        case Inactive =>
          match state {
            case Unconfigured => result := ConfigureHardware(k, a);
            case Inactive => result := true;
            case Active => result := DeactivateHardware(k, a);
            case Finalized =>
          }
        case Active =>
          match state {
            case Unconfigured =>
              result := ConfigureHardware(k, a);
              if result {
                result := ActivateHardware(k, a);
              }
            case Inactive => result := ActivateHardware(k, a);
            case Active => result := true;
            case Finalized =>
          }
        case Finalized =>
          match state {
            case Unconfigured => result := ShutdownHardware(k, a);
            case Inactive => result := ShutdownHardware(k, a);
            case Active =>
              result := DeactivateHardware(k, a);
              if result {
                result := ShutdownHardware(k, a);
              }
            case Finalized => result := true;
          }
      }
    }

    // -------------------------------------------------------------------------------------
    // The read and write cycles
    // -------------------------------------------------------------------------------------

    /** HardwareComponent::error. */
    method ErrorHardware(k: nat, e: CallbackReturn)
      requires Valid() && k < |components|
      modifies `components
      ensures Valid() && OnlyStateOf(old(components), components, k)
      ensures components[k].state == AfterError(old(components)[k].state, e)
      ensures if old(components)[k].state == Unconfigured then components[k].state == Unconfigured
              else Recovered(components[k].state, e)
    {
      components := components[k := components[k].(state := AfterError(components[k].state, e))];
    }

    /** update_hardware_component_group_state: a group remembers the latest result that was not OK. */
    method UpdateGroupState(group: Name, value: ReturnType) returns (r: ReturnType)
      requires group != NoGroup ==> group in groupState
      modifies `groupState
      ensures groupState == GroupAfter(old(groupState), group, value)
      ensures r == if group == NoGroup then value else groupState[group]
    {
      if group == NoGroup {
        return value;
      }
      if value != Ok {
        groupState := groupState[group := value];
      }
      return groupState[group];
    }

    /** HardwareComponent::read or write: only a component in a state that `runs` is triggered, and an
        ERROR is handled inside the component. */
    method Trigger(k: nat, runs: bool, t: Turn) returns (r: ReturnType)
      requires Valid() && k < |components|
      modifies `components
      ensures Valid() && OnlyStateOf(old(components), components, k)
      ensures r == if runs then t.result else Ok
      ensures components[k].state == if r == Error then AfterError(old(components)[k].state, t.first) else old(components)[k].state
    {
      if !runs {
        return Ok;
      }
      if t.result == Error {
        ErrorHardware(k, t.first);
      }
      return t.result;
    }

    /** The read of one component. */
    method ReadOne(k: nat, t: Turn) returns (r: ReturnType)
      requires Valid() && k < |components|
      modifies this
      ensures Valid() && OnlyStateOf(old(components), components, k)
      ensures groupState == if t.locked then old(groupState) else GroupAfter(old(groupState), components[k].group, Own(old(components)[k], t))
      ensures r == if t.locked then Ok else Verdict(old(groupState), old(components)[k], t)
      ensures components[k].state == if r == Ok then old(components)[k].state else AfterRead(old(components)[k].state, t)
      ensures t.locked ==> r == Ok
      ensures components[k].group == NoGroup && !t.locked
              ==> r == if t.due && Running(old(components)[k].state) then t.result else Ok
      ensures r != Ok ==>
                var s := old(components)[k].state;
                var recovered := t.second == SUCCESS || (t.due && t.result == Error && Running(s) && t.first == SUCCESS);
                components[k].state == if s == Unconfigured || recovered then Unconfigured else Finalized
      ensures Moved(old(availableStates), availableStates, components[k].stateInterfaces, r != Ok, false)
      ensures Moved(old(availableCommands), availableCommands, components[k].commandInterfaces, r != Ok, false)
    {
      if t.locked {
        return Ok;
      }
      r := Trigger(k, t.due && Running(components[k].state), t);
      r := UpdateGroupState(components[k].group, r);
      if r != Ok {
        ErrorHardware(k, t.second);
        RemoveAllInterfaces(k);
      }
    }

    /** ResourceManager::read: one turn for every component, in order. */
    method Read(turns: seq<Turn>) returns (result: ReturnType, failed: seq<Name>)
      requires Valid() && |turns| == |components|
      modifies this
      ensures Valid() && ReadCycle(old(components), old(groupState), turns, components, groupState)
      ensures failed == FailedIn(old(components), old(groupState), turns, |turns|)
      ensures result == if failed == [] then Ok else Error
      ensures ListsAfterReads(old(components), old(groupState), turns, |turns|, old(availableStates), availableStates, false)
      ensures ListsAfterReads(old(components), old(groupState), turns, |turns|, old(availableCommands), availableCommands, true)
    {
      hide Verdict;
      hide GroupAfter;
      hide AfterRead;
      hide Own;
      hide Valid;
      hide ListsAfterReads;
      hide VerdictOn;
      hide Moved;
      result, failed := Ok, [];
      AllSurvive(components, groupState, turns, availableStates, false);
      AllSurvive(components, groupState, turns, availableCommands, true);
      for k := 0 to |components|
        invariant Valid() && |components| == |old(components)|
        invariant groupState == GroupsThrough(old(components), old(groupState), turns, k)
        invariant forall i :: k <= i < |components| ==> components[i] == old(components)[i]
        invariant forall i :: 0 <= i < k ==> components[i] == ReadComponent(old(components), old(groupState), turns, i)
        invariant failed == FailedIn(old(components), old(groupState), turns, k)
        invariant result == if failed == [] then Ok else Error
        invariant ListsAfterReads(old(components), old(groupState), turns, k, old(availableStates), availableStates, false)
        invariant ListsAfterReads(old(components), old(groupState), turns, k, old(availableCommands), availableCommands, true)
      {
        ghost var states, commands := availableStates, availableCommands;
        var r := ReadOne(k, turns[k]);
        VerdictIs(old(components), old(groupState), turns, k);
        SurvivesOneMore(old(components), old(groupState), turns, k, old(availableStates), states, availableStates, false);
        SurvivesOneMore(old(components), old(groupState), turns, k, old(availableCommands), commands, availableCommands, true);
        if r != Ok {
          result := Error;
          failed := failed + [components[k].name];
        }
      }
    }

    /** The write of one component; only active components are triggered. */
    method WriteOne(k: nat, t: Turn) returns (r: ReturnType)
      requires Valid() && k < |components|
      modifies this
      ensures Valid() && OnlyStateOf(old(components), components, k)
      ensures r == if t.locked then Ok else WriteVerdict(old(groupState), old(components)[k], t)
      ensures components[k].state == if t.locked then old(components)[k].state else WriteState(old(components)[k], t, r)
      ensures groupState == if t.locked then old(groupState) else GroupsAfterWrite(old(groupState), old(components)[k], t, r)
      ensures var come := Reconfigured(old(components)[k], t, r);
              && Moved(old(availableStates), availableStates, components[k].stateInterfaces, r == Error, come)
              && Moved(old(availableCommands), availableCommands, components[k].commandInterfaces, r == Error, come)
    {
      hide Reaches;
      hide AfterRequest;
      if t.locked {
        return Ok;
      }
      r := Trigger(k, t.due && components[k].state == Active, t);
      r := UpdateGroupState(components[k].group, r);
      if r == Error {
        ErrorHardware(k, t.second);
        RemoveAllInterfaces(k);
      } else if r == Deactivate {
        var reached := SetComponentState(k, Inactive, t.answers);
      }
    }

    /** The turn of one component in a write cycle. */
    method WriteUnlessSensor(k: nat, t: Turn) returns (r: ReturnType)
      requires Valid() && k < |components|
      modifies this
      ensures Valid() && OnlyStateOf(old(components), components, k)
      ensures var c := old(components)[k];
              && r == (if Written(c, t) then WriteVerdict(old(groupState), c, t) else Ok)
              && components[k] == (if Written(c, t) then c.(state := WriteState(c, t, r)) else c)
              && groupState == (if Written(c, t) then GroupsAfterWrite(old(groupState), c, t, r) else old(groupState))
              && (c.sensor || t.locked ==> r == Ok && components[k] == c && groupState == old(groupState))
              && (c.group == NoGroup && !c.sensor && !t.locked ==> r == if t.due && c.state == Active then t.result else Ok)
              && (r == Error ==>
                    var recovered := t.second == SUCCESS || (t.due && t.result == Error && c.state == Active && t.first == SUCCESS);
                    components[k].state == if c.state == Unconfigured || recovered then Unconfigured else Finalized)
              && Moved(old(availableStates), availableStates, c.stateInterfaces, r == Error, Reconfigured(c, t, r))
              && Moved(old(availableCommands), availableCommands, c.commandInterfaces, r == Error, Reconfigured(c, t, r))
    {
      hide Valid;
      hide GroupsAfterWrite;
      r := Ok;
      if !components[k].sensor {
        r := WriteOne(k, t);
      }
    }

    /** ResourceManager::write. Sensors are not written; `named` tells whether deactivated components
        are reported by name. */
    method Write(turns: seq<Turn>, named: bool) returns (result: ReturnType, failed: seq<Name>)
      requires Valid() && |turns| == |components|
      modifies this
      ensures Valid() && WriteCycle(old(components), old(groupState), turns, components, groupState)
      ensures failed == WriteFailed(old(components), old(groupState), turns, named, |turns|)
      ensures result == WriteResult(old(components), old(groupState), turns, |turns|)
      ensures ListsAfterWrites(old(components), old(groupState), turns, |turns|, old(availableStates), availableStates, false)
      ensures ListsAfterWrites(old(components), old(groupState), turns, |turns|, old(availableCommands), availableCommands, true)
    {
      assert WellFormed(components);
      hide WriteVerdict;
      hide WriteState;
      hide GroupsAfterWrite;
      hide Valid;
      hide ListsAfterWrites;
      hide WriteGroups;
      hide WriteFailed;
      hide WriteResult;
      hide WriteComponent;
      hide WriteVerdictOn;
      hide Moved;
      hide Reconfigured;
      hide WellFormed;
      result, failed := Ok, [];
      ListedBeforeWrites(components, groupState, turns, availableStates, false);
      ListedBeforeWrites(components, groupState, turns, availableCommands, true);
      NothingWritten(components, groupState, turns, named);
      for k := 0 to |components|
        invariant Valid() && |components| == |old(components)|
        invariant groupState == WriteGroups(old(components), old(groupState), turns, k)
        invariant forall i :: k <= i < |components| ==> components[i] == old(components)[i]
        invariant forall i :: 0 <= i < k ==> components[i] == WriteComponent(old(components), old(groupState), turns, i)
        invariant failed == WriteFailed(old(components), old(groupState), turns, named, k)
        invariant result == WriteResult(old(components), old(groupState), turns, k)
        invariant ListsAfterWrites(old(components), old(groupState), turns, k, old(availableStates), availableStates, false)
        invariant ListsAfterWrites(old(components), old(groupState), turns, k, old(availableCommands), availableCommands, true)
      {
        ghost var states, commands := availableStates, availableCommands;
        OneMoreWritten(old(components), old(groupState), turns, named, k);
        var r := WriteUnlessSensor(k, turns[k]);
        if r != Ok {
          result := r;
        }
        if r == Error || (r == Deactivate && named) {
          failed := failed + [components[k].name];
        }
        ListedOneMore(old(components), old(groupState), turns, k, old(availableStates), states, availableStates, false);
        ListedOneMore(old(components), old(groupState), turns, k, old(availableCommands), commands, availableCommands, true);
      }
    }
  }

  // ---------------------------------------------------------------------------------------
  // What is available after a cycle
  // ---------------------------------------------------------------------------------------

  function Exports(c: Component, commands: bool): seq<Interface> {
    if commands then c.commandInterfaces else c.stateInterfaces
  }

  /** None of the first `n` turns of a read cycle takes the interface away. */
  ghost predicate Survives(cs: seq<Component>, groups: map<Name, ReturnType>, turns: seq<Turn>, n: nat, x: Interface, commands: bool)
    requires n <= |cs| == |turns|
  {
    forall i :: 0 <= i < n && VerdictOn(cs, groups, turns, i) != Ok ==> x !in Exports(cs[i], commands)
  }

  /** The first `n` turns of a write cycle leave the interface available: it was so, or its component is
      configured by a DEACTIVATE, and its component does not fail. */
  ghost predicate ListedAfterWrites(cs: seq<Component>, groups: map<Name, ReturnType>, turns: seq<Turn>, n: nat, x: Interface,
                                    commands: bool, before: bool)
    requires n <= |cs| == |turns|
  {
    && (before || exists i :: 0 <= i < n && x in Exports(cs[i], commands)
                              && Reconfigured(cs[i], turns[i], WriteVerdictOn(cs, groups, turns, i)))
    && (forall i :: 0 <= i < n && WriteVerdictOn(cs, groups, turns, i) == Error ==> x !in Exports(cs[i], commands))
  }

  ghost predicate ListsAfterReads(cs: seq<Component>, groups: map<Name, ReturnType>, turns: seq<Turn>, n: nat,
                                  before: seq<Interface>, after: seq<Interface>, commands: bool)
    requires n <= |cs| == |turns|
  {
    forall x :: x in after <==> x in before && Survives(cs, groups, turns, n, x, commands)
  }

  ghost predicate ListsAfterWrites(cs: seq<Component>, groups: map<Name, ReturnType>, turns: seq<Turn>, n: nat,
                                   before: seq<Interface>, after: seq<Interface>, commands: bool)
    requires n <= |cs| == |turns|
  {
    forall x :: x in after <==> ListedAfterWrites(cs, groups, turns, n, x, commands, x in before)
  }

  lemma AllSurvive(cs: seq<Component>, groups: map<Name, ReturnType>, turns: seq<Turn>, list: seq<Interface>, commands: bool)
    requires |cs| == |turns|
    ensures ListsAfterReads(cs, groups, turns, 0, list, list, commands)
  {
  }

  lemma SurvivesOneMore(cs: seq<Component>, groups: map<Name, ReturnType>, turns: seq<Turn>, k: nat,
                        first: seq<Interface>, before: seq<Interface>, after: seq<Interface>, commands: bool)
    requires k < |cs| == |turns|
    requires Moved(before, after, Exports(cs[k], commands), VerdictOn(cs, groups, turns, k) != Ok, false)
    requires ListsAfterReads(cs, groups, turns, k, first, before, commands)
    ensures ListsAfterReads(cs, groups, turns, k + 1, first, after, commands)
  {
    hide VerdictOn;
    hide Exports;
    forall x
      ensures x in after <==> x in first && Survives(cs, groups, turns, k + 1, x, commands)
    {
      assert Survives(cs, groups, turns, k + 1, x, commands)
        <==> Survives(cs, groups, turns, k, x, commands)
             && (VerdictOn(cs, groups, turns, k) != Ok ==> x !in Exports(cs[k], commands));
    }
  }

  lemma ListedBeforeWrites(cs: seq<Component>, groups: map<Name, ReturnType>, turns: seq<Turn>, list: seq<Interface>, commands: bool)
    requires |cs| == |turns|
    ensures ListsAfterWrites(cs, groups, turns, 0, list, list, commands)
  {
  }

  lemma ListedOneMore(cs: seq<Component>, groups: map<Name, ReturnType>, turns: seq<Turn>, k: nat,
                      first: seq<Interface>, before: seq<Interface>, after: seq<Interface>, commands: bool)
    requires k < |cs| == |turns| && WellFormed(cs)
    requires var verdict := WriteVerdictOn(cs, groups, turns, k);
             Moved(before, after, Exports(cs[k], commands), verdict == Error, Reconfigured(cs[k], turns[k], verdict))
    requires ListsAfterWrites(cs, groups, turns, k, first, before, commands)
    ensures ListsAfterWrites(cs, groups, turns, k + 1, first, after, commands)
  {
    hide WriteVerdictOn;
    forall x
      ensures x in after <==> ListedAfterWrites(cs, groups, turns, k + 1, x, commands, x in first)
    {
      if x in Exports(cs[k], commands) {
        forall i | 0 <= i < k
          ensures x !in Exports(cs[i], commands)
        {
          assert Apart(cs[i], cs[k]);
        }
      }
      var come := Reconfigured(cs[k], turns[k], WriteVerdictOn(cs, groups, turns, k));
      assert come ==> WriteVerdictOn(cs, groups, turns, k) == Deactivate;
      if i :| 0 <= i < k && x in Exports(cs[i], commands) && Reconfigured(cs[i], turns[i], WriteVerdictOn(cs, groups, turns, i)) {
        assert i < k + 1;
      }
    }
  }

  lemma VerdictIs(cs: seq<Component>, groups: map<Name, ReturnType>, turns: seq<Turn>, k: nat)
    requires k < |cs| == |turns|
    ensures VerdictOn(cs, groups, turns, k)
         == if turns[k].locked then Ok else Verdict(GroupsThrough(cs, groups, turns, k), cs[k], turns[k])
  {
  }

  lemma NothingWritten(cs: seq<Component>, groups: map<Name, ReturnType>, turns: seq<Turn>, named: bool)
    requires |cs| == |turns|
    ensures WriteGroups(cs, groups, turns, 0) == groups
    ensures WriteFailed(cs, groups, turns, named, 0) == [] && WriteResult(cs, groups, turns, 0) == Ok
  {
  }

  lemma OneMoreWritten(cs: seq<Component>, groups: map<Name, ReturnType>, turns: seq<Turn>, named: bool, k: nat)
    requires k < |cs| == |turns|
    ensures var before, verdict := WriteGroups(cs, groups, turns, k), WriteVerdictOn(cs, groups, turns, k);
            && verdict == (if Written(cs[k], turns[k]) then WriteVerdict(before, cs[k], turns[k]) else Ok)
            && WriteComponent(cs, groups, turns, k)
               == (if Written(cs[k], turns[k]) then cs[k].(state := WriteState(cs[k], turns[k], verdict)) else cs[k])
            && WriteGroups(cs, groups, turns, k + 1)
               == (if Written(cs[k], turns[k]) then GroupsAfterWrite(before, cs[k], turns[k], verdict) else before)
            && WriteFailed(cs, groups, turns, named, k + 1)
               == WriteFailed(cs, groups, turns, named, k)
                  + (if verdict == Error || (verdict == Deactivate && named) then [cs[k].name] else [])
            && WriteResult(cs, groups, turns, k + 1) == (if verdict != Ok then verdict else WriteResult(cs, groups, turns, k))
  {
    hide WriteState;
    hide GroupsAfterWrite;
  }

  // ---------------------------------------------------------------------------------------
  // A whole read cycle
  // ---------------------------------------------------------------------------------------

  /** The group states after the first `n` turns. */
  function GroupsThrough(cs: seq<Component>, groups: map<Name, ReturnType>, turns: seq<Turn>, n: nat): map<Name, ReturnType>
    requires n <= |cs| == |turns|
  {
    if n == 0 then groups
    else
      var before := GroupsThrough(cs, groups, turns, n - 1);
      if turns[n - 1].locked then before else GroupAfter(before, cs[n - 1].group, Own(cs[n - 1], turns[n - 1]))
  }

  /** The verdict on component `k` in its turn. */
  function VerdictOn(cs: seq<Component>, groups: map<Name, ReturnType>, turns: seq<Turn>, k: nat): ReturnType
    requires k < |cs| == |turns|
  {
    if turns[k].locked then Ok else Verdict(GroupsThrough(cs, groups, turns, k), cs[k], turns[k])
  }

  function ReadComponent(cs: seq<Component>, groups: map<Name, ReturnType>, turns: seq<Turn>, k: nat): Component
    requires k < |cs| == |turns|
  {
    if VerdictOn(cs, groups, turns, k) == Ok then cs[k] else cs[k].(state := AfterRead(cs[k].state, turns[k]))
  }

  function FailedIn(cs: seq<Component>, groups: map<Name, ReturnType>, turns: seq<Turn>, n: nat): seq<Name>
    requires n <= |cs| == |turns|
  {
    if n == 0 then []
    else FailedIn(cs, groups, turns, n - 1) + (if VerdictOn(cs, groups, turns, n - 1) == Ok then [] else [cs[n - 1].name])
  }

  ghost predicate ReadCycle(cs: seq<Component>, groups: map<Name, ReturnType>, turns: seq<Turn>,
                            cs': seq<Component>, groups': map<Name, ReturnType>) {
    && |turns| == |cs| == |cs'|
    && groups' == GroupsThrough(cs, groups, turns, |cs|)
    && forall i :: 0 <= i < |cs| ==> cs'[i] == ReadComponent(cs, groups, turns, i)
  }

  /** A group that is not OK stays so until the end of the cycle. */
  lemma {:induction false} FaultStays(cs: seq<Component>, groups: map<Name, ReturnType>, turns: seq<Turn>,
                                      group: Name, m: nat, n: nat)
    requires m <= n <= |cs| == |turns|
    requires var g := GroupsThrough(cs, groups, turns, m); group in g && g[group] != Ok
    ensures var g := GroupsThrough(cs, groups, turns, n); group in g && g[group] != Ok
  {
    if m < n {
      FaultStays(cs, groups, turns, group, m, n - 1);
    }
  }

  /** A component that has its turn in a group that is not OK stops running. */
  lemma FaultyTurn(cs: seq<Component>, groups: map<Name, ReturnType>, turns: seq<Turn>, k: nat)
    requires k < |cs| == |turns| && !turns[k].locked && cs[k].group != NoGroup
    requires var g := GroupsThrough(cs, groups, turns, k); cs[k].group in g && g[cs[k].group] != Ok
    ensures !Running(ReadComponent(cs, groups, turns, k).state)
  {
    hide GroupsThrough;
  }

  lemma FaultNoted(cs: seq<Component>, groups: map<Name, ReturnType>, turns: seq<Turn>, m: nat)
    requires m < |cs| == |turns| && cs[m].group != NoGroup && !turns[m].locked && Own(cs[m], turns[m]) != Ok
    ensures !Running(ReadComponent(cs, groups, turns, m).state)
    ensures var g := GroupsThrough(cs, groups, turns, m + 1); cs[m].group in g && g[cs[m].group] != Ok
  {
  }

  /** A cycle that finds a group not OK leaves none of its members inactive or active. */
  lemma FaultyGroupStops(cs: seq<Component>, groups: map<Name, ReturnType>, turns: seq<Turn>,
                         cs': seq<Component>, groups': map<Name, ReturnType>, group: Name)
    requires ReadCycle(cs, groups, turns, cs', groups')
    requires group != NoGroup && group in groups && groups[group] != Ok
    requires forall i :: 0 <= i < |cs| && cs[i].group == group ==> !turns[i].locked
    ensures forall i :: 0 <= i < |cs| && cs[i].group == group ==> !Running(cs'[i].state)
  {
    StartsFrom(cs, groups, turns);
    forall i | 0 <= i < |cs| && cs[i].group == group
      ensures !Running(cs'[i].state)
    {
      FaultStays(cs, groups, turns, group, 0, i);
      FaultyTurn(cs, groups, turns, i);
    }
  }

  /** Once a member of a named group returns anything but OK, no member whose turn comes later in the
      same cycle is inactive or active at its end. */
  lemma FaultStopsLaterTurns(cs: seq<Component>, groups: map<Name, ReturnType>, turns: seq<Turn>,
                             cs': seq<Component>, groups': map<Name, ReturnType>, m: nat)
    requires ReadCycle(cs, groups, turns, cs', groups')
    requires m < |cs| && cs[m].group != NoGroup && !turns[m].locked && Own(cs[m], turns[m]) != Ok
    ensures forall i :: m <= i < |cs| && cs[i].group == cs[m].group && !turns[i].locked ==> !Running(cs'[i].state)
  {
    hide Own;
    hide GroupsThrough;
    hide Running;
    hide VerdictOn;
    hide AfterRead;
    FaultNoted(cs, groups, turns, m);
    forall i | m <= i < |cs| && cs[i].group == cs[m].group && !turns[i].locked
      ensures !Running(cs'[i].state)
    {
      if m < i {
        FaultStays(cs, groups, turns, cs[m].group, m + 1, i);
        FaultyTurn(cs, groups, turns, i);
      }
    }
  }

  lemma StartsFrom(cs: seq<Component>, groups: map<Name, ReturnType>, turns: seq<Turn>)
    requires |cs| == |turns|
    ensures GroupsThrough(cs, groups, turns, 0) == groups
  {
  }

  /** A group that is OK and whose members return OK stays OK, and its members keep their states. */
  lemma SoundGroupUntouched(cs: seq<Component>, groups: map<Name, ReturnType>, turns: seq<Turn>,
                            cs': seq<Component>, groups': map<Name, ReturnType>, group: Name)
    requires ReadCycle(cs, groups, turns, cs', groups') && group != NoGroup && group in groups && groups[group] == Ok
    requires forall i :: 0 <= i < |cs| && cs[i].group == group && !turns[i].locked ==> Own(cs[i], turns[i]) == Ok
    ensures group in groups' && groups'[group] == Ok
    ensures forall i :: 0 <= i < |cs| && cs[i].group == group ==> cs'[i] == cs[i]
  {
    SoundThrough(cs, groups, turns, group, |cs|);
    forall i | 0 <= i < |cs| && cs[i].group == group
      ensures cs'[i] == cs[i]
    {
      SoundThrough(cs, groups, turns, group, i);
    }
  }

  lemma {:induction false} SoundThrough(cs: seq<Component>, groups: map<Name, ReturnType>, turns: seq<Turn>, group: Name, n: nat)
    requires n <= |cs| == |turns| && group != NoGroup && group in groups && groups[group] == Ok
    requires forall i :: 0 <= i < |cs| && cs[i].group == group && !turns[i].locked ==> Own(cs[i], turns[i]) == Ok
    ensures var g := GroupsThrough(cs, groups, turns, n); group in g && g[group] == Ok
  {
    if n > 0 {
      SoundThrough(cs, groups, turns, group, n - 1);
    }
  }

  // ---------------------------------------------------------------------------------------
  // A whole write cycle
  // ---------------------------------------------------------------------------------------

  function WriteOwn(c: Component, t: Turn): ReturnType {
    if t.due && c.state == Active then t.result else Ok
  }

  function WriteVerdict(groups: map<Name, ReturnType>, c: Component, t: Turn): ReturnType {
    var own := WriteOwn(c, t);
    if own != Ok || c.group == NoGroup || c.group !in groups then own else groups[c.group]
  }

  /** The state of a written component: DEACTIVATE is a request for the inactive state. */
  function WriteState(c: Component, t: Turn, verdict: ReturnType): (r: LifecycleState)
    ensures verdict == Error ==> !Running(r)
  {
    var s := if WriteOwn(c, t) == Error then AfterError(c.state, t.first) else c.state;
    match verdict
    case Ok => s
    case Error => AfterError(s, t.second)
    case Deactivate => AfterRequest(s, Inactive, t.answers)
  }

  function GroupsAfterWrite(groups: map<Name, ReturnType>, c: Component, t: Turn, verdict: ReturnType): map<Name, ReturnType> {
    var g := GroupAfter(groups, c.group, WriteOwn(c, t));
    if verdict == Deactivate && ResetsGroup(c.state, Inactive, t.answers) then GroupReset(g, c.group) else g
  }

  predicate Written(c: Component, t: Turn) { !c.sensor && !t.locked }

  /** The group states after the first `n` components. */
  function WriteGroups(cs: seq<Component>, groups: map<Name, ReturnType>, turns: seq<Turn>, n: nat): map<Name, ReturnType>
    requires n <= |cs| == |turns|
  {
    if n == 0 then groups
    else
      var before := WriteGroups(cs, groups, turns, n - 1);
      var c, t := cs[n - 1], turns[n - 1];
      if Written(c, t) then GroupsAfterWrite(before, c, t, WriteVerdict(before, c, t)) else before
  }

  function WriteVerdictOn(cs: seq<Component>, groups: map<Name, ReturnType>, turns: seq<Turn>, k: nat): ReturnType
    requires k < |cs| == |turns|
  {
    if Written(cs[k], turns[k]) then WriteVerdict(WriteGroups(cs, groups, turns, k), cs[k], turns[k]) else Ok
  }

  function WriteComponent(cs: seq<Component>, groups: map<Name, ReturnType>, turns: seq<Turn>, k: nat): Component
    requires k < |cs| == |turns|
  {
    if Written(cs[k], turns[k])
    then cs[k].(state := WriteState(cs[k], turns[k], WriteVerdictOn(cs, groups, turns, k))) else cs[k]
  }

  function WriteFailed(cs: seq<Component>, groups: map<Name, ReturnType>, turns: seq<Turn>, named: bool, n: nat): seq<Name>
    requires n <= |cs| == |turns|
  {
    if n == 0 then []
    else
      var verdict := WriteVerdictOn(cs, groups, turns, n - 1);
      WriteFailed(cs, groups, turns, named, n - 1)
      + (if verdict == Error || (verdict == Deactivate && named) then [cs[n - 1].name] else [])
  }

  /** The latest result that is not OK. */
  function WriteResult(cs: seq<Component>, groups: map<Name, ReturnType>, turns: seq<Turn>, n: nat): ReturnType
    requires n <= |cs| == |turns|
  {
    if n == 0 then Ok
    else
      var verdict := WriteVerdictOn(cs, groups, turns, n - 1);
      if verdict != Ok then verdict else WriteResult(cs, groups, turns, n - 1)
  }

  ghost predicate WriteCycle(cs: seq<Component>, groups: map<Name, ReturnType>, turns: seq<Turn>,
                             cs': seq<Component>, groups': map<Name, ReturnType>) {
    && |turns| == |cs| == |cs'|
    && groups' == WriteGroups(cs, groups, turns, |cs|)
    && forall i :: 0 <= i < |cs| ==> cs'[i] == WriteComponent(cs, groups, turns, i)
  }

  /** A read cycle reports exactly the components that it stops: those that answer with anything but OK, and
      those whose group is in trouble. */
  lemma {:induction false} ReadReports(cs: seq<Component>, groups: map<Name, ReturnType>, turns: seq<Turn>, n: nat, name: Name)
    requires n <= |cs| == |turns|
    ensures name in FailedIn(cs, groups, turns, n)
            <==> exists i :: 0 <= i < n && cs[i].name == name && !turns[i].locked
                             && (Own(cs[i], turns[i]) != Ok || InTrouble(GroupsThrough(cs, groups, turns, i), cs[i].group))
    ensures forall i :: 0 <= i < n && cs[i].name == name && name !in FailedIn(cs, groups, turns, n)
                        ==> ReadComponent(cs, groups, turns, i) == cs[i]
  {
    hide Own;
    hide GroupsThrough;
    if n > 0 {
      ReadReports(cs, groups, turns, n - 1, name);
    }
  }

  /** The group is known and not OK. */
  predicate InTrouble(groups: map<Name, ReturnType>, group: Name) {
    group != NoGroup && group in groups && groups[group] != Ok
  }

  /** A write cycle is OK exactly if every component that is written is, and so is its group; it reports an
      error, or else a deactivation, if asked to, by name. */
  lemma {:induction false} WriteReports(cs: seq<Component>, groups: map<Name, ReturnType>, turns: seq<Turn>, named: bool,
                                        n: nat, name: Name)
    requires n <= |cs| == |turns|
    ensures WriteResult(cs, groups, turns, n) == Ok
            <==> forall i :: 0 <= i < n && Written(cs[i], turns[i]) ==>
                   WriteOwn(cs[i], turns[i]) == Ok && !InTrouble(WriteGroups(cs, groups, turns, i), cs[i].group)
    ensures name in WriteFailed(cs, groups, turns, named, n)
            <==> exists i :: 0 <= i < n && cs[i].name == name
                             && (WriteVerdictOn(cs, groups, turns, i) == Error
                                 || (named && WriteVerdictOn(cs, groups, turns, i) == Deactivate))
  {
    hide WriteOwn;
    hide WriteGroups;
    if n > 0 {
      WriteReports(cs, groups, turns, named, n - 1, name);
    }
  }

  // ---------------------------------------------------------------------------------------
  // What a write cycle makes of a group
  // ---------------------------------------------------------------------------------------

  /** Component `i` is a member of the group and is written. */
  predicate WritesFor(cs: seq<Component>, turns: seq<Turn>, group: Name, i: nat)
    requires i < |cs| == |turns|
  {
    cs[i].group == group && Written(cs[i], turns[i])
  }

  /** It does not answer with anything but OK. */
  predicate WritesOk(cs: seq<Component>, turns: seq<Turn>, group: Name, i: nat)
    requires i < |cs| == |turns|
  {
    WritesFor(cs, turns, group, i) ==> WriteOwn(cs[i], turns[i]) == Ok
  }

  /** Nor is it unconfigured. */
  predicate Quiet(cs: seq<Component>, turns: seq<Turn>, group: Name, i: nat)
    requires i < |cs| == |turns|
  {
    WritesFor(cs, turns, group, i) ==> WriteOwn(cs[i], turns[i]) == Ok && cs[i].state != Unconfigured
  }

  /** The latest trouble before turn `n` is a DEACTIVATE: of member `j`, or, for -1, from before the
      cycle. */
  ghost predicate DeactivatedBy(cs: seq<Component>, groups: map<Name, ReturnType>, turns: seq<Turn>, group: Name, j: int, n: nat)
    requires n <= |cs| == |turns| && group in groups && -1 <= j < n as int
  {
    && (if j < 0 then groups[group] == Deactivate
        else WritesFor(cs, turns, group, j) && WriteOwn(cs[j], turns[j]) == Deactivate)
    && (forall i :: j < i < n ==> Quiet(cs, turns, group, i))
  }

  ghost predicate Deactivating(cs: seq<Component>, groups: map<Name, ReturnType>, turns: seq<Turn>, group: Name, n: nat)
    requires n <= |cs| == |turns| && group in groups
  {
    exists j :: -1 <= j < n as int && DeactivatedBy(cs, groups, turns, group, j, n)
  }

  /** The group forgets its trouble: a DEACTIVATE reaches the unconfigured member `k`, which is then
      configured, and all later answers are OK. */
  ghost predicate ClearedAt(cs: seq<Component>, groups: map<Name, ReturnType>, turns: seq<Turn>, group: Name, k: nat, n: nat)
    requires k < n <= |cs| == |turns| && group in groups
  {
    && WritesFor(cs, turns, group, k) && cs[k].state == Unconfigured && Deactivating(cs, groups, turns, group, k)
    && (forall i :: k < i < n ==> WritesOk(cs, turns, group, i))
  }

  ghost predicate Cleared(cs: seq<Component>, groups: map<Name, ReturnType>, turns: seq<Turn>, group: Name, n: nat)
    requires n <= |cs| == |turns| && group in groups
  {
    exists k :: 0 <= k < n && ClearedAt(cs, groups, turns, group, k, n)
  }

  ghost predicate StaysOk(cs: seq<Component>, groups: map<Name, ReturnType>, turns: seq<Turn>, group: Name, n: nat)
    requires n <= |cs| == |turns| && group in groups
  {
    groups[group] == Ok && forall i :: 0 <= i < n ==> WritesOk(cs, turns, group, i)
  }

  /** Exactly when a group is OK, or is asked to deactivate, in the course of a write cycle. */
  lemma {:induction false} GroupInWrites(cs: seq<Component>, groups: map<Name, ReturnType>, turns: seq<Turn>, group: Name, n: nat)
    requires n <= |cs| == |turns| && group != NoGroup && group in groups
    ensures var g := WriteGroups(cs, groups, turns, n);
            && group in g
            && (g[group] == Deactivate <==> Deactivating(cs, groups, turns, group, n))
            && (g[group] == Ok <==> StaysOk(cs, groups, turns, group, n) || Cleared(cs, groups, turns, group, n))
  {
    hide Deactivating;
    hide Cleared;
    hide StaysOk;
    if n == 0 {
      GroupBefore(cs, groups, turns, group);
    } else {
      GroupInWrites(cs, groups, turns, group, n - 1);
      DeactivatingOneMore(cs, groups, turns, group, n);
      ClearedOneMore(cs, groups, turns, group, n);
      StaysOkOneMore(cs, groups, turns, group, n);
    }
  }

  lemma GroupBefore(cs: seq<Component>, groups: map<Name, ReturnType>, turns: seq<Turn>, group: Name)
    requires |cs| == |turns| && group in groups
    ensures Deactivating(cs, groups, turns, group, 0) <==> groups[group] == Deactivate
    ensures StaysOk(cs, groups, turns, group, 0) <==> groups[group] == Ok
    ensures !Cleared(cs, groups, turns, group, 0)
  {
    assert groups[group] == Deactivate ==> DeactivatedBy(cs, groups, turns, group, -1, 0);
  }

  lemma StaysOkOneMore(cs: seq<Component>, groups: map<Name, ReturnType>, turns: seq<Turn>, group: Name, n: nat)
    requires 0 < n <= |cs| == |turns| && group in groups
    ensures StaysOk(cs, groups, turns, group, n)
            <==> StaysOk(cs, groups, turns, group, n - 1) && WritesOk(cs, turns, group, n - 1)
  {
  }

  lemma DeactivatingOneMore(cs: seq<Component>, groups: map<Name, ReturnType>, turns: seq<Turn>, group: Name, n: nat)
    requires 0 < n <= |cs| == |turns| && group in groups
    ensures Deactivating(cs, groups, turns, group, n)
            <==> (Deactivating(cs, groups, turns, group, n - 1) && Quiet(cs, turns, group, n - 1))
                 || (WritesFor(cs, turns, group, n - 1) && WriteOwn(cs[n - 1], turns[n - 1]) == Deactivate)
  {
    if Deactivating(cs, groups, turns, group, n) {
      var j :| -1 <= j < n as int && DeactivatedBy(cs, groups, turns, group, j, n);
      if j < n - 1 {
        assert DeactivatedBy(cs, groups, turns, group, j, n - 1);
      }
    }
    if Deactivating(cs, groups, turns, group, n - 1) && Quiet(cs, turns, group, n - 1) {
      var j :| -1 <= j < n - 1 && DeactivatedBy(cs, groups, turns, group, j, n - 1);
      assert DeactivatedBy(cs, groups, turns, group, j, n);
    }
    if WritesFor(cs, turns, group, n - 1) && WriteOwn(cs[n - 1], turns[n - 1]) == Deactivate {
      assert DeactivatedBy(cs, groups, turns, group, n - 1, n);
    }
  }

  lemma ClearedOneMore(cs: seq<Component>, groups: map<Name, ReturnType>, turns: seq<Turn>, group: Name, n: nat)
    requires 0 < n <= |cs| == |turns| && group in groups
    ensures Cleared(cs, groups, turns, group, n)
            <==> (Cleared(cs, groups, turns, group, n - 1) && WritesOk(cs, turns, group, n - 1))
                 || (WritesFor(cs, turns, group, n - 1) && cs[n - 1].state == Unconfigured
                     && Deactivating(cs, groups, turns, group, n - 1))
  {
    if Cleared(cs, groups, turns, group, n) {
      var k :| 0 <= k < n && ClearedAt(cs, groups, turns, group, k, n);
      if k < n - 1 {
        assert ClearedAt(cs, groups, turns, group, k, n - 1);
      }
    }
    if Cleared(cs, groups, turns, group, n - 1) && WritesOk(cs, turns, group, n - 1) {
      var k :| 0 <= k < n - 1 && ClearedAt(cs, groups, turns, group, k, n - 1);
      assert ClearedAt(cs, groups, turns, group, k, n);
    }
    if WritesFor(cs, turns, group, n - 1) && cs[n - 1].state == Unconfigured && Deactivating(cs, groups, turns, group, n - 1) {
      assert ClearedAt(cs, groups, turns, group, n - 1, n);
    }
  }

  /** The writes of a cycle and the reads of the next one, in which every member of the group has its turn
      and answers OK: no member is inactive or active afterwards exactly when none is after the writes,
      or the group was in trouble, or got into it, and has not been cleared. */
  lemma WriteThenReadStopsIff(cs: seq<Component>, groups: map<Name, ReturnType>, turns: seq<Turn>,
                              cs': seq<Component>, groups': map<Name, ReturnType>, turns': seq<Turn>,
                              cs'': seq<Component>, groups'': map<Name, ReturnType>, group: Name)
    requires WriteCycle(cs, groups, turns, cs', groups') && ReadCycle(cs', groups', turns', cs'', groups'')
    requires group != NoGroup && group in groups
    requires forall i :: 0 <= i < |cs| && cs[i].group == group ==> !turns'[i].locked && Own(cs'[i], turns'[i]) == Ok
    ensures (forall i :: 0 <= i < |cs| && cs[i].group == group ==> !Running(cs''[i].state))
            <==> ((forall i :: 0 <= i < |cs| && cs[i].group == group ==> !Running(cs'[i].state))
                  || !(StaysOk(cs, groups, turns, group, |cs|) || Cleared(cs, groups, turns, group, |cs|)))
  {
    hide StaysOk;
    hide Cleared;
    hide WriteComponent;
    hide WriteGroups;
    hide Own;
    GroupInWrites(cs, groups, turns, group, |cs|);
    WritesKeepGroups(cs, groups, turns, cs', groups');
    if groups'[group] == Ok {
      SoundGroupUntouched(cs', groups', turns', cs'', groups'', group);
    } else {
      FaultyGroupStops(cs', groups', turns', cs'', groups'', group);
    }
  }

  lemma WritesKeepGroups(cs: seq<Component>, groups: map<Name, ReturnType>, turns: seq<Turn>,
                         cs': seq<Component>, groups': map<Name, ReturnType>)
    requires WriteCycle(cs, groups, turns, cs', groups')
    ensures groups' == WriteGroups(cs, groups, turns, |cs|)
    ensures forall i :: 0 <= i < |cs| ==> cs'[i].group == cs[i].group
  {
  }

  /** A single DEACTIVATE in a write cycle, followed by a read cycle: no member of the whole group is
      inactive or active, unless an unconfigured member clears the group after it. */
  lemma DeactivateFailsGroup(cs: seq<Component>, groups: map<Name, ReturnType>, turns: seq<Turn>,
                             cs': seq<Component>, groups': map<Name, ReturnType>, turns': seq<Turn>,
                             cs'': seq<Component>, groups'': map<Name, ReturnType>, m: nat)
    requires WriteCycle(cs, groups, turns, cs', groups') && ReadCycle(cs', groups', turns', cs'', groups'')
    requires m < |cs| && cs[m].group != NoGroup && cs[m].group in groups
    requires WritesFor(cs, turns, cs[m].group, m) && WriteOwn(cs[m], turns[m]) == Deactivate
    requires !Cleared(cs, groups, turns, cs[m].group, |cs|)
    requires forall i :: 0 <= i < |cs| && cs[i].group == cs[m].group ==> !turns'[i].locked
    ensures forall i :: 0 <= i < |cs| && cs[i].group == cs[m].group ==> !Running(cs''[i].state)
  {
    GroupInWrites(cs, groups, turns, cs[m].group, |cs|);
    WritesKeepGroups(cs, groups, turns, cs', groups');
    assert !WritesOk(cs, turns, cs[m].group, m);
    FaultyGroupStops(cs', groups', turns', cs'', groups'', cs[m].group);
  }

  /** Fault propagation in the control loop, which reads, writes and reads again. A member of a named
      group fails in the first read cycle; unless the write cycle clears the group, no member is inactive
      or active after the second read cycle. */
  lemma GroupFaultPropagates(cs: seq<Component>, groups: map<Name, ReturnType>, turns: seq<Turn>,
                             cs1: seq<Component>, groups1: map<Name, ReturnType>, turns1: seq<Turn>,
                             cs2: seq<Component>, groups2: map<Name, ReturnType>, turns2: seq<Turn>,
                             cs3: seq<Component>, groups3: map<Name, ReturnType>, m: nat)
    requires ReadCycle(cs, groups, turns, cs1, groups1) && WriteCycle(cs1, groups1, turns1, cs2, groups2)
    requires ReadCycle(cs2, groups2, turns2, cs3, groups3)
    requires m < |cs| && cs[m].group != NoGroup && !turns[m].locked && Own(cs[m], turns[m]) != Ok
    requires forall i :: 0 <= i < |cs| && cs[i].group == cs[m].group ==> !turns2[i].locked
    ensures cs[m].group in groups1 && groups1[cs[m].group] != Ok
    ensures !Cleared(cs1, groups1, turns1, cs[m].group, |cs|) ==>
              forall i :: 0 <= i < |cs| && cs[i].group == cs[m].group ==> !Running(cs3[i].state)
    ensures (forall i :: 0 <= i < |cs| && cs[i].group == cs[m].group ==> Own(cs2[i], turns2[i]) == Ok) ==>
              ((forall i :: 0 <= i < |cs| && cs[i].group == cs[m].group ==> !Running(cs3[i].state))
               <==> ((forall i :: 0 <= i < |cs| && cs[i].group == cs[m].group ==> !Running(cs2[i].state))
                     || !Cleared(cs1, groups1, turns1, cs[m].group, |cs|)))
  {
    hide Cleared;
    hide WriteComponent;
    hide WriteGroups;
    var group := cs[m].group;
    FaultNoted(cs, groups, turns, m);
    FaultStays(cs, groups, turns, group, m + 1, |cs|);
    assert forall i :: 0 <= i < |cs| ==> cs1[i].group == cs[i].group;
    GroupInWrites(cs1, groups1, turns1, group, |cs|);
    WritesKeepGroups(cs1, groups1, turns1, cs2, groups2);
    if !Cleared(cs1, groups1, turns1, group, |cs|) {
      FaultyGroupStops(cs2, groups2, turns2, cs3, groups3, group);
    } else if forall i :: 0 <= i < |cs| && cs[i].group == group ==> Own(cs2[i], turns2[i]) == Ok {
      WriteThenReadStopsIff(cs1, groups1, turns1, cs2, groups2, turns2, cs3, groups3, group);
    }
  }

  /** A group in which the write cycle undoes the fault: the read of the second member fails, which makes
      it unconfigured; the write of the first asks for deactivation, which configures the second, and the
      group is OK again. After the next read cycle both members are inactive. */
  lemma WriteClearsFault()
    ensures var group := Name("arm");
            var b := Component(Name("b"), group, false, Active, [], []);
            var a := Component(Name("a"), group, false, Active, [], []);
            var fine := Turn(false, true, Ok, SUCCESS, SUCCESS, Answers(SUCCESS, SUCCESS, SUCCESS, SUCCESS, SUCCESS, SUCCESS));
            var cs1, groups1 := [b, a.(state := Unconfigured)], map[group := Error];
            var turns1 := [fine.(result := Deactivate), fine];
            var cs2, groups2 := [b.(state := Inactive), a.(state := Inactive)], map[group := Ok];
            && ReadCycle([b, a], map[group := Ok], [fine, fine.(result := Error)], cs1, groups1)
            && WriteCycle(cs1, groups1, turns1, cs2, groups2) && Cleared(cs1, groups1, turns1, group, 2)
            && ReadCycle(cs2, groups2, [fine, fine], cs2, groups2)
  {
    var group := Name("arm");
    var b := Component(Name("b"), group, false, Active, [], []);
    var a := Component(Name("a"), group, false, Active, [], []);
    var fine := Turn(false, true, Ok, SUCCESS, SUCCESS, Answers(SUCCESS, SUCCESS, SUCCESS, SUCCESS, SUCCESS, SUCCESS));
    assert group != NoGroup by { assert |"arm"| == 3; }
    ReadPair([b, a], map[group := Ok], [fine, fine.(result := Error)]);
    var cs1, groups1 := [b, a.(state := Unconfigured)], map[group := Error];
    var turns1 := [fine.(result := Deactivate), fine];
    WritePair(cs1, groups1, turns1);
    assert DeactivatedBy(cs1, groups1, turns1, group, 0, 1);
    assert ClearedAt(cs1, groups1, turns1, group, 1, 2);
    var cs2, groups2 := [b.(state := Inactive), a.(state := Inactive)], map[group := Ok];
    assert WriteGroups(cs1, groups1, turns1, 2) == groups2;
    ReadPair(cs2, groups2, [fine, fine]);
  }

  /** Two turns of a read, or write, cycle. */
  lemma ReadPair(cs: seq<Component>, groups: map<Name, ReturnType>, turns: seq<Turn>)
    requires |cs| == |turns| == 2 && !turns[0].locked && !turns[1].locked
    ensures var first := GroupAfter(groups, cs[0].group, Own(cs[0], turns[0]));
            && GroupsThrough(cs, groups, turns, 2) == GroupAfter(first, cs[1].group, Own(cs[1], turns[1]))
            && VerdictOn(cs, groups, turns, 0) == Verdict(groups, cs[0], turns[0])
            && VerdictOn(cs, groups, turns, 1) == Verdict(first, cs[1], turns[1])
  {
    assert GroupsThrough(cs, groups, turns, 0) == groups;
    assert GroupsThrough(cs, groups, turns, 1) == GroupAfter(groups, cs[0].group, Own(cs[0], turns[0]));
  }

  lemma WritePair(cs: seq<Component>, groups: map<Name, ReturnType>, turns: seq<Turn>)
    requires |cs| == |turns| == 2 && Written(cs[0], turns[0]) && Written(cs[1], turns[1])
    ensures var verdict := WriteVerdict(groups, cs[0], turns[0]);
            var first := GroupsAfterWrite(groups, cs[0], turns[0], verdict);
            && WriteVerdictOn(cs, groups, turns, 0) == verdict
            && WriteVerdictOn(cs, groups, turns, 1) == WriteVerdict(first, cs[1], turns[1])
            && WriteGroups(cs, groups, turns, 2)
               == GroupsAfterWrite(first, cs[1], turns[1], WriteVerdict(first, cs[1], turns[1]))
  {
    assert WriteGroups(cs, groups, turns, 0) == groups;
    assert WriteGroups(cs, groups, turns, 1) == GroupsAfterWrite(groups, cs[0], turns[0], WriteVerdict(groups, cs[0], turns[0]));
  }

  // ---------------------------------------------------------------------------------------
  // Turns and requests
  // ---------------------------------------------------------------------------------------

  /** What the component itself returns from a read. */
  function Own(c: Component, t: Turn): ReturnType {
    if t.due && Running(c.state) then t.result else Ok
  }

  function GroupAfter(groups: map<Name, ReturnType>, group: Name, value: ReturnType): map<Name, ReturnType> {
    if group == NoGroup || value == Ok then groups else groups[group := value]
  }

  /** What the cycle makes of it, given the state of the group. */
  function Verdict(groups: map<Name, ReturnType>, c: Component, t: Turn): ReturnType {
    var own := Own(c, t);
    if own != Ok || c.group == NoGroup || c.group !in groups then own else groups[c.group]
  }

  /** The state of a component whose read was not OK: an ERROR is answered twice. */
  function AfterRead(s: LifecycleState, t: Turn): (r: LifecycleState)
    ensures !Running(r)
  {
    if t.due && Running(s) && t.result == Error then AfterError(AfterError(s, t.first), t.second)
    else AfterError(s, t.second)
  }

  function GroupReset(groups: map<Name, ReturnType>, group: Name): map<Name, ReturnType> {
    if group == NoGroup then groups else groups[group := Ok]
  }

  /** Where a state request ends; a step that fails ends it. */
  function AfterRequest(s: LifecycleState, target: LifecycleState, a: Answers): LifecycleState {
    var stopped := AfterDeactivate(s, a.deactivate, a.error);
    match target
    case Unconfigured =>
      if s == Active && stopped != Inactive then stopped else AfterCleanup(stopped, a.cleanup, a.error)
    case Inactive =>
      if s == Unconfigured then AfterConfigure(s, a.configure, a.error) else stopped
    case Active =>
      (var configured := AfterConfigure(s, a.configure, a.error);
       if s == Unconfigured && configured != Inactive then configured else AfterActivate(configured, a.activate, a.error))
    case Finalized =>
      if s == Active && stopped != Inactive then stopped else AfterShutdown(stopped, a.shutdown, a.error)
  }

  /** Configuring and cleaning up make the group forget earlier errors, and so does a shutdown that
      succeeds. */
  predicate ResetsGroup(s: LifecycleState, target: LifecycleState, a: Answers) {
    match target
    case Unconfigured => s == Inactive || (s == Active && a.deactivate == SUCCESS)
    case Inactive => s == Unconfigured
    case Active => s == Unconfigured
    case Finalized => s != Finalized && Reaches(s, Finalized, a)
  }

  /** A request that cleans up or shuts down takes the interfaces away. */
  predicate Removes(s: LifecycleState, target: LifecycleState, result: bool) {
    result && s != target && !Running(target)
  }

  /** One that configures makes them available, even if the activation fails. */
  predicate Adds(s: LifecycleState, target: LifecycleState, a: Answers) {
    s == Unconfigured && Running(target) && a.configure == SUCCESS
  }

  /** A DEACTIVATE reaches an unconfigured component, which is then configured. */
  predicate Reconfigured(c: Component, t: Turn, verdict: ReturnType) {
    verdict == Deactivate && c.state == Unconfigured && t.answers.configure == SUCCESS
  }

  /** When a state request succeeds. */
  predicate Reaches(s: LifecycleState, target: LifecycleState, a: Answers) {
    match s
    case Unconfigured =>
      (target == Unconfigured
       || (target == Inactive && a.configure == SUCCESS)
       || (target == Active && a.configure == SUCCESS && a.activate == SUCCESS)
       || (target == Finalized && a.shutdown == SUCCESS))
    case Inactive =>
      ((target == Unconfigured && (a.cleanup == SUCCESS || a.error == SUCCESS))
       || target == Inactive
       || (target == Active && a.activate == SUCCESS)
       || (target == Finalized && (a.shutdown == SUCCESS || a.error != SUCCESS)))
    case Active =>
      ((target == Unconfigured && a.deactivate == SUCCESS && (a.cleanup == SUCCESS || a.error == SUCCESS))
       || (target == Inactive && a.deactivate == SUCCESS)
       || target == Active
       || (target == Finalized && a.deactivate == SUCCESS && (a.shutdown == SUCCESS || a.error != SUCCESS)))
    case Finalized =>
      target == Finalized
  }

  /** A state request reports success if and only if its target is reached, with one exception: an active
      component whose deactivation ends in an ERROR may so be unconfigured or finalized as requested, and the
      request has failed all the same. */
  lemma ReachesIff(s: LifecycleState, target: LifecycleState, a: Answers)
    ensures Reaches(s, target, a)
            <==> AfterRequest(s, target, a) == target && !(s == Active && a.deactivate == ERROR && !Running(target))
  {
  }

  /** Such a request. */
  lemma ReachedButFailed()
    ensures var a := Answers(SUCCESS, SUCCESS, ERROR, SUCCESS, SUCCESS, SUCCESS);
            AfterRequest(Active, Unconfigured, a) == Unconfigured && !Reaches(Active, Unconfigured, a)
  {
  }
}
