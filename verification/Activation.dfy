/** Executing a switch: deactivation, chained mode, claiming of interfaces, activation and the STRICT
    rollback (controller_manager.cpp, deactivate_controllers, switch_chained_mode,
    activate_controllers and manage_switch; resource_manager.cpp, the claim functions). Other threads
    may change which interfaces are available between any two reads of the availability. */
module Activation {
  import opened Names
  import opened Controllers

  /** A controller of the real-time list with its live command loans and the interfaces it exports. */
  datatype Holder = Holder(c: Controller, loans: seq<Interface>, references: seq<Interface>, exported: seq<Interface>)

  function HolderNames(hs: seq<Holder>): (r: seq<Name>)
    ensures |r| == |hs|
    ensures forall i :: 0 <= i < |hs| ==> r[i] == hs[i].c.name
  {
    seq(|hs|, i requires 0 <= i < |hs| => hs[i].c.name)
  }

  function FindHolder(hs: seq<Holder>, name: Name): (k: nat)
    ensures k <= |hs|
    ensures k < |hs| <==> name in HolderNames(hs)
    ensures k < |hs| ==> hs[k].c.name == name
  {
    IndexOf(HolderNames(hs), name)
  }

  /** The controllers whose plug-ins agree to every change of their chained mode, and those whose plug-ins do
      not fail when they are activated or deactivated; the others answer as they like. */
  datatype Plugins = Plugins(agreeing: set<Name>, willing: set<Name>)

  /** All interfaces are available, and the command interfaces are different and not claimed. */
  ghost predicate ClaimsFree(c: Controller, available: set<Interface>, availableStates: set<Interface>, claimed: set<Interface>) {
    && (forall k :: k in c.commands ==> k in available) && NewlyClaimed(c.commands, claimed)
    && (forall k :: k in c.states ==> k in availableStates)
  }

  /** A claim is granted, when `first` and `second` are available at the two reads. */
  predicate Grants(key: Interface, first: set<Interface>, second: set<Interface>, claimed: set<Interface>) {
    key in first && !(key in second && key in claimed)
  }

  /** The question and the claim that follows it, at which `first`, `second` and `third` are available. */
  predicate Takes(key: Interface, first: set<Interface>, second: set<Interface>, third: set<Interface>, claimed: set<Interface>) {
    !(key in first && key in claimed) && Grants(key, second, third, claimed)
  }

  /** The interfaces are all different, and none was claimed before. */
  ghost predicate NewlyClaimed(keys: seq<Interface>, claimed: set<Interface>) {
    Unique(keys) && forall c :: c in keys ==> c !in claimed
  }

  /** Every claimed flag stands for exactly one live loan: no loan is held twice, and an interface is
      marked as claimed if and only if a controller, or the loan list `pending` of the activation in
      progress, holds it. */
  ghost predicate LoansMatch(hs: seq<Holder>, pending: seq<Interface>, claimed: set<Interface>) {
    && Unique(HolderNames(hs)) && Unique(pending)
    && (forall i :: 0 <= i < |hs| ==> Unique(hs[i].loans))
    && (forall i, k :: 0 <= i < |hs| && k in hs[i].loans ==> k !in pending && k in claimed)
    && (forall k :: k in pending ==> k in claimed)
    && (forall i, j, k :: 0 <= i < j < |hs| && k in hs[i].loans ==> k !in hs[j].loans)
    && (forall k :: k in claimed ==> k in pending || exists i :: 0 <= i < |hs| && k in hs[i].loans)
  }

  /** Active with all its command interfaces, or not active with none. */
  predicate AllOrNothing(h: Holder) {
    if h.c.state == Active then h.loans == h.c.commands else h.loans == []
  }

  /** Activating the listed controllers wants every interface once, and none that an active controller
      holds. */
  ghost predicate NoContention(hs: seq<Holder>, list: seq<Name>) {
    && Unique(list) && (forall i :: 0 <= i < |hs| ==> AllOrNothing(hs[i]))
    && (forall i :: 0 <= i < |hs| && hs[i].c.name in list ==> hs[i].c.state != Active && Unique(hs[i].c.commands))
    && (forall i, j :: (0 <= i < |hs| && 0 <= j < |hs| && i != j && hs[i].c.name in list
                        && (hs[j].c.name in list || hs[j].c.state == Active)) ==> !Share(hs[i].c, hs[j].c))
  }

  class Switcher {
    var holders: seq<Holder>
    var available: set<Interface>
    var availableStates: set<Interface>
    var claimed: set<Interface>

    const plugins: Plugins

    /** No other thread changes what is available. */
    const quiet: bool

    /** A claimed interface has been granted once more. */
    ghost var doubled: bool

    /** Names are unique, and claimed flags stand for live loans unless an interface was granted twice. */
    ghost predicate Consistent()
      reads this
    {
      Unique(HolderNames(holders)) && (!doubled ==> LoansMatch(holders, [], claimed))
    }

    /** Anything another thread may do to the availability lists. */
    method Interfere()
      modifies `available, `availableStates
      ensures quiet ==> available == old(available) && availableStates == old(availableStates)
    {
      if !quiet {
        available := *;
        availableStates := *;
      }
    }

    // -------------------------------------------------------------------------------------
    // The resource manager's claim functions
    // -------------------------------------------------------------------------------------

    /** An interface that is not available counts as not claimed. */
    method CommandInterfaceIsClaimed(key: Interface) returns (r: bool)
      ensures r <==> key in available && key in claimed
    {
      r := key in available && key in claimed;
    }

    /** Claims the interface, or throws (here: fails) when it is not available or already claimed. The
        availability is read twice, and another thread may act in between. */
    method ClaimCommandInterface(key: Interface) returns (ok: bool)
      modifies `claimed, `available, `availableStates, `doubled
      ensures ok <==> Grants(key, old(available), available, old(claimed))
      ensures claimed == if ok then old(claimed) + {key} else old(claimed)
      ensures doubled <==> old(doubled) || (ok && key in old(claimed))
      ensures quiet ==> available == old(available) && availableStates == old(availableStates)
    {
      if key !in available {
        return false;
      }
      Interfere();
      var taken := CommandInterfaceIsClaimed(key);
      if taken {
        return false;
      }
      doubled := doubled || key in claimed;
      claimed := claimed + {key};
      return true;
    }

    /** What activation does for one command interface: it asks whether the interface is claimed and, if
        not, claims it. Another thread may act before and after the question, and inside the claim; `first`,
        `second` and `third` are the availabilities that the three reads find. */
    method TakeCommandInterface(key: Interface)
      returns (ok: bool, ghost first: set<Interface>, ghost second: set<Interface>, ghost third: set<Interface>)
      modifies `claimed, `available, `availableStates, `doubled
      ensures ok <==> Takes(key, first, second, third, old(claimed))
      ensures claimed == if ok then old(claimed) + {key} else old(claimed)
      ensures doubled <==> old(doubled) || (key in old(claimed) && key !in first && key in second && key !in third)
      ensures quiet ==> first == second == third == available == old(available) && availableStates == old(availableStates)
    {
      Interfere();
      first := available;
      var taken := CommandInterfaceIsClaimed(key);
      Interfere();
      second, third := available, available;
      ok := false;
      if !taken {
        ok := ClaimCommandInterface(key);
        third := available;
      }
    }

    /** The destructor of a loan. */
    method ReleaseCommandInterface(key: Interface)
      modifies `claimed
      ensures claimed == old(claimed) - {key}
    {
      claimed := claimed - {key};
    }

    /** Clearing a list of loans destroys them one by one. */
    method ReleaseAll(loans: seq<Interface>)
      modifies `claimed
      ensures claimed == old(claimed) - Elements(loans)
    {
      for i := 0 to |loans|
        invariant claimed == old(claimed) - Elements(loans[..i])
      {
        ReleaseCommandInterface(loans[i]);
        assert loans[..i + 1] == loans[..i] + [loans[i]];
      }
      assert loans[..|loans|] == loans;
    }

    /** The first half of one activation: claim every command interface, then look at the state
        interfaces; any failure gives back what was claimed. The availability may change at any time. */
    method ClaimFor(k: nat) returns (ok: bool, loans: seq<Interface>)
      requires Consistent() && k < |holders|
      modifies `available, `availableStates, `claimed, `doubled
      ensures old(doubled) ==> doubled
      ensures ok ==> loans == holders[k].c.commands && claimed == old(claimed) + Elements(loans)
      ensures ok ==> (doubled <==> old(doubled) || !NewlyClaimed(holders[k].c.commands, old(claimed)))
      ensures ok && !doubled ==> LoansMatch(holders, loans, claimed)
      ensures ok && !old(doubled) ==> (LoansMatch(holders, loans, claimed) <==> !doubled)
      ensures doubled ==> old(doubled) || !NewlyClaimed(holders[k].c.commands, old(claimed))
      ensures !ok ==> Consistent()
      ensures !ok && !doubled ==> claimed == old(claimed)
      ensures quiet ==> available == old(available) && availableStates == old(availableStates)
      ensures quiet ==> (ok <==> ClaimsFree(holders[k].c, available, availableStates, old(claimed)))
    {
      hide LoansMatch;
      loans := [];
      var commands, states := holders[k].c.commands, holders[k].c.states;
      for i := 0 to |commands|
        invariant loans == commands[..i] && claimed == old(claimed) + Elements(loans)
        invariant doubled <==> old(doubled) || !NewlyClaimed(loans, old(claimed))
        invariant !doubled ==> LoansMatch(holders, loans, claimed)
        invariant quiet ==> available == old(available) && availableStates == old(availableStates)
        invariant quiet ==> NewlyClaimed(loans, old(claimed)) && forall j :: 0 <= j < i ==> commands[j] in available
      {
        ghost var before := claimed;
        var taken, first, second, third := TakeCommandInterface(commands[i]);
        if taken && !doubled {
          GrantKeepsLoansIff(holders, loans, before, commands[i]);
        }
        if !taken {
          if NewlyClaimed(commands, old(claimed)) {
            NewlyClaimedPrefix(commands, i, old(claimed));
          }
          GiveBackUnlessDoubled(loans);
          ReleaseAll(loans);
          return false, [];
        }
        NewlyClaimedOneMore(loans, commands[i], old(claimed));
        loans := loans + [commands[i]];
      }
      for i := 0 to |states|
        invariant loans == commands && claimed == old(claimed) + Elements(loans)
        invariant doubled <==> old(doubled) || !NewlyClaimed(loans, old(claimed))
        invariant !doubled ==> LoansMatch(holders, loans, claimed)
        invariant quiet ==> available == old(available) && availableStates == old(availableStates)
        invariant quiet ==> NewlyClaimed(loans, old(claimed)) && forall j :: 0 <= j < |commands| ==> commands[j] in available
        invariant quiet ==> forall j :: 0 <= j < i ==> states[j] in availableStates
      {
        Interfere();
        if states[i] !in availableStates {
          GiveBackUnlessDoubled(loans);
          ReleaseAll(loans);
          return false, [];
        }
      }
      if !old(doubled) {
        GrantsKeepLoansIff(holders, commands, old(claimed));
      }
      return true, loans;
    }

    /** Giving back the pending loans is right unless an interface was granted twice. */
    lemma GiveBackUnlessDoubled(loans: seq<Interface>)
      requires !doubled ==> LoansMatch(holders, loans, claimed)
      ensures !doubled ==> LoansMatch(holders, [], claimed - Elements(loans))
    {
      if !doubled {
        GiveBack(holders, loans, claimed);
      }
    }

    // -------------------------------------------------------------------------------------
    // Availability of a controller's own exported interfaces
    // -------------------------------------------------------------------------------------

    method MakeExportsAvailable(h: Holder)
      modifies `available, `availableStates
      ensures available == old(available) + Elements(h.references)
      ensures availableStates == old(availableStates) + Elements(h.exported)
    {
      availableStates := availableStates + Elements(h.exported);
      available := available + Elements(h.references);
    }

    method MakeExportsUnavailable(h: Holder)
      modifies `available, `availableStates
      ensures available == old(available) - Elements(h.references)
      ensures availableStates == old(availableStates) - Elements(h.exported)
    {
      availableStates := availableStates - Elements(h.exported);
      available := available - Elements(h.references);
    }

    // -------------------------------------------------------------------------------------
    // Deactivation
    // -------------------------------------------------------------------------------------

    /** One deactivation: whatever state the plug-in ends in, its loans are released. A controller in
        `stuck` stays active. */
    method DeactivateOne(k: nat, stuck: set<Name>)
      requires Consistent() && k < |holders| && holders[k].c.state == Active
      modifies this
      ensures doubled == old(doubled) && Consistent() && HolderNames(holders) == HolderNames(old(holders))
      ensures forall i :: 0 <= i < |holders| && i != k ==> holders[i] == old(holders)[i]
      ensures Deactivated(old(holders)[k], holders[k], [old(holders)[k].c.name], stuck, plugins)
      ensures var h := old(holders)[k];
              && available == old(available) - (if h.c.chainable then Elements(h.references) else {})
              && availableStates == old(availableStates) - (if h.c.chainable then Elements(h.exported) else {})
    {
      hide LoansMatch;
      var h := holders[k];
      var after: LifecycleState := *;
      if h.c.name in stuck {
        after := Active;
      } else if after == Active || h.c.name in plugins.willing {
        after := Inactive;
      }
      EndActivity(k, after);
      if h.c.chainable {
        var agrees: bool := *;
        if after != Active && (agrees || h.c.name in plugins.agreeing) {
          SetChainedMode(k, false);
        }
        MakeExportsUnavailable(h);
      }
    }

    /** The controller leaves its state, and its loans are destroyed. */
    method EndActivity(k: nat, after: LifecycleState)
      requires Consistent() && k < |holders|
      modifies `holders, `claimed
      ensures Consistent() && HolderNames(holders) == HolderNames(old(holders))
      ensures holders == old(holders)[k := old(holders)[k].(c := old(holders)[k].c.(state := after), loans := [])]
    {
      hide LoansMatch;
      var h := holders[k];
      ReleaseAll(h.loans);
      if !doubled {
        LoansReleased(holders, k, after, old(claimed), claimed);
      }
      holders := holders[k := h.(c := h.c.(state := after), loans := [])];
      assert HolderNames(holders) == HolderNames(old(holders));
    }

    /** set_chained_mode, when the plug-in agrees. */
    method SetChainedMode(k: nat, chained: bool)
      requires Consistent() && k < |holders|
      modifies `holders
      ensures Consistent() && HolderNames(holders) == HolderNames(old(holders))
      ensures holders == old(holders)[k := old(holders)[k].(c := old(holders)[k].c.(chained := chained))]
    {
      hide LoansMatch;
      ghost var before := holders;
      holders := holders[k := holders[k].(c := holders[k].c.(chained := chained))];
      assert HolderNames(holders) == HolderNames(before);
      if !doubled {
        SameLoansMatch(before, holders, [], claimed);
      }
    }

    /** deactivate_controllers: names that are not loaded or not active are skipped. */
    method DeactivateControllers(list: seq<Name>, stuck: set<Name>)
      requires Consistent()
      modifies this
      ensures doubled == old(doubled) && Consistent() && HolderNames(holders) == HolderNames(old(holders))
      ensures forall i :: 0 <= i < |holders| ==> Deactivated(old(holders)[i], holders[i], list, stuck, plugins)
      ensures forall x :: x in available <==> x in old(available) && !StoppedExport(old(holders), list, x)
      ensures forall x :: x in availableStates <==> x in old(availableStates) && !StoppedState(old(holders), list, x)
    {
      hide LoansMatch;
      hide StoppedExport;
      hide StoppedState;
      hide Deactivated;
      NobodyStopped(holders);
      StartsUndeactivated(holders, stuck, plugins);
      assert list[..0] == [];
      for n := 0 to |list|
        invariant Consistent() && HolderNames(holders) == HolderNames(old(holders))
        invariant forall i :: 0 <= i < |holders| ==> Deactivated(old(holders)[i], holders[i], list[..n], stuck, plugins)
        invariant doubled == old(doubled)
        invariant forall x :: x in available <==> x in old(available) && !StoppedExport(old(holders), list[..n], x)
        invariant forall x :: x in availableStates <==> x in old(availableStates) && !StoppedState(old(holders), list[..n], x)
      {
        var k := FindHolder(holders, list[n]);
        ghost var before := holders;
        StoppedOneMore(old(holders), holders, list, n, k, stuck, plugins);
        if k < |holders| && holders[k].c.state == Active {
          DeactivateOne(k, stuck);
        }
        DeactivatedOneMore(old(holders), before, holders, list, n, k, stuck, plugins);
      }
      assert list[..|list|] == list;
    }

    // -------------------------------------------------------------------------------------
    // Chained mode
    // -------------------------------------------------------------------------------------

    /** set_chained_mode: a controller that is not chainable refuses, the others as their plug-in likes. */
    method AskForMode(k: nat, toChained: bool)
      requires Consistent() && k < |holders| && holders[k].c.state != Active
      modifies `holders
      ensures Consistent() && HolderNames(holders) == HolderNames(old(holders))
      ensures forall i :: 0 <= i < |holders| && i != k ==> holders[i] == old(holders)[i]
      ensures Moded(old(holders)[k], holders[k], [old(holders)[k].c.name], toChained, plugins)
    {
      if holders[k].c.chainable {
        var agrees: bool := *;
        if agrees || holders[k].c.name in plugins.agreeing {
          SetChainedMode(k, toChained);
        }
      }
    }

    /** switch_chained_mode: the chainable controllers of the list that are not active change their mode
        if their plug-in agrees. */
    method SwitchChainedMode(list: seq<Name>, toChained: bool)
      requires Consistent()
      modifies `holders
      ensures Consistent() && HolderNames(holders) == HolderNames(old(holders))
      ensures forall i :: 0 <= i < |holders| ==> Moded(old(holders)[i], holders[i], list, toChained, plugins)
    {
      hide LoansMatch;
      hide Moded;
      NobodyModed(holders, toChained, plugins);
      assert list[..0] == [];
      for n := 0 to |list|
        invariant Consistent() && HolderNames(holders) == HolderNames(old(holders))
        invariant forall i :: 0 <= i < |holders| ==> Moded(old(holders)[i], holders[i], list[..n], toChained, plugins)
      {
        var k := FindHolder(holders, list[n]);
        ghost var before := holders;
        if k < |holders| && holders[k].c.state != Active {
          AskForMode(k, toChained);
        }
        ModedOneMore(old(holders), before, holders, list, n, k, toChained, plugins);
      }
      assert list[..|list|] == list;
    }

    // -------------------------------------------------------------------------------------
    // Activation
    // -------------------------------------------------------------------------------------

    /** The body of the activation loop for one loaded controller. */
    method ActivateOne(k: nat) returns (ok: bool)
      requires Consistent() && k < |holders| && AllOrNothing(holders[k])
      modifies this
      ensures Consistent() && HolderNames(holders) == HolderNames(old(holders))
      ensures forall i :: 0 <= i < |holders| && i != k ==> holders[i] == old(holders)[i]
      ensures AllOrNothing(holders[k]) && SameController(holders[k], old(holders)[k])
      ensures holders[k].c.chained == old(holders)[k].c.chained
      ensures ok ==> holders[k].c.state == Active
      ensures quiet && old(holders)[k].c.name in plugins.willing ==>
                (ok <==> Ready(old(holders)[k].c) && ClaimsFree(old(holders)[k].c, old(available), old(availableStates), old(claimed)))
      ensures quiet && ok ==> var h := old(holders)[k];
                              && available == old(available) + (if h.c.chainable then Elements(h.references) else {})
                              && availableStates == old(availableStates) + (if h.c.chainable then Elements(h.exported) else {})
      ensures doubled ==> old(doubled) || !NewlyClaimed(old(holders)[k].c.commands, old(claimed))
    {
      hide LoansMatch;
      hide NewlyClaimed;
      var h := holders[k];
      var loans;
      ok, loans := ClaimFor(k);

      if !ok {
        return false;
      }
      // activating is no transition of a controller that is not inactive
      var after: LifecycleState := *;
      if h.c.state != Inactive {
        after := h.c.state;
      } else if h.c.name in plugins.willing {
        after := Active;
      }
      if after != Active {
        StayInactive(k, after, loans);
        ok := false;
      } else {
        BecomeActive(k, loans);
      }
    }

    /** A failed activation releases the interfaces. */
    method StayInactive(k: nat, after: LifecycleState, loans: seq<Interface>)
      requires Unique(HolderNames(holders)) && (!doubled ==> LoansMatch(holders, loans, claimed)) && k < |holders|
      modifies `holders, `claimed, `available, `availableStates
      ensures Consistent() && HolderNames(holders) == HolderNames(old(holders))
      ensures holders == old(holders)[k := old(holders)[k].(c := old(holders)[k].c.(state := after))]
      ensures var h := old(holders)[k];
              && available == old(available) - (if h.c.chainable then Elements(h.references) else {})
              && availableStates == old(availableStates) - (if h.c.chainable then Elements(h.exported) else {})
    {
      hide LoansMatch;
      var h := holders[k];
      GiveBackUnlessDoubled(loans);
      ReleaseAll(loans);
      holders := holders[k := h.(c := h.c.(state := after))];
      assert HolderNames(holders) == HolderNames(old(holders));
      if !doubled {
        SameLoansMatch(old(holders), holders, [], claimed);
      }
      if h.c.chainable {
        MakeExportsUnavailable(h);
      }
    }

    /** An active controller holds the interfaces, and its own are available. */
    method BecomeActive(k: nat, loans: seq<Interface>)
      requires Unique(HolderNames(holders)) && (!doubled ==> LoansMatch(holders, loans, claimed)) && k < |holders|
      requires AllOrNothing(holders[k]) && loans == holders[k].c.commands
      modifies `holders, `available, `availableStates
      ensures Consistent() && HolderNames(holders) == HolderNames(old(holders))
      ensures holders == old(holders)[k := old(holders)[k].(c := old(holders)[k].c.(state := Active), loans := loans)]
      ensures var h := old(holders)[k];
              && available == old(available) + (if h.c.chainable then Elements(h.references) else {})
              && availableStates == old(availableStates) + (if h.c.chainable then Elements(h.exported) else {})
    {
      hide LoansMatch;
      var h := holders[k];
      if !doubled {
        NoLoansYet(holders, k, claimed);
        LoansAssigned(holders, k, loans, claimed);
      }
      holders := holders[k := h.(c := h.c.(state := Active), loans := loans)];
      assert HolderNames(holders) == HolderNames(old(holders));
      if h.c.chainable {
        MakeExportsAvailable(h);
      }
    }

    /** activate_controllers: the loop goes on after a failure; under STRICT a failure deactivates
        everything that was listed. `ok` is the source's is_successful. */
    method ActivateControllers(list: seq<Name>, strict: bool, stuck: set<Name>) returns (ok: bool)
      requires Consistent()
      requires forall i :: 0 <= i < |holders| && holders[i].c.name in list ==> AllOrNothing(holders[i])
      modifies this
      ensures Consistent() && HolderNames(holders) == HolderNames(old(holders))
      ensures forall i :: 0 <= i < |holders| && holders[i].c.name !in list ==> holders[i] == old(holders)[i]
      ensures forall i :: 0 <= i < |holders| ==> SameController(holders[i], old(holders)[i])
      ensures forall i :: 0 <= i < |holders| && holders[i].c.chained != old(holders)[i].c.chained
                          ==> !ok && strict && !holders[i].c.chained && holders[i].c.chainable
      ensures ok ==> forall i :: 0 <= i < |holders| && holders[i].c.name in list
                       ==> holders[i].c.state == Active && holders[i].loans == holders[i].c.commands
      ensures !ok && strict ==> forall i :: 0 <= i < |holders| && holders[i].c.name in list
                                  ==> holders[i].loans == [] && (holders[i].c.state == Active ==> holders[i].c.name in stuck)
      ensures !ok && !strict ==> forall i :: 0 <= i < |holders| && holders[i].c.name in list ==> AllOrNothing(holders[i])
      ensures !old(doubled) && NoContention(old(holders), list) ==> !doubled
      ensures (quiet && !old(doubled) && NoContention(old(holders), list)
               && Startable(old(holders), list, old(available), old(availableStates), plugins)) ==> ok
      ensures quiet && ok ==>
                && (forall x :: x in available <==> x in old(available) || StartedExport(old(holders), list, x))
                && (forall x :: x in availableStates <==> x in old(availableStates) || StartedState(old(holders), list, x))
    {
      hide NoContention;
      hide StartedExport;
      hide StartedState;
      hide Startable;
      hide AllClaimable;
      hide Offered;
      MakeListedAvailable(list);
      StartedIsOffered(holders, list, available, availableStates);
      if Startable(holders, list, old(available), old(availableStates), plugins) {
        StartableIsClaimable(holders, list, old(available), old(availableStates), available, availableStates, plugins);
      }
      ok := ActivateEach(list);
      if !ok && strict {
        DeactivateControllers(list, stuck);
      }
    }

    /** The loop that makes all exports of chainable controllers available before any is activated. */
    method MakeListedAvailable(list: seq<Name>)
      requires Unique(HolderNames(holders))
      modifies `available, `availableStates
      ensures forall x :: x in available <==> x in old(available) || StartedExport(holders, list, x)
      ensures forall x :: x in availableStates <==> x in old(availableStates) || StartedState(holders, list, x)
    {
      hide StartedExport;
      hide StartedState;
      assert list[..0] == [];
      NobodyStarted(holders);
      for n := 0 to |list|
        invariant forall x :: x in available <==> x in old(available) || StartedExport(holders, list[..n], x)
        invariant forall x :: x in availableStates <==> x in old(availableStates) || StartedState(holders, list[..n], x)
      {
        StartedOneMore(holders, list, n);
        var k := FindHolder(holders, list[n]);
        if k < |holders| && holders[k].c.chainable {
          MakeExportsAvailable(holders[k]);
        }
      }
      assert list[..|list|] == list;
    }

    /** The activation loop; it goes on after a failure. */
    method ActivateEach(list: seq<Name>) returns (ok: bool)
      requires Consistent()
      requires forall i :: 0 <= i < |holders| && holders[i].c.name in list ==> AllOrNothing(holders[i])
      modifies this
      ensures Consistent() && HolderNames(holders) == HolderNames(old(holders))
      ensures forall i :: 0 <= i < |holders| ==> Attempted(old(holders)[i], holders[i], list)
      ensures ok ==> AllActive(holders, list)
      ensures !old(doubled) && NoContention(old(holders), list) ==> !doubled
      ensures (quiet && !old(doubled) && NoContention(old(holders), list)
               && AllClaimable(old(holders), list, old(available), old(availableStates), plugins)) ==> ok
      ensures quiet && ok && Offered(old(holders), list, old(available), old(availableStates))
              ==> available == old(available) && availableStates == old(availableStates)
    {
      hide LoansMatch;
      hide NoContention;
      hide Attempted;
      hide AllActive;
      hide AllClaimable;
      hide Offered;
      ok := true;
      NobodyAttempted(holders, list);
      for n := 0 to |list|
        invariant Consistent() && HolderNames(holders) == HolderNames(old(holders))
        invariant AllAttempted(old(holders), holders, list, n)
        invariant ok ==> AllActive(holders, list[..n])
        invariant !old(doubled) && NoContention(old(holders), list) ==> !doubled
        invariant quiet && ok ==> old(available) <= available && old(availableStates) <= availableStates
        invariant quiet && ok && Offered(old(holders), list, old(available), old(availableStates))
                  ==> available == old(available) && availableStates == old(availableStates)
        invariant (quiet && !old(doubled) && NoContention(old(holders), list)
                   && AllClaimable(old(holders), list, old(available), old(availableStates), plugins)) ==> ok
      {
        var good := ActivateNext(old(holders), list, n, old(available), old(availableStates));
        ok := ok && good;
      }
      assert list[..|list|] == list;
    }

    /** One pass of it; a name that is not loaded is skipped. */
    method ActivateNext(ghost before: seq<Holder>, list: seq<Name>, n: nat, ghost first: set<Interface>, ghost firstStates: set<Interface>)
      returns (good: bool)
      requires Consistent() && n < |list| && HolderNames(holders) == HolderNames(before) && AllAttempted(before, holders, list, n)
      requires forall i :: 0 <= i < |before| && before[i].c.name in list ==> AllOrNothing(before[i])
      modifies this
      ensures Consistent() && HolderNames(holders) == HolderNames(before) && AllAttempted(before, holders, list, n + 1)
      ensures good && AllActive(old(holders), list[..n]) ==> AllActive(holders, list[..n + 1])
      ensures !old(doubled) && NoContention(before, list) ==> !doubled
      ensures quiet && good ==> old(available) <= available && old(availableStates) <= availableStates
      ensures quiet && good && Offered(before, list, old(available), old(availableStates))
              ==> available == old(available) && availableStates == old(availableStates)
      ensures (quiet && !old(doubled) && NoContention(before, list) && AllClaimable(before, list, first, firstStates, plugins)
               && first <= old(available) && firstStates <= old(availableStates)) ==> good
    {
      hide LoansMatch;
      hide NewlyClaimed;
      hide NoContention;
      hide AllActive;
      good := true;
      var k := FindHolder(holders, list[n]);
      ghost var mid := holders;
      if k < |holders| {
        SameHolder(before, mid, list, k);
        NextIsUntouched(before, mid, list, n, k);
        if !doubled && NoContention(before, list) {
          NewcomerIsFree(before, mid, list, n, k, claimed);
          NextIsNew(before, list, n, k);
        }
        good := ActivateOne(k);
      }
      AttemptedOneMore(before, mid, holders, list, n, k);
    }

    // -------------------------------------------------------------------------------------
    // The whole switch
    // -------------------------------------------------------------------------------------

    /** Every controller is active with all its command interfaces or not active with none. */
    ghost predicate Whole()
      reads this
    {
      Consistent() && forall i :: 0 <= i < |holders| ==> AllOrNothing(holders[i])
    }

    /** manage_switch, when deactivation always leaves the active state. `performed` is the answer of
        perform_command_mode_switch. */
    method ManageSwitch(activate: seq<Name>, deactivate: seq<Name>, to: seq<Name>, from: seq<Name>, strict: bool, performed: bool)
      returns (ok: bool)
      requires Whole()
      modifies this
      ensures Whole() && HolderNames(holders) == HolderNames(old(holders))
      ensures !performed ==> !ok && holders == old(holders) && claimed == old(claimed)
      ensures performed && ok ==> forall i :: 0 <= i < |holders| ==>
                (holders[i].c.state == Active <==>
                  holders[i].c.name in activate || (old(holders)[i].c.state == Active && holders[i].c.name !in deactivate))
      ensures performed && !ok && !strict ==> forall i :: 0 <= i < |holders| && holders[i].c.name !in activate ==>
                (holders[i].c.state == Active <==> old(holders)[i].c.state == Active && holders[i].c.name !in deactivate)
      ensures performed && !ok && strict ==> forall i :: 0 <= i < |holders| ==>
                (holders[i].c.state == Active <==>
                  old(holders)[i].c.state == Active && holders[i].c.name !in deactivate && holders[i].c.name !in activate)
      ensures forall i :: 0 <= i < |holders| && holders[i].c.name !in activate + deactivate
                          ==> holders[i].c.state == old(holders)[i].c.state && holders[i].loans == old(holders)[i].loans
      ensures forall i :: 0 <= i < |holders| ==> SameController(holders[i], old(holders)[i])
      ensures forall i :: 0 <= i < |holders| && !old(holders)[i].c.chained && holders[i].c.chained ==>
                performed && holders[i].c.name in to && holders[i].c.chainable
                && (old(holders)[i].c.state != Active || holders[i].c.name in deactivate)
      ensures forall i :: 0 <= i < |holders| && old(holders)[i].c.chained && !holders[i].c.chained ==>
                performed && holders[i].c.chainable
                && (holders[i].c.name in from + deactivate || (!ok && strict && holders[i].c.name in activate))
      ensures performed ==> forall i :: 0 <= i < |holders| && holders[i].c.chainable && holders[i].c.name in plugins.agreeing
                              && (old(holders)[i].c.state != Active || holders[i].c.name in deactivate)
                              && (ok || !strict || holders[i].c.name !in activate)
                              ==> (holders[i].c.chained <==> EndsChained(old(holders)[i].c, to, from))
      ensures !old(doubled) && PlanUncontended(old(holders), activate, deactivate) ==> !doubled
      ensures (quiet && performed && !old(doubled) && PlanUncontended(old(holders), activate, deactivate)
               && PlanStartable(old(holders), activate, deactivate, old(available), old(availableStates), plugins)) ==> ok
      ensures quiet && performed && ok ==>
                && (forall x :: x in available <==> StaysOffered(old(holders), activate, deactivate, x, x in old(available)))
                && (forall x :: x in availableStates <==> StateStaysOffered(old(holders), activate, deactivate, x, x in old(availableStates)))
    {
      hide PlanStartable;
      hide StaysOffered;
      hide StateStaysOffered;
      hide LoansMatch;
      hide PlanUncontended;
      hide EndsChained;
      if !performed {
        return false;
      }
      ok := DeactivateThenActivate(activate, deactivate, to, from, strict);
    }

    /** What follows once the hardware has performed the switch of its command modes. */
    method DeactivateThenActivate(activate: seq<Name>, deactivate: seq<Name>, to: seq<Name>, from: seq<Name>, strict: bool)
      returns (ok: bool)
      requires Whole()
      modifies this
      ensures Consistent() && HolderNames(holders) == HolderNames(old(holders))
      ensures forall i :: 0 <= i < |holders|
                          ==> Finished(old(holders)[i], holders[i], activate, deactivate, to, from, plugins, ok, strict)
      ensures !old(doubled) && PlanUncontended(old(holders), activate, deactivate) ==> !doubled
      ensures (quiet && !old(doubled) && PlanUncontended(old(holders), activate, deactivate)
               && PlanStartable(old(holders), activate, deactivate, old(available), old(availableStates), plugins)) ==> ok
      ensures quiet && ok ==>
                && (forall x :: x in available <==> StaysOffered(old(holders), activate, deactivate, x, x in old(available)))
                && (forall x :: x in availableStates <==> StateStaysOffered(old(holders), activate, deactivate, x, x in old(availableStates)))
    {
      hide LoansMatch;
      hide NoContention;
      hide StoppedExport;
      hide StoppedState;
      hide StartedExport;
      hide StartedState;
      hide Startable;
      hide PlanStartable;
      hide StaysOffered;
      hide StateStaysOffered;
      hide Prepared;
      hide SameController;
      hide AllOrNothing;
      hide PlanUncontended;
      hide Finished;
      PrepareActivation(deactivate, to, from);
      ghost var middle := holders;
      if PlanUncontended(old(holders), activate, deactivate) {
        PreparedIsUncontended(old(holders), middle, activate, deactivate, to, from, plugins);
      }
      ghost var offered, offeredStates := available, availableStates;
      if PlanStartable(old(holders), activate, deactivate, old(available), old(availableStates), plugins) {
        PreparedIsStartable(old(holders), middle, activate, deactivate, to, from, plugins,
                            old(available), old(availableStates), offered, offeredStates);
      }
      ok := ActivateControllers(activate, strict, {});
      SameStarted(old(holders), middle, activate, deactivate, to, from, plugins);
      OfferedIs(old(holders), activate, deactivate);
      forall i | 0 <= i < |holders|
        ensures Finished(old(holders)[i], holders[i], activate, deactivate, to, from, plugins, ok, strict)
      {
        assert HolderNames(holders)[i] == holders[i].c.name && HolderNames(middle)[i] == middle[i].c.name;
        PreparedThenActivated(old(holders)[i], middle[i], holders[i], activate, deactivate, to, from, plugins, ok, strict);
      }
    }

    /** Deactivation and the change of chained mode. */
    method PrepareActivation(deactivate: seq<Name>, to: seq<Name>, from: seq<Name>)
      requires Whole()
      modifies this
      ensures Whole() && HolderNames(holders) == HolderNames(old(holders))
      ensures forall i :: 0 <= i < |holders| ==> Prepared(old(holders)[i], holders[i], deactivate, to, from, plugins)
      ensures doubled == old(doubled)
      ensures forall x :: x in available <==> x in old(available) && !StoppedExport(old(holders), deactivate, x)
      ensures forall x :: x in availableStates <==> x in old(availableStates) && !StoppedState(old(holders), deactivate, x)
    {
      hide LoansMatch;
      DeactivateControllers(deactivate, {});
      ghost var first := holders;
      SwitchChainedMode(to, true);
      ghost var second := holders;
      SwitchChainedMode(from, false);
      forall i | 0 <= i < |holders|
        ensures Prepared(old(holders)[i], holders[i], deactivate, to, from, plugins)
      {
        assert Deactivated(old(holders)[i], first[i], deactivate, {}, plugins);
        assert Moded(first[i], second[i], to, true, plugins) && Moded(second[i], holders[i], from, false, plugins);
      }
    }
  }

  /** The plug-in of `before` is asked for the mode: only it can bring a change, to that mode. */
  predicate Asked(before: Controller, after: Controller, toChained: bool, plugins: Plugins) {
    && (after.chained != before.chained ==> before.chainable && after.chained == toChained)
    && (before.chainable && before.name in plugins.agreeing ==> after.chained == toChained)
  }

  /** What switching the chained mode of a list does to one controller. */
  predicate Moded(before: Holder, after: Holder, list: seq<Name>, toChained: bool, plugins: Plugins) {
    if before.c.name in list && before.c.state != Active
    then after == before.(c := before.c.(chained := after.c.chained)) && Asked(before.c, after.c, toChained, plugins)
    else after == before
  }

  lemma NobodyModed(hs: seq<Holder>, toChained: bool, plugins: Plugins)
    ensures forall i :: 0 <= i < |hs| ==> Moded(hs[i], hs[i], [], toChained, plugins)
  {
  }

  lemma ModedOneMore(before: seq<Holder>, mid: seq<Holder>, after: seq<Holder>, list: seq<Name>, n: nat, k: nat,
                     toChained: bool, plugins: Plugins)
    requires n < |list| && |before| == |mid| == |after| && k == FindHolder(mid, list[n])
    requires HolderNames(before) == HolderNames(mid) == HolderNames(after) && Unique(HolderNames(mid))
    requires forall i :: 0 <= i < |mid| ==> Moded(before[i], mid[i], list[..n], toChained, plugins)
    requires forall i :: 0 <= i < |mid| && i != k ==> after[i] == mid[i]
    requires k < |mid| ==> if mid[k].c.state != Active then Moded(mid[k], after[k], [list[n]], toChained, plugins) else after[k] == mid[k]
    ensures forall i :: 0 <= i < |after| ==> Moded(before[i], after[i], list[..n + 1], toChained, plugins)
  {
    assert list[..n + 1] == list[..n] + [list[n]];
    forall i | 0 <= i < |after|
      ensures Moded(before[i], after[i], list[..n + 1], toChained, plugins)
    {
      assert HolderNames(mid)[i] == mid[i].c.name && HolderNames(before)[i] == before[i].c.name;
      if i != k {
        UniqueNot(mid, list[n], i);
      }
    }
  }

  /** The chained mode, after a switch, of an agreeing chainable controller that does not stay active
      throughout: what is asked last counts. */
  predicate EndsChained(c: Controller, to: seq<Name>, from: seq<Name>) {
    c.name !in from && (c.name in to || (c.chained && c.state != Active))
  }

  /** A controller after deactivation and the change of chained mode. */
  predicate Prepared(before: Holder, after: Holder, deactivate: seq<Name>, to: seq<Name>, from: seq<Name>, plugins: Plugins) {
    && SameController(after, before) && AllOrNothing(after)
    && (after.c.state == Active <==> before.c.state == Active && before.c.name !in deactivate)
    && (before.c.state != Active || before.c.name !in deactivate ==> after.c.state == before.c.state && after.loans == before.loans)
    && (before.c.state == Active && before.c.name in deactivate && before.c.name in plugins.willing ==> after.c.state == Inactive)
    && (after.c.chained != before.c.chained ==> before.c.chainable && after.c.state != Active)
    && (after.c.chained && !before.c.chained ==> before.c.name in to)
    && (before.c.chained && !after.c.chained ==> before.c.name in from + deactivate)
    && (before.c.chainable && before.c.name in plugins.agreeing && after.c.state != Active ==>
          (after.c.chained <==> EndsChained(before.c, to, from)))
  }

  /** Every activated controller is willing, inactive or to be restarted, and its interfaces stay, or become,
      available: none of them is exported by a stopped controller only. */
  ghost predicate PlanStartable(hs: seq<Holder>, activate: seq<Name>, deactivate: seq<Name>, available: set<Interface>,
                                availableStates: set<Interface>, plugins: Plugins) {
    forall i :: 0 <= i < |hs| && hs[i].c.name in activate ==>
      && hs[i].c.name in plugins.willing
      && (hs[i].c.state == Inactive || Stopping(hs[i], deactivate))
      && (forall x :: x in hs[i].c.commands ==> StaysOffered(hs, activate, deactivate, x, x in available))
      && (forall x :: x in hs[i].c.states ==> StateStaysOffered(hs, activate, deactivate, x, x in availableStates))
  }

  /** A command interface that is available, or not, before a switch, is so after it. */
  ghost predicate StaysOffered(hs: seq<Holder>, activate: seq<Name>, deactivate: seq<Name>, x: Interface, before: bool) {
    (before && !StoppedExport(hs, deactivate, x)) || StartedExport(hs, activate, x)
  }

  ghost predicate StateStaysOffered(hs: seq<Holder>, activate: seq<Name>, deactivate: seq<Name>, x: Interface, before: bool) {
    (before && !StoppedState(hs, deactivate, x)) || StartedState(hs, activate, x)
  }

  lemma OfferedIs(hs: seq<Holder>, activate: seq<Name>, deactivate: seq<Name>)
    ensures forall x, before :: StaysOffered(hs, activate, deactivate, x, before)
                                <==> (before && !StoppedExport(hs, deactivate, x)) || StartedExport(hs, activate, x)
    ensures forall x, before :: StateStaysOffered(hs, activate, deactivate, x, before)
                                <==> (before && !StoppedState(hs, deactivate, x)) || StartedState(hs, activate, x)
  {
  }

  lemma SameStarted(before: seq<Holder>, hs: seq<Holder>, activate: seq<Name>, deactivate: seq<Name>,
                    to: seq<Name>, from: seq<Name>, plugins: Plugins)
    requires |hs| == |before| && forall i :: 0 <= i < |hs| ==> Prepared(before[i], hs[i], deactivate, to, from, plugins)
    ensures forall x :: StartedExport(hs, activate, x) <==> StartedExport(before, activate, x)
    ensures forall x :: StartedState(hs, activate, x) <==> StartedState(before, activate, x)
  {
    forall i | 0 <= i < |hs|
      ensures hs[i].c.name == before[i].c.name && hs[i].c.chainable == before[i].c.chainable
      ensures hs[i].references == before[i].references && hs[i].exported == before[i].exported
    {
      assert Prepared(before[i], hs[i], deactivate, to, from, plugins);
    }
  }

  lemma PreparedIsStartable(before: seq<Holder>, hs: seq<Holder>, activate: seq<Name>, deactivate: seq<Name>,
                            to: seq<Name>, from: seq<Name>, plugins: Plugins,
                            available: set<Interface>, availableStates: set<Interface>,
                            available': set<Interface>, availableStates': set<Interface>)
    requires |hs| == |before| && forall i :: 0 <= i < |hs| ==> Prepared(before[i], hs[i], deactivate, to, from, plugins)
    requires PlanStartable(before, activate, deactivate, available, availableStates, plugins)
    requires forall x :: x in available' <==> x in available && !StoppedExport(before, deactivate, x)
    requires forall x :: x in availableStates' <==> x in availableStates && !StoppedState(before, deactivate, x)
    ensures Startable(hs, activate, available', availableStates', plugins)
  {
    hide StoppedExport;
    hide StoppedState;
    hide StartedExport;
    hide StartedState;
    SameStarted(before, hs, activate, deactivate, to, from, plugins);
    forall i | 0 <= i < |hs| && hs[i].c.name in activate
      ensures hs[i].c.state == Inactive && hs[i].c.name in plugins.willing
      ensures forall x :: x in hs[i].c.commands ==> x in available' || StartedExport(hs, activate, x)
      ensures forall x :: x in hs[i].c.states ==> x in availableStates' || StartedState(hs, activate, x)
    {
      assert Prepared(before[i], hs[i], deactivate, to, from, plugins);
    }
  }

  /** A controller after the whole switch. */
  predicate Finished(before: Holder, after: Holder, activate: seq<Name>, deactivate: seq<Name>, to: seq<Name>, from: seq<Name>,
                     plugins: Plugins, ok: bool, strict: bool) {
    var listed := after.c.name in activate;
    var kept := before.c.state == Active && after.c.name !in deactivate;
    && SameController(after, before) && AllOrNothing(after)
    && (ok ==> (after.c.state == Active <==> listed || kept))
    && (!ok && (strict || !listed) ==> (after.c.state == Active <==> kept && !listed))
    && (after.c.name !in activate + deactivate ==> after.c.state == before.c.state && after.loans == before.loans)
    && (!before.c.chained && after.c.chained ==> after.c.name in to && after.c.chainable && !kept)
    && (before.c.chained && !after.c.chained ==>
          after.c.chainable && (after.c.name in from + deactivate || (!ok && strict && listed)))
    && (after.c.chainable && after.c.name in plugins.agreeing && !kept && (ok || !strict || !listed) ==>
          (after.c.chained <==> EndsChained(before.c, to, from)))
  }

  lemma PreparedThenActivated(before: Holder, mid: Holder, after: Holder, activate: seq<Name>, deactivate: seq<Name>,
                              to: seq<Name>, from: seq<Name>, plugins: Plugins, ok: bool, strict: bool)
    requires Prepared(before, mid, deactivate, to, from, plugins) && SameController(after, mid) && after.c.name == mid.c.name
    requires mid.c.name !in activate ==> after == mid
    requires after.c.chained != mid.c.chained ==> !ok && strict && !after.c.chained && after.c.chainable
    requires mid.c.name in activate && ok ==> after.c.state == Active && after.loans == after.c.commands
    requires mid.c.name in activate && !ok && strict ==> after.loans == [] && after.c.state != Active
    requires mid.c.name in activate && !ok && !strict ==> AllOrNothing(after)
    ensures Finished(before, after, activate, deactivate, to, from, plugins, ok, strict)
  {
    hide EndsChained;
  }

  /** The plan activates everybody once, and among those that it activates and those that stay active
      every command interface is used by one. */
  ghost predicate PlanUncontended(hs: seq<Holder>, activate: seq<Name>, deactivate: seq<Name>) {
    && Unique(activate)
    && (forall i :: 0 <= i < |hs| && hs[i].c.name in activate ==>
                      (hs[i].c.state == Active ==> hs[i].c.name in deactivate) && Unique(hs[i].c.commands))
    && (forall i, j :: (0 <= i < |hs| && 0 <= j < |hs| && i != j && hs[i].c.name in activate
                        && (hs[j].c.name in activate || (hs[j].c.state == Active && hs[j].c.name !in deactivate)))
                       ==> !Share(hs[i].c, hs[j].c))
  }

  lemma PreparedIsUncontended(before: seq<Holder>, hs: seq<Holder>, activate: seq<Name>, deactivate: seq<Name>,
                              to: seq<Name>, from: seq<Name>, plugins: Plugins)
    requires PlanUncontended(before, activate, deactivate) && |hs| == |before|
    requires forall i :: 0 <= i < |hs| ==> Prepared(before[i], hs[i], deactivate, to, from, plugins)
    ensures NoContention(hs, activate)
  {
    forall i, j | 0 <= i < |hs| && 0 <= j < |hs| && i != j && hs[i].c.name in activate
                  && (hs[j].c.name in activate || hs[j].c.state == Active)
      ensures !Share(hs[i].c, hs[j].c)
    {
      assert Prepared(before[i], hs[i], deactivate, to, from, plugins) && Prepared(before[j], hs[j], deactivate, to, from, plugins);
      assert Share(hs[i].c, hs[j].c) == Share(before[i].c, before[j].c);
    }
  }

  /** What attempting the activation of a list does to one controller. */
  predicate Attempted(before: Holder, after: Holder, list: seq<Name>) {
    if before.c.name in list then AllOrNothing(after) && SameController(after, before) && after.c.chained == before.c.chained
    else after == before
  }

  /** The first `n` names have been attempted, and nobody else has changed. */
  predicate AllAttempted(before: seq<Holder>, hs: seq<Holder>, list: seq<Name>, n: nat)
    requires n <= |list|
  {
    && |hs| == |before|
    && (forall i :: 0 <= i < |hs| ==> Attempted(before[i], hs[i], list))
    && (forall i :: 0 <= i < |hs| && hs[i].c.name !in list[..n] ==> hs[i] == before[i])
  }

  lemma NobodyAttempted(hs: seq<Holder>, list: seq<Name>)
    requires forall i :: 0 <= i < |hs| && hs[i].c.name in list ==> AllOrNothing(hs[i])
    ensures AllAttempted(hs, hs, list, 0) && AllActive(hs, list[..0])
  {
  }

  /** A controller that has its turn and has not been attempted is as before; without contention, that is
      every one that has its turn. */
  lemma NextIsUntouched(before: seq<Holder>, hs: seq<Holder>, list: seq<Name>, n: nat, k: nat)
    requires n < |list| && AllAttempted(before, hs, list, n) && k < |hs| && hs[k].c.name == list[n]
    ensures list[n] !in list[..n] ==> hs[k] == before[k]
    ensures hs[k].c.name == before[k].c.name ==> AllOrNothing(hs[k])
  {
  }

  lemma NextIsNew(before: seq<Holder>, list: seq<Name>, n: nat, k: nat)
    requires n < |list| && NoContention(before, list)
    ensures list[n] !in list[..n]
  {
  }

  /** Without contention the next controller finds all its command interfaces free. */
  lemma NewcomerIsFree(before: seq<Holder>, hs: seq<Holder>, list: seq<Name>, n: nat, k: nat, claimed: set<Interface>)
    requires LoansMatch(hs, [], claimed) && NoContention(before, list) && n < |list| && k < |hs| == |before|
    requires hs[k].c.name == list[n] && HolderNames(hs) == HolderNames(before)
    requires forall i :: 0 <= i < |hs| ==> Attempted(before[i], hs[i], list)
    requires forall i :: 0 <= i < |hs| && hs[i].c.name !in list[..n] ==> hs[i] == before[i]
    ensures NewlyClaimed(hs[k].c.commands, claimed)
  {
    assert forall i :: 0 <= i < |hs| ==> HolderNames(hs)[i] == hs[i].c.name && HolderNames(before)[i] == before[i].c.name;
    assert list[n] !in list[..n];
    assert hs[k] == before[k] && hs[k].loans == [];
    forall c | c in claimed
      ensures c !in hs[k].c.commands
    {
      var j :| 0 <= j < |hs| && c in hs[j].loans;
      assert j != k && hs[j].c.state == Active && c in before[j].c.commands;
      assert !Share(before[k].c, before[j].c);
    }
  }

  lemma UniqueHolders(hs: seq<Holder>, k: nat)
    requires Unique(HolderNames(hs)) && k < |hs|
    ensures forall i :: 0 <= i < |hs| && i != k ==> hs[i].c.name != hs[k].c.name
  {
    assert forall i :: 0 <= i < |hs| ==> hs[i].c.name == HolderNames(hs)[i];
  }

  /** Everything but the lifecycle state, the chained mode and the loans is the same, and only an
      inactive or active controller changes its state. */
  predicate SameController(a: Holder, b: Holder) {
    a == b.(c := a.c, loans := a.loans) && OnlySwitched(b.c, a.c)
  }

  /** What deactivating a list does to one controller. */
  predicate Deactivated(before: Holder, after: Holder, list: seq<Name>, stuck: set<Name>, plugins: Plugins) {
    if before.c.name in list && before.c.state == Active then
      && after.loans == [] && SameController(after, before) && (after.c.state == Active <==> before.c.name in stuck)
      && (before.c.name in plugins.willing && before.c.name !in stuck ==> after.c.state == Inactive)
      && (if before.c.name in stuck then after.c.chained == before.c.chained else Asked(before.c, after.c, false, plugins))
    else after == before
  }

  /** A reference, or a state, that a chainable active controller of the list exports. */
  ghost predicate StoppedExport(hs: seq<Holder>, list: seq<Name>, x: Interface) {
    exists i :: 0 <= i < |hs| && Stopping(hs[i], list) && hs[i].c.chainable && x in hs[i].references
  }

  ghost predicate StoppedState(hs: seq<Holder>, list: seq<Name>, x: Interface) {
    exists i :: 0 <= i < |hs| && Stopping(hs[i], list) && hs[i].c.chainable && x in hs[i].exported
  }

  predicate Stopping(h: Holder, list: seq<Name>) {
    h.c.state == Active && h.c.name in list
  }

  lemma NobodyStopped(hs: seq<Holder>)
    ensures forall x :: !StoppedExport(hs, [], x) && !StoppedState(hs, [], x)
  {
  }

  /** The exports that one more deactivation takes away; a second one of the same controller finds it stopped,
      and one of a stuck controller takes them away again. */
  lemma StoppedOneMore(before: seq<Holder>, mid: seq<Holder>, list: seq<Name>, n: nat, k: nat, stuck: set<Name>, plugins: Plugins)
    requires n < |list| && |before| == |mid| && k == FindHolder(mid, list[n])
    requires HolderNames(before) == HolderNames(mid) && Unique(HolderNames(mid))
    requires forall i :: 0 <= i < |mid| ==> Deactivated(before[i], mid[i], list[..n], stuck, plugins)
    ensures var stops := k < |mid| && mid[k].c.state == Active && mid[k].c.chainable;
            && (forall x :: StoppedExport(before, list[..n + 1], x)
                            <==> StoppedExport(before, list[..n], x) || (stops && x in mid[k].references))
            && (forall x :: StoppedState(before, list[..n + 1], x)
                            <==> StoppedState(before, list[..n], x) || (stops && x in mid[k].exported))
  {
    assert list[..n + 1] == list[..n] + [list[n]];
    forall i | 0 <= i < |mid|
      ensures Stopping(before[i], list[..n + 1])
              <==> Stopping(before[i], list[..n]) || (i == k && before[i].c.state == Active)
      ensures i == k && mid[i].c.state == Active ==> before[i].c.state == Active
      ensures i == k && before[i].c.state == Active && mid[i].c.state != Active ==> Stopping(before[i], list[..n])
      ensures mid[i].references == before[i].references && mid[i].exported == before[i].exported && mid[i].c.chainable == before[i].c.chainable
    {
      assert HolderNames(mid)[i] == mid[i].c.name && HolderNames(before)[i] == before[i].c.name;
      assert Deactivated(before[i], mid[i], list[..n], stuck, plugins);
      if i != k {
        UniqueNot(mid, list[n], i);
      }
    }
  }

  /** A reference, or a state, that a chainable controller of the list exports. */
  ghost predicate StartedExport(hs: seq<Holder>, list: seq<Name>, x: Interface) {
    exists i :: 0 <= i < |hs| && hs[i].c.name in list && hs[i].c.chainable && x in hs[i].references
  }

  ghost predicate StartedState(hs: seq<Holder>, list: seq<Name>, x: Interface) {
    exists i :: 0 <= i < |hs| && hs[i].c.name in list && hs[i].c.chainable && x in hs[i].exported
  }

  lemma NobodyStarted(hs: seq<Holder>)
    ensures forall x :: !StartedExport(hs, [], x) && !StartedState(hs, [], x)
  {
  }

  lemma StartedOneMore(hs: seq<Holder>, list: seq<Name>, n: nat)
    requires n < |list| && Unique(HolderNames(hs))
    ensures var k := FindHolder(hs, list[n]);
            var starts := k < |hs| && hs[k].c.chainable;
            && (forall x :: StartedExport(hs, list[..n + 1], x) <==> StartedExport(hs, list[..n], x) || (starts && x in hs[k].references))
            && (forall x :: StartedState(hs, list[..n + 1], x) <==> StartedState(hs, list[..n], x) || (starts && x in hs[k].exported))
  {
    assert list[..n + 1] == list[..n] + [list[n]];
    var k := FindHolder(hs, list[n]);
    forall i | 0 <= i < |hs|
      ensures hs[i].c.name in list[..n + 1] <==> hs[i].c.name in list[..n] || i == k
    {
      if i != k {
        UniqueNot(hs, list[n], i);
      }
    }
  }

  /** A willing inactive controller whose interfaces are available. */
  ghost predicate Claimable(h: Holder, available: set<Interface>, availableStates: set<Interface>, plugins: Plugins) {
    && h.c.state == Inactive && h.c.name in plugins.willing
    && (forall x :: x in h.c.commands ==> x in available) && (forall x :: x in h.c.states ==> x in availableStates)
  }

  ghost predicate AllClaimable(hs: seq<Holder>, list: seq<Name>, available: set<Interface>, availableStates: set<Interface>,
                               plugins: Plugins) {
    forall i :: 0 <= i < |hs| && hs[i].c.name in list ==> Claimable(hs[i], available, availableStates, plugins)
  }

  /** All that the listed controllers export is available. */
  ghost predicate Offered(hs: seq<Holder>, list: seq<Name>, available: set<Interface>, availableStates: set<Interface>) {
    forall i :: 0 <= i < |hs| && hs[i].c.name in list && hs[i].c.chainable ==>
      Elements(hs[i].references) <= available && Elements(hs[i].exported) <= availableStates
  }

  /** Every listed controller is willing and inactive, and its interfaces are available, or exported by a
      listed one. */
  ghost predicate Startable(hs: seq<Holder>, list: seq<Name>, available: set<Interface>, availableStates: set<Interface>,
                            plugins: Plugins) {
    forall i :: 0 <= i < |hs| && hs[i].c.name in list ==>
      && hs[i].c.state == Inactive && hs[i].c.name in plugins.willing
      && (forall x :: x in hs[i].c.commands ==> x in available || StartedExport(hs, list, x))
      && (forall x :: x in hs[i].c.states ==> x in availableStates || StartedState(hs, list, x))
  }

  lemma StartedIsOffered(hs: seq<Holder>, list: seq<Name>, available: set<Interface>, availableStates: set<Interface>)
    requires forall x :: StartedExport(hs, list, x) ==> x in available
    requires forall x :: StartedState(hs, list, x) ==> x in availableStates
    ensures Offered(hs, list, available, availableStates)
  {
    forall i | 0 <= i < |hs| && hs[i].c.name in list && hs[i].c.chainable
      ensures Elements(hs[i].references) <= available && Elements(hs[i].exported) <= availableStates
    {
      assert forall x :: x in hs[i].references ==> StartedExport(hs, list, x);
      assert forall x :: x in hs[i].exported ==> StartedState(hs, list, x);
    }
  }

  lemma StartableIsClaimable(hs: seq<Holder>, list: seq<Name>, available: set<Interface>, availableStates: set<Interface>,
                             available': set<Interface>, availableStates': set<Interface>, plugins: Plugins)
    requires Startable(hs, list, available, availableStates, plugins)
    requires forall x :: x in available || StartedExport(hs, list, x) ==> x in available'
    requires forall x :: x in availableStates || StartedState(hs, list, x) ==> x in availableStates'
    ensures AllClaimable(hs, list, available', availableStates', plugins)
  {
    hide StartedExport;
    hide StartedState;
  }

  lemma SameHolder(before: seq<Holder>, hs: seq<Holder>, list: seq<Name>, k: nat)
    requires HolderNames(before) == HolderNames(hs) && k < |hs| == |before|
    requires Attempted(before[k], hs[k], list)
    ensures hs[k].c.name == before[k].c.name && hs[k].references == before[k].references && hs[k].exported == before[k].exported
    ensures hs[k].c.chainable == before[k].c.chainable && hs[k].c.commands == before[k].c.commands && hs[k].c.states == before[k].c.states
  {
    assert HolderNames(before)[k] == before[k].c.name && HolderNames(hs)[k] == hs[k].c.name;
  }

  ghost predicate AllActive(hs: seq<Holder>, list: seq<Name>) {
    forall i :: 0 <= i < |hs| && hs[i].c.name in list ==> hs[i].c.state == Active
  }

  /** One step of the activation loop. */
  lemma AttemptedOneMore(before: seq<Holder>, mid: seq<Holder>, after: seq<Holder>, list: seq<Name>, n: nat, k: nat)
    requires n < |list| && |before| == |mid| == |after| && k == FindHolder(mid, list[n])
    requires HolderNames(before) == HolderNames(mid) == HolderNames(after) && Unique(HolderNames(mid))
    requires AllAttempted(before, mid, list, n)
    requires forall i :: 0 <= i < |mid| && i != k ==> after[i] == mid[i]
    requires k < |mid| ==> AllOrNothing(after[k]) && SameController(after[k], mid[k]) && after[k].c.chained == mid[k].c.chained
    ensures AllAttempted(before, after, list, n + 1)
    ensures AllActive(mid, list[..n]) && (k < |mid| ==> after[k].c.state == Active) ==> AllActive(after, list[..n + 1])
  {
    assert list[..n + 1] == list[..n] + [list[n]];
    forall i | 0 <= i < |after|
      ensures after[i].c.name == mid[i].c.name == before[i].c.name && (i != k ==> mid[i].c.name != list[n])
    {
      assert HolderNames(mid)[i] == mid[i].c.name && HolderNames(before)[i] == before[i].c.name;
      assert HolderNames(after)[i] == after[i].c.name;
      if i != k {
        UniqueNot(mid, list[n], i);
      }
    }
  }

  /** One step of the deactivation loop. */
  lemma DeactivatedOneMore(before: seq<Holder>, mid: seq<Holder>, after: seq<Holder>, list: seq<Name>, n: nat, k: nat,
                           stuck: set<Name>, plugins: Plugins)
    requires n < |list| && |before| == |mid| == |after| && k == FindHolder(mid, list[n])
    requires HolderNames(before) == HolderNames(mid) == HolderNames(after) && Unique(HolderNames(mid))
    requires forall i :: 0 <= i < |mid| ==> Deactivated(before[i], mid[i], list[..n], stuck, plugins)
    requires forall i :: 0 <= i < |mid| && i != k ==> after[i] == mid[i]
    requires k < |mid| ==> if mid[k].c.state == Active then Deactivated(mid[k], after[k], [list[n]], stuck, plugins) else after[k] == mid[k]
    ensures forall i :: 0 <= i < |after| ==> Deactivated(before[i], after[i], list[..n + 1], stuck, plugins)
  {
    assert list[..n + 1] == list[..n] + [list[n]];
    forall i | 0 <= i < |after|
      ensures Deactivated(before[i], after[i], list[..n + 1], stuck, plugins)
    {
      assert HolderNames(mid)[i] == mid[i].c.name && HolderNames(before)[i] == before[i].c.name;
      if i != k {
        UniqueNot(mid, list[n], i);
      }
    }
  }

  lemma UniqueNot(hs: seq<Holder>, name: Name, i: nat)
    requires Unique(HolderNames(hs)) && i < |hs| && i != FindHolder(hs, name)
    ensures hs[i].c.name != name
  {
    assert HolderNames(hs)[i] == hs[i].c.name;
    if FindHolder(hs, name) < |hs| {
      UniqueHolders(hs, FindHolder(hs, name));
    }
  }

  lemma StartsUndeactivated(hs: seq<Holder>, stuck: set<Name>, plugins: Plugins)
    ensures forall i :: 0 <= i < |hs| ==> Deactivated(hs[i], hs[i], [], stuck, plugins)
  {
  }

  /** Flags and loans do not depend on anything else. */
  lemma SameLoansMatch(hs: seq<Holder>, hs': seq<Holder>, pending: seq<Interface>, claimed: set<Interface>)
    requires LoansMatch(hs, pending, claimed) && |hs'| == |hs|
    requires forall i :: 0 <= i < |hs| ==> hs'[i].c.name == hs[i].c.name && hs'[i].loans == hs[i].loans
    ensures LoansMatch(hs', pending, claimed)
  {
    assert HolderNames(hs') == HolderNames(hs);
    forall k | k in claimed
      ensures k in pending || exists i :: 0 <= i < |hs'| && k in hs'[i].loans
    {
      if k !in pending {
        var i :| 0 <= i < |hs| && k in hs[i].loans;
        assert k in hs'[i].loans;
      }
    }
  }

  /** A controller whose interfaces have just been claimed anew held none of them. */
  lemma NoLoansYet(hs: seq<Holder>, k: nat, claimed: set<Interface>)
    requires k < |hs| && AllOrNothing(hs[k]) && LoansMatch(hs, hs[k].c.commands, claimed)
    ensures hs[k].loans == []
  {
    NothingInside(hs[k].loans);
  }

  lemma NothingInside(s: seq<Interface>)
    ensures s == [] || s[0] in s
  {
  }

  lemma LoansReleased(hs: seq<Holder>, k: nat, after: LifecycleState, before: set<Interface>, claimed: set<Interface>)
    requires k < |hs| && LoansMatch(hs, [], before) && claimed == before - Elements(hs[k].loans)
    ensures LoansMatch(hs[k := hs[k].(c := hs[k].c.(state := after), loans := [])], [], claimed)
  {
    assert before == claimed + Elements(hs[k].loans);
    LoansGone(hs, k, after, claimed);
  }

  lemma LoansGone(hs: seq<Holder>, k: nat, after: LifecycleState, claimed: set<Interface>)
    requires k < |hs| && LoansMatch(hs, [], claimed + Elements(hs[k].loans)) && claimed !! Elements(hs[k].loans)
    ensures LoansMatch(hs[k := hs[k].(c := hs[k].c.(state := after), loans := [])], [], claimed)
  {
    var hs' := hs[k := hs[k].(c := hs[k].c.(state := after), loans := [])];
    assert HolderNames(hs') == HolderNames(hs);
    forall i, key | 0 <= i < |hs'| && key in hs'[i].loans
      ensures key in claimed
    {
      assert i != k && key in hs[i].loans && key !in hs[k].loans;
    }
    forall key | key in claimed
      ensures exists i :: 0 <= i < |hs'| && key in hs'[i].loans
    {
      var i :| 0 <= i < |hs| && key in hs[i].loans;
      assert i != k && hs'[i] == hs[i];
    }
  }

  lemma LoansAssigned(hs: seq<Holder>, k: nat, loans: seq<Interface>, claimed: set<Interface>)
    requires k < |hs| && LoansMatch(hs, loans, claimed) && hs[k].loans == []
    ensures LoansMatch(hs[k := hs[k].(c := hs[k].c.(state := Active), loans := loans)], [], claimed)
  {
    var hs' := hs[k := hs[k].(c := hs[k].c.(state := Active), loans := loans)];
    assert HolderNames(hs') == HolderNames(hs);
    assert forall i :: 0 <= i < |hs| && i != k ==> hs'[i] == hs[i];
    forall key | key in claimed
      ensures exists i :: 0 <= i < |hs'| && key in hs'[i].loans
    {
      if key in loans {
        assert key in hs'[k].loans;
      } else {
        var i :| 0 <= i < |hs| && key in hs[i].loans;
        assert hs'[i] == hs[i];
      }
    }
  }

  /** From a consistent state, a whole list of grants keeps flags and loans in step exactly when every
      interface is granted once and was free. */
  lemma GrantsKeepLoansIff(hs: seq<Holder>, keys: seq<Interface>, claimed: set<Interface>)
    requires LoansMatch(hs, [], claimed)
    ensures LoansMatch(hs, keys, claimed + Elements(keys)) <==> NewlyClaimed(keys, claimed)
  {
    if LoansMatch(hs, keys, claimed + Elements(keys)) {
      forall c | c in claimed
        ensures c !in keys
      {
        HeldIsNotPending(hs, keys, claimed, c);
      }
    }
  }

  lemma HeldIsNotPending(hs: seq<Holder>, keys: seq<Interface>, claimed: set<Interface>, c: Interface)
    requires LoansMatch(hs, [], claimed) && LoansMatch(hs, keys, claimed + Elements(keys)) && c in claimed
    ensures c !in keys
  {
    var i :| 0 <= i < |hs| && c in hs[i].loans;
  }

  lemma NewlyClaimedPrefix(keys: seq<Interface>, n: nat, claimed: set<Interface>)
    requires n <= |keys| && NewlyClaimed(keys, claimed)
    ensures NewlyClaimed(keys[..n], claimed)
  {
  }

  lemma NewlyClaimedOneMore(keys: seq<Interface>, key: Interface, claimed: set<Interface>)
    ensures NewlyClaimed(keys + [key], claimed) <==> NewlyClaimed(keys, claimed) && key !in claimed + Elements(keys)
  {
    if NewlyClaimed(keys + [key], claimed) {
      assert forall i :: 0 <= i < |keys| ==> (keys + [key])[i] == keys[i];
      assert (keys + [key])[|keys|] == key;
    }
  }

  /** Granting a claim keeps the flags and the loans in step exactly when the interface was free; a
      second grant, after which the first release frees the interface for everybody, does not. */
  lemma GrantKeepsLoansIff(hs: seq<Holder>, pending: seq<Interface>, claimed: set<Interface>, key: Interface)
    requires LoansMatch(hs, pending, claimed)
    ensures LoansMatch(hs, pending + [key], claimed + {key}) <==> key !in claimed
  {
    if key in claimed {
      if key in pending {
        var i :| 0 <= i < |pending| && pending[i] == key;
        assert (pending + [key])[i] == (pending + [key])[|pending|];
      } else {
        var i :| 0 <= i < |hs| && key in hs[i].loans;
        assert key in pending + [key];
      }
    }
  }

  /** Giving back the pending loans leaves the flags exact. */
  lemma GiveBack(hs: seq<Holder>, pending: seq<Interface>, claimed: set<Interface>)
    requires LoansMatch(hs, pending, claimed)
    ensures LoansMatch(hs, [], claimed - Elements(pending))
  {
  }

  /** An interface that is held, and that is unavailable when it is asked about, available again when
      the claim starts, and lost before the claim asks once more: it is taken, and both controllers end
      up holding it. In no other interleaving is it. */
  lemma GrantedTwice(first: set<Interface>, second: set<Interface>, third: set<Interface>)
    ensures var key := Interface(Name("filter"), "goal");
            var pilot := Holder(Controller(Name("pilot"), Active, false, false, [key], [], []), [key], [], []);
            var rival := Holder(Controller(Name("rival"), Inactive, false, false, [key], [], []), [], [], []);
            var both := [pilot, rival.(c := rival.c.(state := Active), loans := [key])];
            && LoansMatch([pilot, rival], [], {key}) && Takes(key, {}, {key}, {}, {key})
            && (Takes(key, first, second, third, {key}) <==> key !in first && key in second && key !in third)
            && !LoansMatch([pilot, rival], [key], {key})
            && AllOrNothing(both[0]) && AllOrNothing(both[1]) && !LoansMatch(both, [], {key})
  {
    var key := Interface(Name("filter"), "goal");
    var pilot := Holder(Controller(Name("pilot"), Active, false, false, [key], [], []), [key], [], []);
    var rival := Holder(Controller(Name("rival"), Inactive, false, false, [key], [], []), [], [], []);
    var both := [pilot, rival.(c := rival.c.(state := Active), loans := [key])];
    assert HolderNames([pilot, rival]) == [Name("pilot"), Name("rival")];
    assert key in [pilot, rival][0].loans;
    assert key in both[0].loans && key in both[1].loans;
  }
}
