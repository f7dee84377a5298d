/** Planning a STRICT controller switch: the request is checked against the chains, extended with the
    restarts that a change of chained mode needs, and checked against the command interfaces
    (controller_manager.cpp, switch_controller_cb and the checks it calls). */
module SwitchPlan {
  import opened Names
  import opened Controllers
  import opened ChainBookkeeping

  // ---------------------------------------------------------------------------------------
  // What the checks decide
  // ---------------------------------------------------------------------------------------

  /** The chain relation has no cycle: `rank` falls from every user to the owners it depends on. */
  ghost predicate Acyclic(cs: seq<Controller>, rank: Name -> nat) {
    forall i, j :: 0 <= i < |cs| && 0 <= j < |cs| && DependsOn(cs[i], cs[j].name) ==> rank(cs[j].name) < rank(cs[i].name)
  }

  /** A following controller is chainable, and it stays active or will be activated. */
  predicate EdgeOk(c: Controller, activate: seq<Name>, deactivate: seq<Name>) {
    c.chainable && if c.state == Active then c.name !in deactivate else c.name in activate
  }

  /** The recursive check of all direct and indirect following controllers. */
  ghost predicate FollowingOk(cs: seq<Controller>, activate: seq<Name>, deactivate: seq<Name>, k: nat, rank: Name -> nat)
    requires k < |cs| && Acyclic(cs, rank)
    decreases rank(cs[k].name)
  {
    forall j {:trigger cs[j].name} :: 0 <= j < |cs| && DependsOn(cs[k], cs[j].name)
         ==> EdgeOk(cs[j], activate, deactivate) && FollowingOk(cs, activate, deactivate, j, rank)
  }

  /** A controller that is listed for activation may be activated. */
  ghost predicate ActivationOk(cs: seq<Controller>, activate: seq<Name>, deactivate: seq<Name>, k: nat, rank: Name -> nat)
    requires k < |cs| && Acyclic(cs, rank)
  {
    match cs[k].state
    case Unconfigured => false
    case Finalized => false
    case Active => cs[k].name in deactivate
    case Inactive => FollowingOk(cs, activate, deactivate, k, rank)
  }

  /** One cached preceding controller neither stays active nor becomes active. */
  predicate UserOk(cs: seq<Controller>, activate: seq<Name>, deactivate: seq<Name>, user: Name) {
    var k := Find(cs, user);
    k < |cs| ==> !(cs[k].state == Inactive && user in activate) && !(cs[k].state == Active && user !in deactivate)
  }

  /** check_preceding_controllers_for_deactivate: a controller that is not chainable is not checked. */
  predicate PrecedingOk(cs: seq<Controller>, activate: seq<Name>, deactivate: seq<Name>, c: Controller,
                        reference: Cache, state: Cache) {
    c.chainable ==> forall p :: p in Entry(state, c.name) + Entry(reference, c.name) ==> UserOk(cs, activate, deactivate, p)
  }

  /** A STRICT request that passes all chain checks. `rejected` are the controllers whose fallback
      controllers are not in order. */
  ghost predicate Admissible(cs: seq<Controller>, activate: seq<Name>, deactivate: seq<Name>,
                             reference: Cache, state: Cache, rejected: set<Name>, rank: Name -> nat)
    requires Acyclic(cs, rank)
  {
    && (forall n :: n in activate ==> Activatable(cs, activate, deactivate, n, rejected, rank))
    && (forall n :: n in deactivate ==> Deactivatable(cs, activate, deactivate, n, reference, state))
  }

  ghost predicate Activatable(cs: seq<Controller>, activate: seq<Name>, deactivate: seq<Name>, n: Name,
                              rejected: set<Name>, rank: Name -> nat)
    requires Acyclic(cs, rank)
  {
    Loaded(cs, n) && n !in rejected && ActivationOk(cs, activate, deactivate, Find(cs, n), rank)
  }

  ghost predicate Deactivatable(cs: seq<Controller>, activate: seq<Name>, deactivate: seq<Name>, n: Name,
                                reference: Cache, state: Cache) {
    && Loaded(cs, n) && cs[Find(cs, n)].state == Active
    && PrecedingOk(cs, activate, deactivate, cs[Find(cs, n)], reference, state)
  }

  // ---------------------------------------------------------------------------------------
  // What an accepted plan keeps
  // ---------------------------------------------------------------------------------------

  ghost function ActiveNames(cs: seq<Controller>): set<Name> {
    set i | 0 <= i < |cs| && cs[i].state == Active :: cs[i].name
  }

  /** The controllers that are active after the plan: active minus deactivated plus activated. */
  ghost function Target(cs: seq<Controller>, activate: seq<Name>, deactivate: seq<Name>): set<Name> {
    (ActiveNames(cs) - Elements(deactivate)) + Elements(activate)
  }

  /** With each member the set contains every loaded controller that the member depends on. */
  ghost predicate ChainClosed(cs: seq<Controller>, s: set<Name>) {
    forall i, j :: 0 <= i < |cs| && 0 <= j < |cs| && cs[i].name in s && DependsOn(cs[i], cs[j].name) ==> cs[j].name in s
  }

  /** The controllers that members depend on are chainable. */
  ghost predicate OwnersChainable(cs: seq<Controller>, s: set<Name>) {
    forall i, j :: 0 <= i < |cs| && 0 <= j < |cs| && cs[i].name in s && DependsOn(cs[i], cs[j].name) ==> cs[j].chainable
  }

  /** Controllers that change their chained mode while they are active, and are not deactivated
      anyway, in list order. */
  function Restarts(cs: seq<Controller>, changing: seq<Name>, deactivate: seq<Name>): (r: seq<Name>)
    ensures forall n :: n in r ==> n in changing && n !in deactivate
    ensures forall n :: n in r ==> exists i :: 0 <= i < |cs| && cs[i].name == n && cs[i].state == Active
  {
    if cs == [] then []
    else
      var last := cs[|cs| - 1];
      Restarts(cs[..|cs| - 1], changing, deactivate) + (if Restarted(last, changing, deactivate) then [last.name] else [])
  }

  predicate Restarted(c: Controller, changing: seq<Name>, deactivate: seq<Name>) {
    c.name in changing && c.state == Active && c.name !in deactivate
  }

  /** A request that strands the user `i`: its owner `j` is deactivated for good, while `i` is itself
      only restarted, or stays active and is not looked at because `j` is not chainable. */
  ghost predicate Strands(cs: seq<Controller>, activate: seq<Name>, deactivate: seq<Name>, i: nat, j: nat)
    requires i < |cs| && j < |cs|
  {
    && DependsOn(cs[i], cs[j].name)
    && cs[j].name in deactivate && cs[j].name !in activate
    && ((cs[i].name in activate && cs[i].name in deactivate)
        || (cs[i].state == Active && cs[i].name !in deactivate && !cs[j].chainable))
  }

  lemma {:induction false} InRestarts(cs: seq<Controller>, changing: seq<Name>, deactivate: seq<Name>, n: Name)
    ensures n in Restarts(cs, changing, deactivate)
            <==> exists i :: 0 <= i < |cs| && cs[i].name == n && Restarted(cs[i], changing, deactivate)
  {
    if cs != [] {
      var last := |cs| - 1;
      InRestarts(cs[..last], changing, deactivate, n);
      if i :| 0 <= i < |cs| && cs[i].name == n && Restarted(cs[i], changing, deactivate) {
        assert i < last ==> cs[..last][i] == cs[i];
      }
    }
  }

  /** Restarts do not change what is active in the end. */
  lemma RestartsKeepTarget(cs: seq<Controller>, activate: seq<Name>, deactivate: seq<Name>, changing: seq<Name>)
    ensures var r := Restarts(cs, changing, deactivate);
            Target(cs, activate + r, deactivate + r) == Target(cs, activate, deactivate)
  {
    var r := Restarts(cs, changing, deactivate);
    forall n | n in r
      ensures n in ActiveNames(cs) && n !in deactivate
    {
    }
  }

  /** STRICT plans and chains: from an active set that is closed under chain dependencies, an accepted
      request leads to a closed one exactly when it strands nobody. */
  lemma AcceptedPlanClosedIff(cs: seq<Controller>, activate: seq<Name>, deactivate: seq<Name>, changing: seq<Name>,
                              reference: Cache, state: Cache, rejected: set<Name>, rank: Name -> nat)
    requires UniqueNames(cs) && Acyclic(cs, rank) && Covers(cs, reference, state)
    requires ChainClosed(cs, ActiveNames(cs))
    requires Admissible(cs, activate, deactivate, reference, state, rejected, rank)
    ensures var r := Restarts(cs, changing, deactivate);
            ChainClosed(cs, Target(cs, activate + r, deactivate + r))
            <==> (forall i, j :: 0 <= i < |cs| && 0 <= j < |cs| ==> !Strands(cs, activate, deactivate, i, j))
  {
    hide Covers;
    hide Admissible;
    hide ChainClosed;
    hide Acyclic;
    hide UniqueNames;
    RestartsKeepTarget(cs, activate, deactivate, changing);
    forall i, j | 0 <= i < |cs| && 0 <= j < |cs|
      ensures Missed(cs, Target(cs, activate, deactivate), i, j) <==> Strands(cs, activate, deactivate, i, j)
    {
      if DependsOn(cs[i], cs[j].name) {
        DependencyKeptUnlessStranded(cs, activate, deactivate, reference, state, rejected, rank, i, j);
      }
    }
    ClosedIffNoneMissed(cs, Target(cs, activate, deactivate));
  }

  /** `i` is in the set and depends on `j`, which is not. */
  ghost predicate Missed(cs: seq<Controller>, s: set<Name>, i: nat, j: nat)
    requires i < |cs| && j < |cs|
  {
    DependsOn(cs[i], cs[j].name) && cs[i].name in s && cs[j].name !in s
  }

  lemma ClosedIffNoneMissed(cs: seq<Controller>, s: set<Name>)
    ensures ChainClosed(cs, s) <==> forall i, j :: 0 <= i < |cs| && 0 <= j < |cs| ==> !Missed(cs, s, i, j)
  {
    if forall i, j :: 0 <= i < |cs| && 0 <= j < |cs| ==> !Missed(cs, s, i, j) {
      forall i, j | 0 <= i < |cs| && 0 <= j < |cs| && cs[i].name in s && DependsOn(cs[i], cs[j].name)
        ensures cs[j].name in s
      {
        assert !Missed(cs, s, i, j);
      }
    }
  }

  lemma DependencyKeptUnlessStranded(cs: seq<Controller>, activate: seq<Name>, deactivate: seq<Name>,
                                     reference: Cache, state: Cache, rejected: set<Name>, rank: Name -> nat, i: nat, j: nat)
    requires UniqueNames(cs) && Acyclic(cs, rank) && Covers(cs, reference, state)
    requires ChainClosed(cs, ActiveNames(cs))
    requires Admissible(cs, activate, deactivate, reference, state, rejected, rank)
    requires i < |cs| && j < |cs| && DependsOn(cs[i], cs[j].name)
    ensures (cs[i].name in Target(cs, activate, deactivate) && cs[j].name !in Target(cs, activate, deactivate))
            <==> Strands(cs, activate, deactivate, i, j)
  {
    FindUnique(cs, i);
    FindUnique(cs, j);
    ActiveByIndex(cs, i);
    ActiveByIndex(cs, j);
    var user, owner := cs[i], cs[j];
    if user.state == Active {
      assert owner.name in ActiveNames(cs);
      if owner.name in deactivate && owner.chainable {
        UsersGoToo(cs, activate, deactivate, reference, state, i, j);
      }
    } else if user.name in activate {
      assert EdgeOk(owner, activate, deactivate);
    }
  }

  /** A chainable owner is deactivated only together with all its active users. */
  lemma UsersGoToo(cs: seq<Controller>, activate: seq<Name>, deactivate: seq<Name>, reference: Cache, state: Cache,
                   i: nat, j: nat)
    requires UniqueNames(cs) && Covers(cs, reference, state)
    requires i < |cs| && j < |cs| && DependsOn(cs[i], cs[j].name) && cs[i].state == cs[j].state == Active
    requires cs[j].chainable && PrecedingOk(cs, activate, deactivate, cs[j], reference, state)
    ensures cs[i].name in deactivate
  {
    FindUnique(cs, i);
    assert Covered(cs[i], cs[j].name, reference, state);
    assert cs[i].name in Entry(state, cs[j].name) + Entry(reference, cs[j].name);
    assert UserOk(cs, activate, deactivate, cs[i].name);
  }

  lemma ActiveByIndex(cs: seq<Controller>, i: nat)
    requires UniqueNames(cs) && i < |cs|
    ensures cs[i].name in ActiveNames(cs) <==> cs[i].state == Active
  {
    FindUnique(cs, i);
    if cs[i].name in ActiveNames(cs) {
      var k :| 0 <= k < |cs| && cs[k].state == Active && cs[k].name == cs[i].name;
      FindUnique(cs, k);
    }
  }

  /** With disjoint requests, and owners that are chainable, chains stay whole under every accepted
      STRICT plan. */
  lemma DisjointPlanKeepsChains(cs: seq<Controller>, activate: seq<Name>, deactivate: seq<Name>, changing: seq<Name>,
                                reference: Cache, state: Cache, rejected: set<Name>, rank: Name -> nat)
    requires UniqueNames(cs) && Acyclic(cs, rank) && Covers(cs, reference, state)
    requires ChainClosed(cs, ActiveNames(cs)) && OwnersChainable(cs, ActiveNames(cs))
    requires Admissible(cs, activate, deactivate, reference, state, rejected, rank)
    requires forall n :: n in activate ==> n !in deactivate
    ensures var r := Restarts(cs, changing, deactivate);
            var target := Target(cs, activate + r, deactivate + r);
            ChainClosed(cs, target) && OwnersChainable(cs, target)
  {
    AcceptedPlanClosedIff(cs, activate, deactivate, changing, reference, state, rejected, rank);
    RestartsKeepTarget(cs, activate, deactivate, changing);
    forall i, j | 0 <= i < |cs| && 0 <= j < |cs|
      ensures !Strands(cs, activate, deactivate, i, j)
    {
      ActiveByIndex(cs, i);
    }
    forall i, j | 0 <= i < |cs| && 0 <= j < |cs| && cs[i].name in Target(cs, activate, deactivate) && DependsOn(cs[i], cs[j].name)
      ensures cs[j].chainable
    {
      ActiveByIndex(cs, i);
      FindUnique(cs, i);
    }
  }

  // ---------------------------------------------------------------------------------------
  // The planner
  // ---------------------------------------------------------------------------------------

  function InterfacesOf(c: Controller): seq<Interface> { c.commands + c.states }

  /** The loaded owners, direct and indirect, of one interface of controller `k`; with `commanded`, only
      those that are used through a command interface. */
  ghost function OwnersVia(cs: seq<Controller>, k: nat, p: nat, commanded: bool, rank: Name -> nat): set<Name>
    requires Acyclic(cs, rank) && k < |cs| && p < |InterfacesOf(cs[k])|
    decreases rank(cs[k].name), 0, 0
  {
    var key := InterfacesOf(cs[k])[p];
    if !Loaded(cs, key.owner) then {}
    else
      InterfaceIsDependency(cs[k], InterfacesOf(cs[k]), p);
      (if commanded && key !in cs[k].commands then {} else {key.owner})
      + OwnersBelow(cs, Find(cs, key.owner), commanded, rank)
  }

  /** Those of its first `n` interfaces. */
  ghost function OwnersThrough(cs: seq<Controller>, k: nat, n: nat, commanded: bool, rank: Name -> nat): set<Name>
    requires Acyclic(cs, rank) && k < |cs| && n <= |InterfacesOf(cs[k])|
    decreases rank(cs[k].name), 1, n
  {
    if n == 0 then {}
    else OwnersThrough(cs, k, n - 1, commanded, rank) + OwnersVia(cs, k, n - 1, commanded, rank)
  }

  /** All direct and indirect owners of the controller's interfaces. */
  ghost function OwnersBelow(cs: seq<Controller>, k: nat, commanded: bool, rank: Name -> nat): set<Name>
    requires Acyclic(cs, rank) && k < |cs|
    decreases rank(cs[k].name), 2, 0
  {
    OwnersThrough(cs, k, |InterfacesOf(cs[k])|, commanded, rank)
  }

  /** All direct and indirect owners of those of the first `n` listed controllers that are inactive. */
  ghost function NewOwners(cs: seq<Controller>, list: seq<Name>, n: nat, commanded: bool, rank: Name -> nat): set<Name>
    requires Acyclic(cs, rank) && n <= |list|
  {
    if n == 0 then {}
    else
      var k := Find(cs, list[n - 1]);
      NewOwners(cs, list, n - 1, commanded, rank) + (if k < |cs| then VisitedOwners(cs, k, commanded, rank) else {})
  }

  /** The owners that the checks of one listed controller visit. */
  ghost function VisitedOwners(cs: seq<Controller>, k: nat, commanded: bool, rank: Name -> nat): set<Name>
    requires Acyclic(cs, rank) && k < |cs|
  {
    if cs[k].state == Inactive then OwnersBelow(cs, k, commanded, rank) else {}
  }

  predicate IsChained(cs: seq<Controller>, n: Name) {
    Loaded(cs, n) && cs[Find(cs, n)].chained
  }

  /** The chained-mode requests and the exposed interfaces. */
  datatype Modes = Modes(to: seq<Name>, from: seq<Name>, states: set<Name>, references: set<Name>)

  ghost predicate UniqueModes(m: Modes) { Unique(m.to) && Unique(m.from) }

  /** What visiting the owners `all`, those in `commanded` through a command interface, makes of the
      requests: commanded owners that are not in chained mode are to enter it and export their
      references, all owners that are not export their states, and owners that are stay in it. */
  ghost predicate ModesAfter(cs: seq<Controller>, all: set<Name>, commanded: set<Name>, m: Modes, m': Modes) {
    && commanded <= all
    && (forall n :: n in m'.to <==> n in m.to || (n in commanded && !IsChained(cs, n)))
    && (forall n :: n in m'.from <==> n in m.from && !(n in all && IsChained(cs, n)))
    && (forall n :: n in m'.states <==> n in m.states || (n in all && n !in m.to && !IsChained(cs, n)))
    && (forall n :: n in m'.references <==> n in m.references || (n in commanded && n !in m.to && !IsChained(cs, n)))
  }

  lemma ModesCompose(cs: seq<Controller>, all: set<Name>, commanded: set<Name>, more: set<Name>, moreCommanded: set<Name>,
                     m: Modes, m': Modes, m'': Modes)
    requires ModesAfter(cs, all, commanded, m, m') && ModesAfter(cs, more, moreCommanded, m', m'')
    ensures ModesAfter(cs, all + more, commanded + moreCommanded, m, m'')
  {
  }

  lemma ModesUnchanged(cs: seq<Controller>, m: Modes)
    ensures ModesAfter(cs, {}, {}, m, m)
  {
  }

  /** The owners below newly activated controllers that are not in chained mode: their exported states
      become available while the request is checked and, if they are `commanded`, their references. */
  ghost function Unchained(cs: seq<Controller>, activate: seq<Name>, commanded: bool, rank: Name -> nat): set<Name>
    requires Acyclic(cs, rank)
  {
    set n | n in NewOwners(cs, activate, |activate|, commanded, rank) && !IsChained(cs, n)
  }

  /** All interfaces of the given controllers. */
  function Exposed(names: set<Name>, interfaces: Name -> set<Interface>): set<Interface> {
    set n, k | n in names && k in interfaces(n) :: k
  }

  /** The owner of a command interface of a newly activated controller, or of an owner below it, enters
      chained mode unless it is in it. */
  ghost predicate EntersChainedMode(cs: seq<Controller>, activate: seq<Name>, rank: Name -> nat, n: Name)
    requires Acyclic(cs, rank)
  {
    n in NewOwners(cs, activate, |activate|, true, rank) && !IsChained(cs, n)
  }

  /** An owner that a deactivated controller uses leaves chained mode, unless it is in it and an owner
      below a newly activated controller. */
  ghost predicate LeavesChainedMode(cs: seq<Controller>, activate: seq<Name>, deactivate: seq<Name>, rank: Name -> nat, n: Name)
    requires Acyclic(cs, rank)
  {
    && LeftBy(cs, deactivate, n, Reached(cs, deactivate))
    && !(n in NewOwners(cs, activate, |activate|, false, rank) && IsChained(cs, n))
  }

  ghost predicate ChangesMode(cs: seq<Controller>, activate: seq<Name>, deactivate: seq<Name>, rank: Name -> nat, n: Name)
    requires Acyclic(cs, rank)
  {
    EntersChainedMode(cs, activate, rank, n) || LeavesChainedMode(cs, activate, deactivate, rank, n)
  }

  /** What the plan does with a request. */
  datatype Verdict = Refused | NothingToDo | Planned

  class SwitchParams {
    var activateRequest: seq<Name>
    var deactivateRequest: seq<Name>
    var toChainedModeRequest: seq<Name>
    var fromChainedModeRequest: seq<Name>
    var exposedStates: set<Name>
    var exposedReferences: set<Name>

    ghost predicate Empty()
      reads this
    {
      activateRequest == deactivateRequest == toChainedModeRequest == fromChainedModeRequest == []
    }

    /** clear_requests, as far as the request lists are concerned. */
    method ClearRequests()
      modifies `activateRequest, `deactivateRequest, `toChainedModeRequest, `fromChainedModeRequest
      ensures Empty()
    {
      activateRequest, deactivateRequest, toChainedModeRequest, fromChainedModeRequest := [], [], [], [];
    }

    ghost function CurrentModes(): Modes
      reads this
    {
      Modes(toChainedModeRequest, fromChainedModeRequest, exposedStates, exposedReferences)
    }

    /** check_following_controllers_for_activate. */
    method CheckFollowingControllersForActivate(cs: seq<Controller>, k: nat, ghost rank: Name -> nat) returns (ok: bool)
      requires UniqueNames(cs) && Acyclic(cs, rank) && k < |cs| && UniqueModes(CurrentModes())
      modifies `toChainedModeRequest, `fromChainedModeRequest, `exposedStates, `exposedReferences
      ensures UniqueModes(CurrentModes())
      ensures ok <==> FollowingOk(cs, activateRequest, deactivateRequest, k, rank)
      ensures ok ==> ModesAfter(cs, OwnersBelow(cs, k, false, rank), OwnersBelow(cs, k, true, rank),
                                old(CurrentModes()), CurrentModes())
      decreases rank(cs[k].name), 2
    {
      hide ModesAfter;
      hide Acyclic;
      hide FollowingOk;
      hide OwnersVia;
      hide InterfaceOk;
      hide UniqueNames;
      var interfaces := InterfacesOf(cs[k]);
      ModesUnchanged(cs, CurrentModes());
      for i := 0 to |interfaces|
        invariant UniqueModes(CurrentModes())
        invariant forall j :: 0 <= j < i ==> InterfaceOk(cs, activateRequest, deactivateRequest, interfaces[j].owner, rank)
        invariant ModesAfter(cs, OwnersThrough(cs, k, i, false, rank), OwnersThrough(cs, k, i, true, rank),
                             old(CurrentModes()), CurrentModes())
      {
        ghost var before := CurrentModes();
        ok := CheckInterface(cs, k, i, rank);
        if !ok {
          OneBadInterface(cs, activateRequest, deactivateRequest, k, i, rank);
          return false;
        }
        ModesCompose(cs, OwnersThrough(cs, k, i, false, rank), OwnersThrough(cs, k, i, true, rank),
                     OwnersVia(cs, k, i, false, rank), OwnersVia(cs, k, i, true, rank),
                     old(CurrentModes()), before, CurrentModes());
      }
      AllInterfacesOk(cs, activateRequest, deactivateRequest, k, interfaces, rank);
      return true;
    }

    /** The loop body. */
    method CheckInterface(cs: seq<Controller>, k: nat, p: nat, ghost rank: Name -> nat) returns (ok: bool)
      requires UniqueNames(cs) && Acyclic(cs, rank) && k < |cs| && p < |InterfacesOf(cs[k])| && UniqueModes(CurrentModes())
      modifies `toChainedModeRequest, `fromChainedModeRequest, `exposedStates, `exposedReferences
      ensures UniqueModes(CurrentModes())
      ensures ok <==> InterfaceOk(cs, activateRequest, deactivateRequest, InterfacesOf(cs[k])[p].owner, rank)
      ensures ok ==> ModesAfter(cs, OwnersVia(cs, k, p, false, rank), OwnersVia(cs, k, p, true, rank),
                                old(CurrentModes()), CurrentModes())
      decreases rank(cs[k].name), 1
    {
      hide ModesAfter;
      hide FollowingOk;
      hide OwnersVia;
      var key := InterfacesOf(cs[k])[p];
      var owner := Find(cs, key.owner);
      if owner < |cs| {
        InterfaceIsDependency(cs[k], InterfacesOf(cs[k]), p);
        ok := CheckOwner(cs, k, p, owner, key in cs[k].commands, rank);
      } else {
        NoOwner(cs, k, p, rank);
        ModesUnchanged(cs, CurrentModes());
        ok := true;
      }
    }

    /** An interface whose owner is loaded. */
    method CheckOwner(cs: seq<Controller>, ghost k: nat, ghost p: nat, owner: nat, command: bool, ghost rank: Name -> nat)
      returns (ok: bool)
      requires UniqueNames(cs) && Acyclic(cs, rank) && k < |cs| && owner < |cs| && DependsOn(cs[k], cs[owner].name)
      requires p < |InterfacesOf(cs[k])| && InterfacesOf(cs[k])[p].owner == cs[owner].name
      requires command <==> InterfacesOf(cs[k])[p] in cs[k].commands
      requires UniqueModes(CurrentModes())
      modifies `toChainedModeRequest, `fromChainedModeRequest, `exposedStates, `exposedReferences
      ensures UniqueModes(CurrentModes())
      ensures ok <==> EdgeOk(cs[owner], activateRequest, deactivateRequest)
                      && FollowingOk(cs, activateRequest, deactivateRequest, owner, rank)
      ensures ok ==> ModesAfter(cs, OwnersVia(cs, k, p, false, rank), OwnersVia(cs, k, p, true, rank),
                                old(CurrentModes()), CurrentModes())
      decreases rank(cs[k].name), 0
    {
      hide ModesAfter;
      hide FollowingOk;
      hide OwnersThrough;
      var c := cs[owner];
      FindUnique(cs, owner);
      if !c.chainable {
        return false;
      }
      if c.state == Active {
        if c.name in deactivateRequest {
          return false;
        }
      } else if c.name !in activateRequest {
        return false;
      }
      ok := CheckFollowingControllersForActivate(cs, owner, rank);
      if !ok {
        return false;
      }
      ghost var before := CurrentModes();
      RequestMode(cs, owner, command);
      ModesCompose(cs, OwnersBelow(cs, owner, false, rank), OwnersBelow(cs, owner, true, rank),
                   {c.name}, if command then {c.name} else {}, old(CurrentModes()), before, CurrentModes());
      assert OwnersVia(cs, k, p, false, rank) == OwnersBelow(cs, owner, false, rank) + {c.name};
      assert OwnersVia(cs, k, p, true, rank) == OwnersBelow(cs, owner, true, rank) + (if command then {c.name} else {});
    }

    /** The owner itself. */
    method RequestMode(cs: seq<Controller>, owner: nat, command: bool)
      requires UniqueNames(cs) && owner < |cs| && UniqueModes(CurrentModes())
      modifies `toChainedModeRequest, `fromChainedModeRequest, `exposedStates, `exposedReferences
      ensures UniqueModes(CurrentModes())
      ensures ModesAfter(cs, {cs[owner].name}, if command then {cs[owner].name} else {}, old(CurrentModes()), CurrentModes())
    {
      var c := cs[owner];
      FindUnique(cs, owner);
      if !c.chained {
        if c.name !in toChainedModeRequest {
          exposedStates := exposedStates + {c.name};
          if command {
            exposedReferences := exposedReferences + {c.name};
            toChainedModeRequest := toChainedModeRequest + [c.name];
          }
        }
      } else if c.name in fromChainedModeRequest {
        fromChainedModeRequest := RemoveItem(fromChainedModeRequest, c.name);
      }
    }

    /** check_preceding_controllers_for_deactivate. */
    method CheckPrecedingControllersForDeactivate(cs: seq<Controller>, c: Controller, reference: Cache, state: Cache)
      returns (ok: bool)
      ensures ok <==> PrecedingOk(cs, activateRequest, deactivateRequest, c, reference, state)
    {
      if !c.chainable {
        return true;
      }
      var preceding := Entry(state, c.name) + Entry(reference, c.name);
      for i := 0 to |preceding|
        invariant forall j :: 0 <= j < i ==> UserOk(cs, activateRequest, deactivateRequest, preceding[j])
      {
        var k := Find(cs, preceding[i]);
        if k < |cs| {
          if cs[k].state == Inactive && preceding[i] in activateRequest {
            assert !UserOk(cs, activateRequest, deactivateRequest, preceding[i]);
            return false;
          }
          if cs[k].state == Active && preceding[i] !in deactivateRequest {
            assert !UserOk(cs, activateRequest, deactivateRequest, preceding[i]);
            return false;
          }
        }
      }
      return true;
    }

    /** The owners of one controller's interfaces are asked to leave chained mode. */
    method LeaveOwners(cs: seq<Controller>, c: Controller)
      requires Unique(fromChainedModeRequest)
      modifies `fromChainedModeRequest
      ensures Unique(fromChainedModeRequest)
      ensures forall n :: n in fromChainedModeRequest
                <==> n in old(fromChainedModeRequest) || (Loaded(cs, n) && DependsOn(c, n))
    {
      var interfaces := c.commands + c.states;
      for i := 0 to |interfaces|
        invariant Unique(fromChainedModeRequest)
        invariant forall n :: n in old(fromChainedModeRequest) ==> n in fromChainedModeRequest
        invariant forall n :: n in fromChainedModeRequest && n !in old(fromChainedModeRequest)
                              ==> Loaded(cs, n) && DependsOn(c, n)
        invariant forall j :: 0 <= j < i && Loaded(cs, interfaces[j].owner) ==> interfaces[j].owner in fromChainedModeRequest
      {
        var owner := interfaces[i].owner;
        if Find(cs, owner) < |cs| {
          InterfaceIsDependency(c, interfaces, i);
          fromChainedModeRequest := AddItem(fromChainedModeRequest, owner);
        }
      }
      forall n | Loaded(cs, n) && DependsOn(c, n)
        ensures n in fromChainedModeRequest
      {
        var i := DependencyIsInterface(c, interfaces, n);
      }
    }

    /** propagate_deactivation_of_chained_mode: the owners that controllers to be deactivated use leave
        chained mode; a listed controller that is not active ends the search. */
    method PropagateDeactivationOfChainedMode(cs: seq<Controller>)
      requires fromChainedModeRequest == []
      modifies `fromChainedModeRequest
      ensures Unique(fromChainedModeRequest)
      ensures forall n :: n in fromChainedModeRequest <==> LeftBy(cs, deactivateRequest, n, Reached(cs, deactivateRequest))
    {
      ghost var reached := Reached(cs, deactivateRequest);
      for k := 0 to |cs|
        invariant k <= reached && Unique(fromChainedModeRequest)
        invariant forall n :: n in fromChainedModeRequest <==> LeftBy(cs, deactivateRequest, n, k)
      {
        if cs[k].name in deactivateRequest {
          if cs[k].state != Active {
            assert k == reached;
            break;
          }
          LeaveOwners(cs, cs[k]);
        }
        LeftByOneMore(cs, deactivateRequest, k);
      }
    }

    /** The loop over the activation request. `rejected` are the controllers whose fallback
        controllers are not in order. */
    method CheckActivations(cs: seq<Controller>, rejected: set<Name>, ghost rank: Name -> nat) returns (ok: bool)
      requires UniqueNames(cs) && Acyclic(cs, rank) && UniqueModes(CurrentModes())
      requires forall n :: n in activateRequest ==> Loaded(cs, n)
      modifies `toChainedModeRequest, `fromChainedModeRequest, `exposedStates, `exposedReferences
      ensures ok <==> forall n :: n in activateRequest
                        ==> Activatable(cs, activateRequest, deactivateRequest, n, rejected, rank)
      ensures UniqueModes(CurrentModes())
      ensures ok ==> ModesAfter(cs, NewOwners(cs, activateRequest, |activateRequest|, false, rank),
                                NewOwners(cs, activateRequest, |activateRequest|, true, rank),
                                old(CurrentModes()), CurrentModes())
    {
      hide ModesAfter;
      hide Acyclic;
      hide FollowingOk;
      hide VisitedOwners;
      hide Activatable;
      hide UniqueNames;
      ModesUnchanged(cs, CurrentModes());
      for i := 0 to |activateRequest|
        invariant UniqueModes(CurrentModes())
        invariant forall j :: 0 <= j < i ==>
                    Activatable(cs, activateRequest, deactivateRequest, activateRequest[j], rejected, rank)
        invariant ModesAfter(cs, NewOwners(cs, activateRequest, i, false, rank), NewOwners(cs, activateRequest, i, true, rank),
                             old(CurrentModes()), CurrentModes())
      {
        ghost var before := CurrentModes();
        assert activateRequest[i] in activateRequest;
        ok := CheckActivation(cs, activateRequest[i], rejected, rank);
        if !ok {
          return false;
        }
        ModesCompose(cs, NewOwners(cs, activateRequest, i, false, rank), NewOwners(cs, activateRequest, i, true, rank),
                     VisitedOwners(cs, Find(cs, activateRequest[i]), false, rank),
                     VisitedOwners(cs, Find(cs, activateRequest[i]), true, rank),
                     old(CurrentModes()), before, CurrentModes());
      }
      return true;
    }

    /** The body of that loop for one loaded controller. */
    method CheckActivation(cs: seq<Controller>, name: Name, rejected: set<Name>, ghost rank: Name -> nat) returns (ok: bool)
      requires UniqueNames(cs) && Acyclic(cs, rank) && UniqueModes(CurrentModes()) && Loaded(cs, name)
      modifies `toChainedModeRequest, `fromChainedModeRequest, `exposedStates, `exposedReferences
      ensures UniqueModes(CurrentModes())
      ensures ok <==> Activatable(cs, activateRequest, deactivateRequest, name, rejected, rank)
      ensures ok ==> ModesAfter(cs, VisitedOwners(cs, Find(cs, name), false, rank), VisitedOwners(cs, Find(cs, name), true, rank),
                                old(CurrentModes()), CurrentModes())
    {
      hide ModesAfter;
      hide Acyclic;
      hide FollowingOk;
      hide OwnersBelow;
      ModesUnchanged(cs, CurrentModes());
      var k := Find(cs, name);
      if cs[k].state == Unconfigured {
        ok := false;
      } else if cs[k].state == Active {
        ok := cs[k].name in deactivateRequest;
      } else if cs[k].state != Inactive {
        ok := false;
      } else {
        ok := CheckFollowingControllersForActivate(cs, k, rank);
      }
      if ok {
        ok := cs[k].name !in rejected;
      }
    }

    /** The loop over the deactivation request. */
    method CheckDeactivations(cs: seq<Controller>, reference: Cache, state: Cache) returns (ok: bool)
      requires forall n :: n in deactivateRequest ==> Loaded(cs, n)
      ensures ok <==> forall n :: n in deactivateRequest
                        ==> Deactivatable(cs, activateRequest, deactivateRequest, n, reference, state)
    {
      for i := 0 to |deactivateRequest|
        invariant forall j :: 0 <= j < i ==>
                    Deactivatable(cs, activateRequest, deactivateRequest, deactivateRequest[j], reference, state)
      {
        var k := Find(cs, deactivateRequest[i]);
        assert deactivateRequest[i] in deactivateRequest;
        if cs[k].state != Active {
          assert !Deactivatable(cs, activateRequest, deactivateRequest, deactivateRequest[i], reference, state);
          return false;
        }
        ok := CheckPrecedingControllersForDeactivate(cs, cs[k], reference, state);
        if !ok {
          assert !Deactivatable(cs, activateRequest, deactivateRequest, deactivateRequest[i], reference, state);
          return false;
        }
      }
      return true;
    }

    /** The loop over all controllers: restarts join both lists, and a listed controller in the wrong
        state aborts the STRICT switch. */
    method ExtendWithRestarts(cs: seq<Controller>) returns (ok: bool)
      requires UniqueNames(cs)
      modifies `activateRequest, `deactivateRequest
      ensures ok <==> forall i :: 0 <= i < |cs| ==>
                        !Conflict(cs[i], old(activateRequest), old(deactivateRequest), toChainedModeRequest + fromChainedModeRequest)
      ensures ok ==> var r := Restarts(cs, toChainedModeRequest + fromChainedModeRequest, old(deactivateRequest));
                     activateRequest == old(activateRequest) + r && deactivateRequest == old(deactivateRequest) + r
    {
      hide UniqueNames;
      hide Restarts;
      ghost var activate, deactivate := activateRequest, deactivateRequest;
      ghost var changing := toChainedModeRequest + fromChainedModeRequest;
      NoRestarts(changing, deactivate);
      assert cs[..0] == [];
      for k := 0 to |cs|
        invariant activateRequest == activate + Restarts(cs[..k], changing, deactivate)
        invariant deactivateRequest == deactivate + Restarts(cs[..k], changing, deactivate)
        invariant forall i :: 0 <= i < k ==> !Conflict(cs[i], activate, deactivate, changing)
      {
        var c := cs[k];
        NotRestartedBefore(cs, k, changing, deactivate);
        OneMoreRestart(cs, k, changing, deactivate);
        var active := c.state == Active;
        if c.name in toChainedModeRequest || c.name in fromChainedModeRequest {
          if active && c.name !in deactivateRequest {
            deactivateRequest := deactivateRequest + [c.name];
            activateRequest := activateRequest + [c.name];
          }
        }
        var inDeactivate := c.name in deactivateRequest;
        var inActivate := c.name in activateRequest;
        if !active && inDeactivate {
          return false;
        }
        if active && !inDeactivate && inActivate {
          return false;
        }
        if c.state != Inactive && !inDeactivate && inActivate {
          return false;
        }
      }
      assert cs[..|cs|] == cs;
      return true;
    }

    /** The command interfaces that the listed controllers release. */
    method Released(cs: seq<Controller>, deactivation: seq<Name>) returns (ok: bool, released: seq<Interface>)
      ensures ok <==> forall n :: n in deactivation ==> Loaded(cs, n)
      ensures ok ==> released == CommandsOf(cs, deactivation, [])
    {
      released := [];
      for i := 0 to |deactivation|
        invariant forall j :: 0 <= j < i ==> Loaded(cs, deactivation[j])
        invariant released == CommandsOf(cs, deactivation[..i], [])
      {
        assert deactivation[..i + 1][..i] == deactivation[..i];
        var k := Find(cs, deactivation[i]);
        if k == |cs| {
          assert deactivation[i] in deactivation && !Loaded(cs, deactivation[i]);
          return false, released;
        }
        released := released + cs[k].commands;
      }
      assert deactivation[..|deactivation|] == deactivation;
      return true, released;
    }

    /** The loop over the command interfaces of one newly activated controller. */
    method WantCommands(commands: seq<Interface>, available: set<Interface>, claimed: set<Interface>,
                        released: seq<Interface>, wanted: seq<Interface>)
      returns (ok: bool, wanted': seq<Interface>)
      requires AllFree(wanted, available, claimed, released)
      ensures ok <==> AllFree(wanted + commands, available, claimed, released)
      ensures ok ==> wanted' == wanted + commands
    {
      wanted' := wanted;
      for j := 0 to |commands|
        invariant wanted' == wanted + commands[..j] && AllFree(wanted', available, claimed, released)
      {
        var c := commands[j];
        assert (wanted + commands)[|wanted| + j] == c;
        if c !in available || (c in claimed && c !in released) || c in wanted' {
          if c in wanted' {
            TwiceIn(wanted, commands, j, wanted + commands);
          } else {
            assert c in wanted + commands && !Free(c, available, claimed, released);
          }
          return false, wanted';
        }
        wanted' := wanted' + [c];
      }
      assert commands[..|commands|] == commands;
      return true, wanted';
    }

    /** check_for_interfaces_availability_to_activate, for individually named interfaces. */
    method CheckInterfaces(cs: seq<Controller>, available: set<Interface>, claimed: set<Interface>, availableStates: set<Interface>)
      returns (ok: bool)
      ensures ok <==> InterfacesFree(cs, activateRequest, deactivateRequest, available, claimed, availableStates)
    {
      hide AllFree;
      hide StatesFree;
      hide Unique;
      hide CommandsOf;
      hide Find;
      var activation, deactivation := activateRequest, deactivateRequest;
      var known, released := Released(cs, deactivation);
      if !known {
        return false;
      }
      var wanted: seq<Interface> := [];
      NothingWanted(available, claimed, released);
      NoCommands(cs, deactivation);
      assert activation[..0] == [];
      for i := 0 to |activation|
        invariant wanted == CommandsOf(cs, activation[..i], deactivation) && AllFree(wanted, available, claimed, released)
        invariant forall j :: 0 <= j < i && activation[j] !in deactivation ==> StatesFree(cs, activation[j], availableStates)
      {
        OneMoreWanted(cs, activation, deactivation, i);
        if activation[i] !in deactivation {
          ok, wanted := WantController(cs, activation[i], available, claimed, availableStates, released, wanted);
          if !ok {
            OneRefused(cs, activation, deactivation, i, available, claimed, availableStates);
            return false;
          }
        }
      }
      assert activation[..|activation|] == activation;
      return true;
    }

    /** One newly activated controller: it is loaded and all its interfaces may be taken. */
    method WantController(cs: seq<Controller>, n: Name, available: set<Interface>, claimed: set<Interface>,
                          availableStates: set<Interface>, released: seq<Interface>, wanted: seq<Interface>)
      returns (ok: bool, wanted': seq<Interface>)
      requires AllFree(wanted, available, claimed, released)
      ensures ok <==> Loaded(cs, n) && StatesFree(cs, n, availableStates)
                      && AllFree(wanted + cs[Find(cs, n)].commands, available, claimed, released)
      ensures ok ==> wanted' == wanted + cs[Find(cs, n)].commands
    {
      assert StatesFree(cs, n, availableStates) ==> Loaded(cs, n);
      var k := Find(cs, n);
      if k == |cs| {
        return false, wanted;
      }
      ok, wanted' := WantCommands(cs[k].commands, available, claimed, released, wanted);
      if ok && exists j :: 0 <= j < |cs[k].states| && cs[k].states[j] !in availableStates {
        ok := false;
      }
    }

    /** list_controllers: under STRICT one unknown name refuses the request. */
    method ListControllers(cs: seq<Controller>, list: seq<Name>) returns (ok: bool)
      ensures ok <==> forall n :: n in list ==> Loaded(cs, n)
    {
      for i := 0 to |list|
        invariant forall j :: 0 <= j < i ==> Loaded(cs, list[j])
      {
        if Find(cs, list[i]) == |cs| {
          assert list[i] in list && !Loaded(cs, list[i]);
          return false;
        }
      }
      return true;
    }

    /** The chain checks in the order of the source; the first failure refuses the request. */
    method CheckChains(cs: seq<Controller>, reference: Cache, state: Cache, rejected: set<Name>, ghost rank: Name -> nat)
      returns (ok: bool)
      requires UniqueNames(cs) && Acyclic(cs, rank)
      requires forall n :: n in activateRequest || n in deactivateRequest ==> Loaded(cs, n)
      requires toChainedModeRequest == fromChainedModeRequest == []
      modifies `toChainedModeRequest, `fromChainedModeRequest, `exposedStates, `exposedReferences
      ensures ok <==> Admissible(cs, activateRequest, deactivateRequest, reference, state, rejected, rank)
      ensures ok ==> UniqueModes(CurrentModes())
      ensures ok ==> forall n :: n in toChainedModeRequest <==> EntersChainedMode(cs, activateRequest, rank, n)
      ensures ok ==> forall n :: n in fromChainedModeRequest <==> LeavesChainedMode(cs, activateRequest, deactivateRequest, rank, n)
      ensures ok ==> exposedReferences == old(exposedReferences) + Unchained(cs, activateRequest, true, rank)
      ensures ok ==> exposedStates == old(exposedStates) + Unchained(cs, activateRequest, false, rank)
    {
      PropagateDeactivationOfChainedMode(cs);
      ok := CheckActivations(cs, rejected, rank);
      if ok {
        ok := CheckDeactivations(cs, reference, state);
      }
    }

    /** A STRICT switch request up to the point where the switch starts. `references` and `exported` are
        the interfaces that a controller exports; those of owners that are not in chained mode are made
        available by the chain checks, before the interfaces are checked. `hardwareAccepts` is the answer of
        prepare_command_mode_switch; `changing` are the controllers that the checks ask to change their
        chained mode. */
    method PlanSwitch(cs: seq<Controller>, activate: seq<Name>, deactivate: seq<Name>, reference: Cache, state: Cache,
                      rejected: set<Name>, available: set<Interface>, claimed: set<Interface>, availableStates: set<Interface>,
                      references: Name -> set<Interface>, exported: Name -> set<Interface>,
                      hardwareAccepts: bool, ghost rank: Name -> nat)
      returns (v: Verdict, ghost changing: seq<Name>)
      requires UniqueNames(cs) && Acyclic(cs, rank) && Empty()
      modifies this
      ensures v != Planned ==> Empty()
      ensures v == NothingToDo <==> activate == [] && deactivate == []
      ensures var r := Restarts(cs, changing, deactivate);
              v == Planned <==>
                && (activate != [] || deactivate != [])
                && Admissible(cs, activate, deactivate, reference, state, rejected, rank)
                && InterfacesFree(cs, activate + r, deactivate + r,
                                  available + Exposed(Unchained(cs, activate, true, rank), references), claimed,
                                  availableStates + Exposed(Unchained(cs, activate, false, rank), exported))
                && hardwareAccepts
      ensures Admissible(cs, activate, deactivate, reference, state, rejected, rank) ==>
                && exposedReferences == Unchained(cs, activate, true, rank)
                && exposedStates == Unchained(cs, activate, false, rank)
      ensures var r := Restarts(cs, changing, deactivate);
              v == Planned ==>
                && activateRequest == activate + r && deactivateRequest == deactivate + r
                && changing == toChainedModeRequest + fromChainedModeRequest
                && (forall n :: n in toChainedModeRequest <==> EntersChainedMode(cs, activate, rank, n))
                && (forall n :: n in fromChainedModeRequest <==> LeavesChainedMode(cs, activate, deactivate, rank, n))
      ensures Admissible(cs, activate, deactivate, reference, state, rejected, rank) ==>
                forall n :: n in changing <==> ChangesMode(cs, activate, deactivate, rank, n)
    {
      hide Acyclic;
      hide ActivationOk;
      hide PrecedingOk;
      hide InterfacesFree;
      hide Exposed;
      hide Unchained;
      hide Restarts;
      hide LeavesChainedMode;
      hide EntersChainedMode;
      changing := [];
      v := Refused;
      exposedStates, exposedReferences := {}, {};
      var ok := ListControllers(cs, deactivate);
      if !ok {
        return;
      }
      ok := ListControllers(cs, activate);
      if !ok {
        return;
      }
      deactivateRequest, activateRequest := deactivate, activate;
      ok := CheckChains(cs, reference, state, rejected, rank);
      if !ok {
        ClearRequests();
        return;
      }
      assert exposedReferences == Unchained(cs, activate, true, rank) && exposedStates == Unchained(cs, activate, false, rank);
      changing := toChainedModeRequest + fromChainedModeRequest;
      if activateRequest == [] && deactivateRequest == [] {
        ClearRequests();
        return NothingToDo, changing;
      }
      AdmissibleHasNoConflict(cs, activate, deactivate, changing, reference, state, rejected, rank);
      v := AcceptPlan(cs, available, claimed, availableStates, references, exported, hardwareAccepts);
    }

    /** The rest of it, after the chain checks. */
    method AcceptPlan(cs: seq<Controller>, available: set<Interface>, claimed: set<Interface>, availableStates: set<Interface>,
                      references: Name -> set<Interface>, exported: Name -> set<Interface>, hardwareAccepts: bool)
      returns (v: Verdict)
      requires UniqueNames(cs)
      requires forall i :: 0 <= i < |cs| ==>
                 !Conflict(cs[i], activateRequest, deactivateRequest, toChainedModeRequest + fromChainedModeRequest)
      modifies this
      ensures exposedStates == old(exposedStates) && exposedReferences == old(exposedReferences)
      ensures v == Planned || (v == Refused && Empty())
      ensures var r := Restarts(cs, old(toChainedModeRequest + fromChainedModeRequest), old(deactivateRequest));
              && (v == Planned <==>
                    && InterfacesFree(cs, old(activateRequest) + r, old(deactivateRequest) + r,
                                      available + Exposed(exposedReferences, references), claimed,
                                      availableStates + Exposed(exposedStates, exported))
                    && hardwareAccepts)
              && (v == Planned ==> activateRequest == old(activateRequest) + r && deactivateRequest == old(deactivateRequest) + r)
      ensures v == Planned ==> toChainedModeRequest == old(toChainedModeRequest) && fromChainedModeRequest == old(fromChainedModeRequest)
    {
      hide InterfacesFree;
      hide Exposed;
      hide Restarts;
      var ok := ExtendWithRestarts(cs);
      ok := CheckInterfaces(cs, available + Exposed(exposedReferences, references), claimed,
                            availableStates + Exposed(exposedStates, exported));
      if !ok || !hardwareAccepts {
        ClearRequests();
        return Refused;
      }
      return Planned;
    }
  }

  /** After the chain checks no controller is listed in a state that aborts the switch. */
  lemma AdmissibleHasNoConflict(cs: seq<Controller>, activate: seq<Name>, deactivate: seq<Name>, changing: seq<Name>,
                                reference: Cache, state: Cache, rejected: set<Name>, rank: Name -> nat)
    requires UniqueNames(cs) && Acyclic(cs, rank)
    requires Admissible(cs, activate, deactivate, reference, state, rejected, rank)
    ensures forall i :: 0 <= i < |cs| ==> !Conflict(cs[i], activate, deactivate, changing)
  {
    forall i | 0 <= i < |cs|
      ensures !Conflict(cs[i], activate, deactivate, changing)
    {
      FindUnique(cs, i);
    }
  }

  /** A listed controller in the wrong state, given the restarts. */
  predicate Conflict(c: Controller, activate: seq<Name>, deactivate: seq<Name>, changing: seq<Name>) {
    || (c.state != Active && c.name in deactivate)
    || (c.state != Inactive && c.name !in deactivate && !Restarted(c, changing, deactivate) && c.name in activate)
  }

  lemma NoRestarts(changing: seq<Name>, deactivate: seq<Name>)
    ensures Restarts([], changing, deactivate) == []
  {
  }

  lemma OneMoreRestart(cs: seq<Controller>, k: nat, changing: seq<Name>, deactivate: seq<Name>)
    requires k < |cs|
    ensures Restarts(cs[..k + 1], changing, deactivate)
         == Restarts(cs[..k], changing, deactivate) + (if Restarted(cs[k], changing, deactivate) then [cs[k].name] else [])
  {
    assert cs[..k + 1][..k] == cs[..k];
  }

  lemma NotRestartedBefore(cs: seq<Controller>, k: nat, changing: seq<Name>, deactivate: seq<Name>)
    requires UniqueNames(cs) && k < |cs|
    ensures cs[k].name !in Restarts(cs[..k], changing, deactivate)
  {
    assert forall i :: 0 <= i < k ==> NamesOf(cs)[i] != NamesOf(cs)[k];
  }

  /** The command interfaces of the listed controllers that are not in `except`, one after another. */
  function CommandsOf(cs: seq<Controller>, list: seq<Name>, except: seq<Name>): seq<Interface> {
    if list == [] then []
    else
      var last := list[|list| - 1];
      CommandsOf(cs, list[..|list| - 1], except)
      + (if last in except || !Loaded(cs, last) then [] else cs[Find(cs, last)].commands)
  }

  lemma {:induction false} CommandsOfPrefix(cs: seq<Controller>, list: seq<Name>, except: seq<Name>, n: nat)
    requires n < |list|
    ensures CommandsOf(cs, list[..n + 1], except) <= CommandsOf(cs, list, except)
    decreases |list|
  {
    if n + 1 < |list| {
      var shorter := list[..|list| - 1];
      CommandsOfPrefix(cs, shorter, except, n);
      assert shorter[..n + 1] == list[..n + 1];
    } else {
      assert list[..n + 1] == list;
    }
  }

  lemma TwiceIn(before: seq<Interface>, commands: seq<Interface>, j: nat, all: seq<Interface>)
    requires j < |commands| && commands[j] in before + commands[..j] && before + commands <= all
    ensures !Unique(all)
  {
    var i :| 0 <= i < |before| + j && (before + commands[..j])[i] == commands[j];
    assert (before + commands)[i] == commands[j] && (before + commands)[|before| + j] == commands[j];
    assert all[i] == all[|before| + j];
  }

  /** A command interface that a newly activated controller may claim. */
  predicate Free(c: Interface, available: set<Interface>, claimed: set<Interface>, released: seq<Interface>) {
    c in available && (c in claimed ==> c in released)
  }

  /** The wanted command interfaces are all different, and each may be claimed. */
  ghost predicate AllFree(wanted: seq<Interface>, available: set<Interface>, claimed: set<Interface>, released: seq<Interface>) {
    Unique(wanted) && forall c :: c in wanted ==> Free(c, available, claimed, released)
  }

  lemma NoCommands(cs: seq<Controller>, except: seq<Name>)
    ensures CommandsOf(cs, [], except) == []
  {
  }

  lemma OneMoreWanted(cs: seq<Controller>, list: seq<Name>, except: seq<Name>, i: nat)
    requires i < |list|
    ensures CommandsOf(cs, list[..i + 1], except)
         == CommandsOf(cs, list[..i], except)
            + (if list[i] in except || !Loaded(cs, list[i]) then [] else cs[Find(cs, list[i])].commands)
  {
    assert list[..i + 1][..i] == list[..i];
  }

  lemma NothingWanted(available: set<Interface>, claimed: set<Interface>, released: seq<Interface>)
    ensures AllFree([], available, claimed, released)
  {
  }

  lemma AllFreePrefix(few: seq<Interface>, all: seq<Interface>, available: set<Interface>, claimed: set<Interface>,
                      released: seq<Interface>)
    requires few <= all && AllFree(all, available, claimed, released)
    ensures AllFree(few, available, claimed, released)
  {
    assert forall i :: 0 <= i < |few| ==> few[i] == all[i];
  }

  /** One newly activated controller that may not take its interfaces spoils the whole request. */
  lemma OneRefused(cs: seq<Controller>, activate: seq<Name>, deactivate: seq<Name>, i: nat,
                   available: set<Interface>, claimed: set<Interface>, availableStates: set<Interface>)
    requires i < |activate| && activate[i] !in deactivate
    requires Loaded(cs, activate[i]) && StatesFree(cs, activate[i], availableStates) ==>
               !AllFree(CommandsOf(cs, activate[..i], deactivate) + cs[Find(cs, activate[i])].commands,
                        available, claimed, CommandsOf(cs, deactivate, []))
    ensures !InterfacesFree(cs, activate, deactivate, available, claimed, availableStates)
  {
    var released := CommandsOf(cs, deactivate, []);
    var all := CommandsOf(cs, activate, deactivate);
    CommandsOfPrefix(cs, activate, deactivate, i);
    assert activate[..i + 1][..i] == activate[..i];
    if AllFree(all, available, claimed, released) {
      AllFreePrefix(CommandsOf(cs, activate[..i + 1], deactivate), all, available, claimed, released);
    }
    assert activate[i] in activate;
  }

  predicate StatesFree(cs: seq<Controller>, n: Name, availableStates: set<Interface>) {
    Loaded(cs, n) && forall s :: s in cs[Find(cs, n)].states ==> s in availableStates
  }

  /** Every newly activated controller finds its interfaces available, each command interface is
      wanted once, and a claimed one is released by a deactivated controller. */
  ghost predicate InterfacesFree(cs: seq<Controller>, activate: seq<Name>, deactivate: seq<Name>,
                                 available: set<Interface>, claimed: set<Interface>, availableStates: set<Interface>) {
    && (forall n :: n in deactivate ==> Loaded(cs, n))
    && AllFree(CommandsOf(cs, activate, deactivate), available, claimed, CommandsOf(cs, deactivate, []))
    && (forall n :: n in activate && n !in deactivate ==> StatesFree(cs, n, availableStates))
  }

  /** The owner of an interface, if loaded, passes the check itself. */
  ghost predicate InterfaceOk(cs: seq<Controller>, activate: seq<Name>, deactivate: seq<Name>, owner: Name, rank: Name -> nat)
    requires Acyclic(cs, rank)
  {
    Loaded(cs, owner) ==> EdgeOk(cs[Find(cs, owner)], activate, deactivate)
                          && FollowingOk(cs, activate, deactivate, Find(cs, owner), rank)
  }

  lemma NoOwner(cs: seq<Controller>, k: nat, p: nat, rank: Name -> nat)
    requires Acyclic(cs, rank) && k < |cs| && p < |InterfacesOf(cs[k])| && !Loaded(cs, InterfacesOf(cs[k])[p].owner)
    ensures OwnersVia(cs, k, p, false, rank) == OwnersVia(cs, k, p, true, rank) == {}
  {
  }

  lemma OneBadInterface(cs: seq<Controller>, activate: seq<Name>, deactivate: seq<Name>, k: nat, p: nat, rank: Name -> nat)
    requires Acyclic(cs, rank) && k < |cs| && p < |InterfacesOf(cs[k])|
    requires !InterfaceOk(cs, activate, deactivate, InterfacesOf(cs[k])[p].owner, rank)
    ensures !FollowingOk(cs, activate, deactivate, k, rank)
  {
    InterfaceIsDependency(cs[k], InterfacesOf(cs[k]), p);
  }

  lemma AllInterfacesOk(cs: seq<Controller>, activate: seq<Name>, deactivate: seq<Name>, k: nat,
                        interfaces: seq<Interface>, rank: Name -> nat)
    requires UniqueNames(cs) && Acyclic(cs, rank) && k < |cs| && interfaces == cs[k].commands + cs[k].states
    requires forall i :: 0 <= i < |interfaces| ==> InterfaceOk(cs, activate, deactivate, interfaces[i].owner, rank)
    ensures FollowingOk(cs, activate, deactivate, k, rank)
  {
    forall j | 0 <= j < |cs| && DependsOn(cs[k], cs[j].name)
      ensures EdgeOk(cs[j], activate, deactivate) && FollowingOk(cs, activate, deactivate, j, rank)
    {
      FindUnique(cs, j);
      var i := DependencyIsInterface(cs[k], interfaces, cs[j].name);
      assert InterfaceOk(cs, activate, deactivate, interfaces[i].owner, rank);
    }
  }

  /** How far the search goes: up to the first listed controller that is not active. */
  ghost function Reached(cs: seq<Controller>, deactivate: seq<Name>): (n: nat)
    ensures n <= |cs|
    ensures forall i :: 0 <= i < n && cs[i].name in deactivate ==> cs[i].state == Active
    ensures n < |cs| ==> cs[n].name in deactivate && cs[n].state != Active
  {
    if cs == [] || (cs[0].name in deactivate && cs[0].state != Active) then 0
    else 1 + Reached(cs[1..], deactivate)
  }

  /** One of the first `n` controllers is to be deactivated and uses interfaces of `owner`. */
  ghost predicate LeftBy(cs: seq<Controller>, deactivate: seq<Name>, owner: Name, n: nat)
    requires n <= |cs|
  {
    Loaded(cs, owner) && exists i :: 0 <= i < n && cs[i].name in deactivate && DependsOn(cs[i], owner)
  }

  lemma LeftByOneMore(cs: seq<Controller>, deactivate: seq<Name>, k: nat)
    requires k < |cs|
    ensures forall n :: LeftBy(cs, deactivate, n, k + 1)
              <==> LeftBy(cs, deactivate, n, k) || (Loaded(cs, n) && cs[k].name in deactivate && DependsOn(cs[k], n))
  {
    forall n
      ensures LeftBy(cs, deactivate, n, k + 1)
              <==> LeftBy(cs, deactivate, n, k) || (Loaded(cs, n) && cs[k].name in deactivate && DependsOn(cs[k], n))
    {
      if LeftBy(cs, deactivate, n, k + 1) {
        var i :| 0 <= i < k + 1 && cs[i].name in deactivate && DependsOn(cs[i], n);
      }
    }
  }

  lemma InterfaceIsDependency(c: Controller, interfaces: seq<Interface>, i: nat)
    requires interfaces == c.commands + c.states && i < |interfaces|
    ensures DependsOn(c, interfaces[i].owner)
    ensures i < |c.commands| ==> interfaces[i] in c.commands
  {
    if i < |c.commands| {
      assert c.commands[i].owner == interfaces[i].owner;
    } else {
      assert c.states[i - |c.commands|].owner == interfaces[i].owner;
    }
  }

  lemma DependencyIsInterface(c: Controller, interfaces: seq<Interface>, owner: Name) returns (i: nat)
    requires interfaces == c.commands + c.states && DependsOn(c, owner)
    ensures i < |interfaces| && interfaces[i].owner == owner
  {
    if Mentions(c.commands, owner) {
      i :| 0 <= i < |c.commands| && c.commands[i].owner == owner;
    } else {
      var j :| 0 <= j < |c.states| && c.states[j].owner == owner;
      i := |c.commands| + j;
    }
  }
}
