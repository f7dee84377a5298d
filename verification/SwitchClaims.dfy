/** Command interfaces after an accepted STRICT plan: who will hold what. */
module SwitchClaims {
  import opened Names
  import opened Controllers
  import opened ChainBookkeeping
  import opened SwitchPlan

  /** No two controllers of the set use the same command interface. */
  ghost predicate NoRivals(cs: seq<Controller>, s: set<Name>) {
    forall i, j :: 0 <= i < |cs| && 0 <= j < |cs| && i != j && cs[i].name in s && cs[j].name in s ==> !Share(cs[i], cs[j])
  }

  lemma {:induction false} InCommandsOf(cs: seq<Controller>, list: seq<Name>, except: seq<Name>, c: Interface)
    ensures c in CommandsOf(cs, list, except)
            <==> exists n :: n in list && n !in except && Loaded(cs, n) && c in cs[Find(cs, n)].commands
  {
    if list != [] {
      var shorter, last := list[..|list| - 1], list[|list| - 1];
      InCommandsOf(cs, shorter, except, c);
      assert forall n :: n in list <==> n in shorter || n == last;
    }
  }

  /** Interfaces that are wanted once are wanted by one controller. */
  lemma {:induction false} WantedOnce(cs: seq<Controller>, list: seq<Name>, except: seq<Name>, n: Name, m: Name, c: Interface)
    requires Unique(CommandsOf(cs, list, except))
    requires n in list && n !in except && Loaded(cs, n) && c in cs[Find(cs, n)].commands
    requires m in list && m !in except && Loaded(cs, m) && c in cs[Find(cs, m)].commands
    ensures n == m
  {
    hide Unique;
    hide Find;
    var shorter, last := list[..|list| - 1], list[|list| - 1];
    var before := CommandsOf(cs, shorter, except);
    var added := if last in except || !Loaded(cs, last) then [] else cs[Find(cs, last)].commands;
    assert CommandsOf(cs, list, except) == before + added;
    assert forall x :: x in list <==> x in shorter || x == last;
    InCommandsOf(cs, shorter, except, c);
    SeparateHalves(before, added, c);
    if n in shorter && m in shorter {
      WantedOnce(cs, shorter, except, n, m, c);
    }
  }

  lemma SeparateHalves(a: seq<Interface>, b: seq<Interface>, c: Interface)
    requires Unique(a + b)
    ensures Unique(a) && !(c in a && c in b)
  {
    assert forall i :: 0 <= i < |a| ==> a[i] == (a + b)[i];
    forall i, j | 0 <= i < |a| && 0 <= j < |b|
      ensures a[i] != b[j]
    {
      assert (a + b)[i] == a[i] && (a + b)[|a| + j] == b[j];
    }
  }

  ghost predicate IsNew(activate: seq<Name>, deactivate: seq<Name>, n: Name) {
    n in activate && n !in deactivate
  }

  /** A newly activated controller and a restarted one. */
  ghost predicate NewAgainstRestarted(activate: seq<Name>, deactivate: seq<Name>, a: Name, b: Name) {
    IsNew(activate, deactivate, a) && b in activate && b in deactivate
  }

  /** STRICT plans and command interfaces: from an active set without rivals, the accepted final lists
      lead to one without rivals exactly when no newly activated controller wants a command interface
      of a restarted one. */
  lemma AcceptedPlanRivalsIff(cs: seq<Controller>, activate: seq<Name>, deactivate: seq<Name>,
                              available: set<Interface>, claimed: set<Interface>, availableStates: set<Interface>)
    requires UniqueNames(cs) && NoRivals(cs, ActiveNames(cs))
    requires forall i, c :: 0 <= i < |cs| && cs[i].state == Active && c in cs[i].commands ==> c in claimed
    requires InterfacesFree(cs, activate, deactivate, available, claimed, availableStates)
    requires forall n :: n in deactivate ==> Loaded(cs, n) && cs[Find(cs, n)].state == Active
    ensures NoRivals(cs, Target(cs, activate, deactivate))
            <==> forall i, j :: 0 <= i < |cs| && 0 <= j < |cs| && NewAgainstRestarted(activate, deactivate, cs[i].name, cs[j].name)
                   ==> !Share(cs[i], cs[j])
  {
    hide InterfacesFree;
    var target := Target(cs, activate, deactivate);
    if NoRivals(cs, target) {
      forall i, j | 0 <= i < |cs| && 0 <= j < |cs| && NewAgainstRestarted(activate, deactivate, cs[i].name, cs[j].name)
        ensures !Share(cs[i], cs[j])
      {
        assert cs[i].name in target && cs[j].name in target;
      }
    }
    if forall i, j :: 0 <= i < |cs| && 0 <= j < |cs| && NewAgainstRestarted(activate, deactivate, cs[i].name, cs[j].name)
         ==> !Share(cs[i], cs[j]) {
      forall i, j | 0 <= i < |cs| && 0 <= j < |cs| && i != j && cs[i].name in target && cs[j].name in target
        ensures !Share(cs[i], cs[j])
      {
        PairHasNoRival(cs, activate, deactivate, available, claimed, availableStates, i, j);
      }
    }
  }

  lemma PairHasNoRival(cs: seq<Controller>, activate: seq<Name>, deactivate: seq<Name>,
                       available: set<Interface>, claimed: set<Interface>, availableStates: set<Interface>, i: nat, j: nat)
    requires UniqueNames(cs) && NoRivals(cs, ActiveNames(cs))
    requires forall k, c :: 0 <= k < |cs| && cs[k].state == Active && c in cs[k].commands ==> c in claimed
    requires InterfacesFree(cs, activate, deactivate, available, claimed, availableStates)
    requires forall n :: n in deactivate ==> Loaded(cs, n) && cs[Find(cs, n)].state == Active
    requires i < |cs| && j < |cs| && i != j
    requires cs[i].name in Target(cs, activate, deactivate) && cs[j].name in Target(cs, activate, deactivate)
    requires NewAgainstRestarted(activate, deactivate, cs[i].name, cs[j].name) ==> !Share(cs[i], cs[j])
    requires NewAgainstRestarted(activate, deactivate, cs[j].name, cs[i].name) ==> !Share(cs[j], cs[i])
    ensures !Share(cs[i], cs[j])
  {
    hide InterfacesFree;
    assert Share(cs[i], cs[j]) <==> Share(cs[j], cs[i]);
    if IsNew(activate, deactivate, cs[i].name) {
      if !NewAgainstRestarted(activate, deactivate, cs[i].name, cs[j].name) {
        NewHasNoRival(cs, activate, deactivate, available, claimed, availableStates, i, j);
      }
    } else if IsNew(activate, deactivate, cs[j].name) {
      if !NewAgainstRestarted(activate, deactivate, cs[j].name, cs[i].name) {
        NewHasNoRival(cs, activate, deactivate, available, claimed, availableStates, j, i);
      }
    } else {
      OldIsActive(cs, activate, deactivate, i);
      OldIsActive(cs, activate, deactivate, j);
    }
  }

  lemma OldIsActive(cs: seq<Controller>, activate: seq<Name>, deactivate: seq<Name>, i: nat)
    requires UniqueNames(cs) && i < |cs| && cs[i].name in Target(cs, activate, deactivate)
    requires forall n :: n in deactivate ==> Loaded(cs, n) && cs[Find(cs, n)].state == Active
    requires !IsNew(activate, deactivate, cs[i].name)
    ensures cs[i].name in ActiveNames(cs)
  {
    FindUnique(cs, i);
    ActiveByIndex(cs, i);
  }

  lemma NewHasNoRival(cs: seq<Controller>, activate: seq<Name>, deactivate: seq<Name>,
                      available: set<Interface>, claimed: set<Interface>, availableStates: set<Interface>, i: nat, j: nat)
    requires UniqueNames(cs) && NoRivals(cs, ActiveNames(cs))
    requires forall k, c :: 0 <= k < |cs| && cs[k].state == Active && c in cs[k].commands ==> c in claimed
    requires InterfacesFree(cs, activate, deactivate, available, claimed, availableStates)
    requires forall n :: n in deactivate ==> Loaded(cs, n) && cs[Find(cs, n)].state == Active
    requires i < |cs| && j < |cs| && i != j && IsNew(activate, deactivate, cs[i].name)
    requires cs[j].name in Target(cs, activate, deactivate)
    requires !NewAgainstRestarted(activate, deactivate, cs[i].name, cs[j].name)
    ensures !Share(cs[i], cs[j])
  {
    FindUnique(cs, i);
    FindUnique(cs, j);
    ActiveByIndex(cs, j);
    forall c | c in cs[i].commands
      ensures c !in cs[j].commands
    {
      if c in cs[j].commands {
        InCommandsOf(cs, activate, deactivate, c);
        if IsNew(activate, deactivate, cs[j].name) {
          WantedOnce(cs, activate, deactivate, cs[i].name, cs[j].name, c);
        } else {
          var d := HeldByReleaser(cs, deactivate, c, j);
          assert Share(cs[d], cs[j]);
        }
        assert false;
      }
    }
  }

  /** A claimed interface that is released belongs to a deactivated, hence active, controller. */
  lemma HeldByReleaser(cs: seq<Controller>, deactivate: seq<Name>, c: Interface, j: nat) returns (d: nat)
    requires UniqueNames(cs) && c in CommandsOf(cs, deactivate, []) && j < |cs| && cs[j].name !in deactivate
    requires forall n :: n in deactivate ==> Loaded(cs, n) && cs[Find(cs, n)].state == Active
    ensures d < |cs| && d != j && cs[d].state == Active && cs[d].name in ActiveNames(cs) && c in cs[d].commands
  {
    InCommandsOf(cs, deactivate, [], c);
    var n :| n in deactivate && Loaded(cs, n) && c in cs[Find(cs, n)].commands;
    d := Find(cs, n);
    ActiveByIndex(cs, d);
  }

  // ---------------------------------------------------------------------------------------
  // Chains after a failed activation
  // ---------------------------------------------------------------------------------------

  /** The user `i` stays active, while its owner `j` is only restarted, or is deactivated unseen
      because it is not chainable. */
  ghost predicate LeftBehind(cs: seq<Controller>, deactivate: seq<Name>, restarts: seq<Name>, i: nat, j: nat)
    requires i < |cs| && j < |cs|
  {
    && DependsOn(cs[i], cs[j].name) && cs[i].state == Active
    && cs[i].name !in deactivate && cs[i].name !in restarts
    && (cs[j].name in restarts || (cs[j].name in deactivate && !cs[j].chainable))
  }

  /** When one activation of an accepted STRICT plan fails, everything listed ends inactive. The
      controllers that remain active are closed under chain dependencies exactly when nobody is left
      behind, in particular by a restarted controller. */
  lemma RollbackClosedIff(cs: seq<Controller>, activate: seq<Name>, deactivate: seq<Name>, changing: seq<Name>,
                          reference: Cache, state: Cache, rejected: set<Name>, rank: Name -> nat)
    requires UniqueNames(cs) && Acyclic(cs, rank) && Covers(cs, reference, state)
    requires ChainClosed(cs, ActiveNames(cs))
    requires Admissible(cs, activate, deactivate, reference, state, rejected, rank)
    ensures var r := Restarts(cs, changing, deactivate);
            ChainClosed(cs, ActiveNames(cs) - Elements(deactivate + r) - Elements(activate + r))
            <==> (forall i, j :: 0 <= i < |cs| && 0 <= j < |cs| ==> !LeftBehind(cs, deactivate, r, i, j))
  {
    hide Covers;
    hide Admissible;
    hide ChainClosed;
    hide Acyclic;
    var r := Restarts(cs, changing, deactivate);
    var rest := ActiveNames(cs) - Elements(deactivate + r) - Elements(activate + r);
    forall i, j | 0 <= i < |cs| && 0 <= j < |cs|
      ensures Missed(cs, rest, i, j) <==> LeftBehind(cs, deactivate, r, i, j)
    {
      if DependsOn(cs[i], cs[j].name) {
        MissedIsLeftBehind(cs, activate, deactivate, r, reference, state, rejected, rank, i, j);
      }
    }
    ClosedIffNoneMissed(cs, rest);
  }

  lemma MissedIsLeftBehind(cs: seq<Controller>, activate: seq<Name>, deactivate: seq<Name>, r: seq<Name>,
                           reference: Cache, state: Cache, rejected: set<Name>, rank: Name -> nat, i: nat, j: nat)
    requires UniqueNames(cs) && Acyclic(cs, rank) && Covers(cs, reference, state)
    requires ChainClosed(cs, ActiveNames(cs))
    requires Admissible(cs, activate, deactivate, reference, state, rejected, rank)
    requires i < |cs| && j < |cs| && DependsOn(cs[i], cs[j].name)
    ensures Missed(cs, ActiveNames(cs) - Elements(deactivate + r) - Elements(activate + r), i, j)
            <==> LeftBehind(cs, deactivate, r, i, j)
  {
    FindUnique(cs, i);
    FindUnique(cs, j);
    ActiveByIndex(cs, i);
    ActiveByIndex(cs, j);
    if cs[i].state == cs[j].state == Active && cs[j].name in deactivate && cs[j].chainable {
      UsersGoToo(cs, activate, deactivate, reference, state, i, j);
    }
    assert cs[i].name in activate && cs[i].state == Active ==> cs[i].name in deactivate;
    assert cs[j].name in activate && cs[j].state == Active ==> cs[j].name in deactivate;
  }

  // ---------------------------------------------------------------------------------------
  // Requests that go wrong
  // ---------------------------------------------------------------------------------------

  const FILTER: Name := Name("filter")
  const PILOT: Name := Name("pilot")
  const NAVIGATOR: Name := Name("navigator")
  const GOAL: Interface := Interface(FILTER, "goal")

  /** The filter comes last. */
  function FilterLast(n: Name): nat { if n == FILTER then 0 else 1 }

  function Filter(): Controller { Controller(FILTER, Active, true, true, [], [], []) }

  /** Drives the filter. */
  function Pilot(state: LifecycleState): Controller { Controller(PILOT, state, false, false, [GOAL], [], []) }

  /** Reads the states of the filter. */
  function Navigator(): Controller { Controller(NAVIGATOR, Active, false, false, [], [GOAL], []) }

  lemma CastDepends(state: LifecycleState, n: Name)
    ensures DependsOn(Pilot(state), n) <==> n == FILTER
    ensures DependsOn(Navigator(), n) <==> n == FILTER
    ensures !DependsOn(Filter(), n)
  {
    assert [GOAL][0].owner == FILTER;
  }

  lemma CastUnique(cs: seq<Controller>)
    requires forall i, j :: 0 <= i < j < |cs| ==> cs[i].name != cs[j].name
    ensures UniqueNames(cs)
    ensures forall i :: 0 <= i < |cs| ==> Find(cs, cs[i].name) == i
    ensures forall i :: 0 <= i < |cs| ==> (cs[i].name in ActiveNames(cs) <==> cs[i].state == Active)
  {
    forall i | 0 <= i < |cs|
      ensures Find(cs, cs[i].name) == i && (cs[i].name in ActiveNames(cs) <==> cs[i].state == Active)
    {
      FindUnique(cs, i);
      ActiveByIndex(cs, i);
    }
  }

  /** A cache that lists the user of the filter covers the cast. */
  lemma CastCovered()
    ensures forall i, j :: 0 <= i < 2 && 0 <= j < 2 ==> Covered(Duo()[i], Duo()[j].name, map[FILTER := [PILOT]], map[])
  {
  }

  function Duo(): seq<Controller> { [Pilot(Active), Filter()] }

  lemma DuoFacts()
    ensures UniqueNames(Duo()) && Acyclic(Duo(), FilterLast) && ActiveNames(Duo()) == {PILOT, FILTER}
    ensures Find(Duo(), PILOT) == 0 && Find(Duo(), FILTER) == 1
    ensures forall i, n :: 0 <= i < 2 ==> (DependsOn(Duo()[i], n) <==> i == 0 && n == FILTER)
  {
    hide DependsOn;
    var cs := Duo();
    CastUnique(cs);
    assert Find(cs, cs[0].name) == 0 && Find(cs, cs[1].name) == 1;
    forall i, n | 0 <= i < 2
      ensures DependsOn(cs[i], n) <==> i == 0 && n == FILTER
    {
      CastDepends(Active, n);
    }
  }

  lemma DuoAdmissible()
    requires Acyclic(Duo(), FilterLast)
    ensures Admissible(Duo(), [PILOT], [PILOT, FILTER], map[FILTER := [PILOT]], map[], {}, FilterLast)
  {
    hide Acyclic;
    hide Find;
    hide FollowingOk;
    DuoFacts();
    assert Loaded(Duo(), PILOT) && Loaded(Duo(), FILTER);
    assert UserOk(Duo(), [PILOT], [PILOT, FILTER], PILOT);
  }

  /** A pilot that is restarted while the filter it drives is deactivated: the request is accepted, and
      the pilot ends active without the filter. */
  lemma RestartOutlivesItsOwner()
    ensures var cs, reference := Duo(), map[FILTER := [PILOT]];
            && UniqueNames(cs) && Acyclic(cs, FilterLast) && Covers(cs, reference, map[])
            && ChainClosed(cs, ActiveNames(cs))
            && Admissible(cs, [PILOT], [PILOT, FILTER], reference, map[], {}, FilterLast)
            && !ChainClosed(cs, Target(cs, [PILOT], [PILOT, FILTER]))
  {
    hide DependsOn;
    hide Admissible;
    DuoFacts();
    DuoAdmissible();
    var cs := Duo();
    var target := Target(cs, [PILOT], [PILOT, FILTER]);
    assert Covers(cs, map[FILTER := [PILOT]], map[]) by { CastCovered(); }
    assert cs[0].name in target && cs[1].name !in target && DependsOn(cs[0], cs[1].name);
  }

  function Pilots(): seq<Controller> { [Pilot(Active), Pilot(Inactive).(name := NAVIGATOR)] }

  lemma PilotsFacts()
    ensures UniqueNames(Pilots()) && Acyclic(Pilots(), FilterLast) && ActiveNames(Pilots()) == {PILOT}
    ensures Find(Pilots(), PILOT) == 0 && Find(Pilots(), NAVIGATOR) == 1 && !Loaded(Pilots(), FILTER)
    ensures forall i, n :: 0 <= i < 2 ==> (DependsOn(Pilots()[i], n) <==> n == FILTER)
    ensures Share(Pilots()[0], Pilots()[1])
  {
    hide DependsOn;
    hide Share;
    var cs := Pilots();
    CastUnique(cs);
    assert Find(cs, cs[0].name) == 0 && Find(cs, cs[1].name) == 1;
    PilotsShare();
    forall i, n | 0 <= i < 2
      ensures DependsOn(cs[i], n) <==> n == FILTER
    {
      CastDepends(Active, n);
      PilotDepends(n);
    }
  }

  lemma PilotDepends(n: Name)
    ensures DependsOn(Pilot(Inactive).(name := NAVIGATOR), n) <==> n == FILTER
  {
    assert [GOAL][0].owner == FILTER;
  }

  lemma PilotsShare()
    ensures Share(Pilots()[0], Pilots()[1])
  {
    assert GOAL in Pilots()[0].commands && GOAL in Pilots()[1].commands;
  }

  lemma PilotsAdmissible()
    requires Acyclic(Pilots(), FilterLast)
    ensures Admissible(Pilots(), [PILOT, NAVIGATOR], [PILOT], map[], map[], {}, FilterLast)
  {
    hide Acyclic;
    hide Find;
    hide DependsOn;
    PilotsFacts();
    assert FollowingOk(Pilots(), [PILOT, NAVIGATOR], [PILOT], 1, FilterLast);
  }

  lemma PilotsKeepMode(n: Name)
    requires Acyclic(Pilots(), FilterLast)
    ensures !ChangesMode(Pilots(), [PILOT, NAVIGATOR], [PILOT], FilterLast, n)
  {
    hide Acyclic;
    hide Find;
    var cs := Pilots();
    PilotsFacts();
    NoOwner(cs, 1, 0, FilterLast);
    assert InterfacesOf(cs[1]) == [GOAL];
    forall commanded
      ensures OwnersBelow(cs, 1, commanded, FilterLast) == {}
    {
      assert OwnersVia(cs, 1, 0, commanded, FilterLast) == {};
      assert OwnersThrough(cs, 1, 0, commanded, FilterLast) == {};
    }
    assert [PILOT, NAVIGATOR][0] == PILOT && [PILOT, NAVIGATOR][1] == NAVIGATOR;
    forall commanded
      ensures NewOwners(cs, [PILOT, NAVIGATOR], 2, commanded, FilterLast) == {}
    {
      assert NewOwners(cs, [PILOT, NAVIGATOR], 1, commanded, FilterLast) == {};
    }
    assert forall i :: 0 <= i < 2 && DependsOn(cs[i], n) ==> n == FILTER;
  }

  /** A pilot that is activated while another one is restarted: the request passes all checks without
      further restarts, since the interface that the first releases is free for the second; so both end up
      wanting it. */
  lemma RestartKeepsItsInterface()
    ensures var cs := Pilots();
            && UniqueNames(cs) && Acyclic(cs, FilterLast) && NoRivals(cs, ActiveNames(cs))
            && Admissible(cs, [PILOT, NAVIGATOR], [PILOT], map[], map[], {}, FilterLast)
            && (forall n :: !ChangesMode(cs, [PILOT, NAVIGATOR], [PILOT], FilterLast, n))
            && InterfacesFree(cs, [PILOT, NAVIGATOR], [PILOT], {GOAL}, {GOAL}, {})
            && !NoRivals(cs, Target(cs, [PILOT, NAVIGATOR], [PILOT]))
  {
    hide Find;
    hide Share;
    hide Admissible;
    hide ChangesMode;
    var cs := Pilots();
    PilotsFacts();
    PilotsAdmissible();
    forall n
      ensures !ChangesMode(cs, [PILOT, NAVIGATOR], [PILOT], FilterLast, n)
    {
      PilotsKeepMode(n);
    }
    var activate := [PILOT, NAVIGATOR];
    assert activate[..1] == [PILOT] && [PILOT][..0] == [];
    assert CommandsOf(cs, [PILOT], [PILOT]) == [];
    assert CommandsOf(cs, activate, [PILOT]) == [GOAL];
    assert CommandsOf(cs, [PILOT], []) == [GOAL];
    assert cs[0].name in Target(cs, activate, [PILOT]) && cs[1].name in Target(cs, activate, [PILOT]);
  }

  function Convoy(): seq<Controller> { [Pilot(Inactive), Filter().(chained := false), Navigator()] }

  lemma ConvoyFacts()
    ensures UniqueNames(Convoy()) && Acyclic(Convoy(), FilterLast)
    ensures Find(Convoy(), PILOT) == 0 && Find(Convoy(), FILTER) == 1 && Find(Convoy(), NAVIGATOR) == 2
    ensures PILOT !in ActiveNames(Convoy()) && FILTER in ActiveNames(Convoy()) && NAVIGATOR in ActiveNames(Convoy())
    ensures forall i, n :: 0 <= i < 3 ==> (DependsOn(Convoy()[i], n) <==> i != 1 && n == FILTER)
  {
    hide DependsOn;
    var cs := Convoy();
    CastUnique(cs);
    assert Find(cs, cs[0].name) == 0 && Find(cs, cs[1].name) == 1 && Find(cs, cs[2].name) == 2;
    forall i, n | 0 <= i < 3
      ensures DependsOn(cs[i], n) <==> i != 1 && n == FILTER
    {
      CastDepends(Inactive, n);
      assert DependsOn(cs[1], n) == DependsOn(Filter(), n) by { ModeIsNoDependency(n); }
    }
  }

  lemma ModeIsNoDependency(n: Name)
    ensures DependsOn(Filter().(chained := false), n) == DependsOn(Filter(), n)
  {
  }

  lemma ConvoyCovered()
    ensures Covers(Convoy(), map[FILTER := [PILOT]], map[FILTER := [NAVIGATOR]])
  {
  }

  lemma ConvoyAdmissible()
    requires Acyclic(Convoy(), FilterLast)
    ensures Admissible(Convoy(), [PILOT], [], map[FILTER := [PILOT]], map[FILTER := [NAVIGATOR]], {}, FilterLast)
  {
    hide Acyclic;
    hide Find;
    hide DependsOn;
    ConvoyFacts();
    assert FollowingOk(Convoy(), [PILOT], [], 1, FilterLast);
    assert FollowingOk(Convoy(), [PILOT], [], 0, FilterLast);
  }

  /** The pilot makes the filter, and nobody else, change its chained mode. */
  lemma ConvoyChangesMode(n: Name)
    requires Acyclic(Convoy(), FilterLast)
    ensures n in [FILTER] <==> ChangesMode(Convoy(), [PILOT], [], FilterLast, n)
  {
    hide Acyclic;
    hide Find;
    var cs := Convoy();
    ConvoyFacts();
    assert InterfacesOf(cs[1]) == [] && InterfacesOf(cs[0]) == [GOAL];
    forall commanded
      ensures NewOwners(cs, [PILOT], 1, commanded, FilterLast) == {FILTER}
    {
      assert OwnersBelow(cs, 1, commanded, FilterLast) == {};
      assert OwnersVia(cs, 0, 0, commanded, FilterLast) == {FILTER};
      assert OwnersThrough(cs, 0, 0, commanded, FilterLast) == {};
      assert OwnersBelow(cs, 0, commanded, FilterLast) == {FILTER};
      assert NewOwners(cs, [PILOT], 0, commanded, FilterLast) == {};
    }
  }

  lemma ConvoyRestarts()
    ensures Restarts(Convoy(), [FILTER], []) == [FILTER]
  {
    var cs := Convoy();
    assert cs[..2][..1] == [cs[0]] && [cs[0]][..0] == [];
    assert Restarts([cs[0]], [FILTER], []) == [];
    assert Restarts(cs[..2], [FILTER], []) == [FILTER];
  }

  /** A filter that is restarted to change its chained mode, while a navigator goes on reading its
      states: when an activation fails, the navigator stays active without the filter. */
  lemma FailedRestartLeavesUserBehind()
    ensures var cs, reference, state := Convoy(), map[FILTER := [PILOT]], map[FILTER := [NAVIGATOR]];
            var r := Restarts(cs, [FILTER], []);
            && UniqueNames(cs) && Acyclic(cs, FilterLast) && ChainClosed(cs, ActiveNames(cs))
            && Covers(cs, reference, state)
            && Admissible(cs, [PILOT], [], reference, state, {}, FilterLast)
            && (forall n :: n in [FILTER] <==> ChangesMode(cs, [PILOT], [], FilterLast, n))
            && r == [FILTER]
            && !ChainClosed(cs, ActiveNames(cs) - Elements(r) - Elements([PILOT] + r))
  {
    hide DependsOn;
    hide Admissible;
    hide Covers;
    hide ChangesMode;
    ConvoyFacts();
    forall n
      ensures n in [FILTER] <==> ChangesMode(Convoy(), [PILOT], [], FilterLast, n)
    {
      ConvoyChangesMode(n);
    }
    ConvoyCovered();
    ConvoyAdmissible();
    ConvoyRestarts();
    var cs := Convoy();
    var rest := ActiveNames(cs) - Elements([FILTER]) - Elements([PILOT] + [FILTER]);
    assert cs[2].name in rest && cs[1].name !in rest && DependsOn(cs[2], cs[1].name);
  }

  // ---------------------------------------------------------------------------------------
  // An owner that is not chainable, and a first activation
  // ---------------------------------------------------------------------------------------

  function Unseen(): seq<Controller> { [Pilot(Active), Filter().(chainable := false)] }

  lemma UnseenFacts()
    ensures UniqueNames(Unseen()) && Acyclic(Unseen(), FilterLast) && ActiveNames(Unseen()) == {PILOT, FILTER}
    ensures Find(Unseen(), PILOT) == 0 && Find(Unseen(), FILTER) == 1
    ensures forall i, n :: 0 <= i < 2 ==> (DependsOn(Unseen()[i], n) <==> i == 0 && n == FILTER)
  {
    hide DependsOn;
    var cs := Unseen();
    CastUnique(cs);
    assert Find(cs, cs[0].name) == 0 && Find(cs, cs[1].name) == 1;
    forall i, n | 0 <= i < 2
      ensures DependsOn(cs[i], n) <==> i == 0 && n == FILTER
    {
      CastDepends(Active, n);
      PlainFilterDepends(n);
    }
  }

  lemma PlainFilterDepends(n: Name)
    ensures !DependsOn(Filter().(chainable := false), n)
    ensures !DependsOn(Filter().(state := Inactive, chained := false), n)
  {
  }

  lemma UnseenCovered()
    ensures Covers(Unseen(), map[FILTER := [PILOT]], map[])
  {
  }

  /** An owner that is not chainable is deactivated without a look at its users: the request is accepted,
      and the pilot stays active without the filter, whether or not another activation fails. */
  lemma UnseenOwnerLeaves()
    ensures var cs, reference := Unseen(), map[FILTER := [PILOT]];
            && UniqueNames(cs) && Acyclic(cs, FilterLast) && Covers(cs, reference, map[])
            && ChainClosed(cs, ActiveNames(cs))
            && Admissible(cs, [], [FILTER], reference, map[], {}, FilterLast)
            && Strands(cs, [], [FILTER], 0, 1) && !ChainClosed(cs, Target(cs, [], [FILTER]))
            && LeftBehind(cs, [FILTER], [], 0, 1) && !ChainClosed(cs, ActiveNames(cs) - {FILTER})
  {
    hide DependsOn;
    hide Covers;
    UnseenFacts();
    UnseenCovered();
    var cs := Unseen();
    assert Deactivatable(cs, [], [FILTER], FILTER, map[FILTER := [PILOT]], map[]);
    assert cs[0].name in Target(cs, [], [FILTER]) && cs[1].name !in Target(cs, [], [FILTER]) && DependsOn(cs[0], cs[1].name);
    assert cs[0].name in ActiveNames(cs) - {FILTER} && cs[1].name !in ActiveNames(cs) - {FILTER};
  }

  function Fresh(): seq<Controller> { [Pilot(Inactive), Filter().(state := Inactive, chained := false)] }

  lemma FreshFacts()
    ensures UniqueNames(Fresh()) && Acyclic(Fresh(), FilterLast)
    ensures Find(Fresh(), PILOT) == 0 && Find(Fresh(), FILTER) == 1
    ensures forall i, n :: 0 <= i < 2 ==> (DependsOn(Fresh()[i], n) <==> i == 0 && n == FILTER)
  {
    hide DependsOn;
    var cs := Fresh();
    CastUnique(cs);
    assert Find(cs, cs[0].name) == 0 && Find(cs, cs[1].name) == 1;
    forall i, n | 0 <= i < 2
      ensures DependsOn(cs[i], n) <==> i == 0 && n == FILTER
    {
      CastDepends(Inactive, n);
      PlainFilterDepends(n);
    }
  }

  lemma FreshAdmissible()
    requires Acyclic(Fresh(), FilterLast)
    ensures Admissible(Fresh(), [PILOT, FILTER], [], map[FILTER := [PILOT]], map[], {}, FilterLast)
  {
    hide Acyclic;
    hide Find;
    hide DependsOn;
    FreshFacts();
    assert FollowingOk(Fresh(), [PILOT, FILTER], [], 1, FilterLast);
    assert FollowingOk(Fresh(), [PILOT, FILTER], [], 0, FilterLast);
  }

  lemma FreshUnchained()
    requires Acyclic(Fresh(), FilterLast)
    ensures Unchained(Fresh(), [PILOT, FILTER], true, FilterLast) == {FILTER}
  {
    hide Acyclic;
    hide Find;
    var cs := Fresh();
    FreshFacts();
    assert InterfacesOf(cs[1]) == [] && InterfacesOf(cs[0]) == [GOAL];
    assert OwnersBelow(cs, 1, true, FilterLast) == {};
    assert OwnersVia(cs, 0, 0, true, FilterLast) == {FILTER};
    assert OwnersThrough(cs, 0, 0, true, FilterLast) == {};
    assert OwnersBelow(cs, 0, true, FilterLast) == {FILTER};
    assert NewOwners(cs, [PILOT, FILTER], 0, true, FilterLast) == {};
    assert NewOwners(cs, [PILOT, FILTER], 1, true, FilterLast) == {FILTER};
  }

  function FreshReferences(n: Name): set<Interface> { if n == FILTER then {GOAL} else {} }

  lemma FilterIsExposed()
    ensures Exposed({FILTER}, FreshReferences) == {GOAL}
  {
    assert forall k :: k in Exposed({FILTER}, FreshReferences) <==> k in FreshReferences(FILTER);
  }

  /** The first activation of a chain: the reference that the pilot needs is not available at first, and
      the interface check passes only because the chain checks have made it available. */
  lemma FirstActivationIsAccepted()
    ensures var cs := Fresh();
            && UniqueNames(cs) && Acyclic(cs, FilterLast)
            && Admissible(cs, [PILOT, FILTER], [], map[FILTER := [PILOT]], map[], {}, FilterLast)
            && Exposed(Unchained(cs, [PILOT, FILTER], true, FilterLast), FreshReferences) == {GOAL}
            && !InterfacesFree(cs, [PILOT, FILTER], [], {}, {}, {})
            && InterfacesFree(cs, [PILOT, FILTER], [], {GOAL}, {}, {})
  {
    hide Find;
    hide Admissible;
    hide Unchained;
    FreshFacts();
    FreshAdmissible();
    FreshUnchained();
    FilterIsExposed();
    var cs := Fresh();
    var activate := [PILOT, FILTER];
    assert activate[..1] == [PILOT] && [PILOT][..0] == [];
    assert CommandsOf(cs, [PILOT], []) == [GOAL];
    assert CommandsOf(cs, activate, []) == [GOAL];
    assert GOAL in [GOAL];
  }

  // ---------------------------------------------------------------------------------------
  // Who is asked to enter chained mode
  // ---------------------------------------------------------------------------------------

  /** Controllers of which each uses an interface of the next. */
  ghost predicate UseChain(cs: seq<Controller>, p: seq<nat>) {
    && (forall i :: 0 <= i < |p| ==> p[i] < |cs|)
    && (forall i {:trigger p[i]} :: 0 < i < |p| ==> DependsOn(cs[p[i - 1]], cs[p[i]].name))
  }

  /** The chain leads from controller `k` to its last but one member, which uses `n`: if `commanded`, through
      a command interface. */
  ghost predicate LeadsTo(cs: seq<Controller>, k: nat, p: seq<nat>, commanded: bool, n: Name) {
    && UseChain(cs, p) && |p| >= 2 && p[0] == k && cs[p[|p| - 1]].name == n
    && (commanded ==> Mentions(cs[p[|p| - 2]].commands, n))
  }

  ghost predicate Leads(cs: seq<Controller>, k: nat, commanded: bool, n: Name) {
    exists p :: LeadsTo(cs, k, p, commanded, n)
  }

  /** One step of such a chain. */
  ghost predicate StepLeads(cs: seq<Controller>, k: nat, j: nat, commanded: bool, n: Name)
    requires k < |cs| && j < |cs|
  {
    && DependsOn(cs[k], cs[j].name)
    && ((cs[j].name == n && (commanded ==> Mentions(cs[k].commands, n))) || Leads(cs, j, commanded, n))
  }

  lemma LeadsByStepIff(cs: seq<Controller>, k: nat, commanded: bool, n: Name)
    requires k < |cs|
    ensures Leads(cs, k, commanded, n) <==> exists j :: 0 <= j < |cs| && StepLeads(cs, k, j, commanded, n)
  {
    hide DependsOn;
    hide Mentions;
    if Leads(cs, k, commanded, n) {
      var p :| LeadsTo(cs, k, p, commanded, n);
      var j := p[1];
      if |p| > 2 {
        var rest := p[1..];
        forall i | 0 < i < |rest|
          ensures DependsOn(cs[rest[i - 1]], cs[rest[i]].name)
        {
          assert rest[i] == p[i + 1] && rest[i - 1] == p[i];
        }
        assert LeadsTo(cs, j, rest, commanded, n);
      }
      assert StepLeads(cs, k, j, commanded, n);
    }
    if j :| 0 <= j < |cs| && StepLeads(cs, k, j, commanded, n) {
      if cs[j].name == n && (commanded ==> Mentions(cs[k].commands, n)) {
        assert LeadsTo(cs, k, [k, j], commanded, n);
      } else {
        var p :| LeadsTo(cs, j, p, commanded, n);
        var longer := [k] + p;
        forall i | 0 < i < |longer|
          ensures DependsOn(cs[longer[i - 1]], cs[longer[i]].name)
        {
          assert longer[i] == p[i - 1] && (i > 1 ==> longer[i - 1] == p[i - 2]);
        }
        assert LeadsTo(cs, k, longer, commanded, n);
      }
    }
  }

  /** The owners below a controller are those that a chain of uses leads to. */
  lemma {:induction false} OwnersBelowIff(cs: seq<Controller>, k: nat, commanded: bool, rank: Name -> nat, n: Name)
    requires UniqueNames(cs) && Acyclic(cs, rank) && k < |cs|
    ensures n in OwnersBelow(cs, k, commanded, rank) <==> Leads(cs, k, commanded, n)
    decreases rank(cs[k].name)
  {
    hide Leads;
    hide UniqueNames;
    forall j | 0 <= j < |cs| && DependsOn(cs[k], cs[j].name)
      ensures n in OwnersBelow(cs, j, commanded, rank) <==> Leads(cs, j, commanded, n)
    {
      OwnersBelowIff(cs, j, commanded, rank, n);
    }
    OwnersThroughIff(cs, k, |InterfacesOf(cs[k])|, commanded, rank, n);
    LeadsByStepIff(cs, k, commanded, n);
    StepsByInterface(cs, k, commanded, n);
  }

  /** The interface leads to the owner `n`, directly or by way of its own owner. */
  ghost predicate Brings(cs: seq<Controller>, k: nat, p: nat, commanded: bool, n: Name)
    requires k < |cs| && p < |InterfacesOf(cs[k])|
  {
    var key := InterfacesOf(cs[k])[p];
    && Loaded(cs, key.owner)
    && ((key.owner == n && (commanded ==> key in cs[k].commands)) || Leads(cs, Find(cs, key.owner), commanded, n))
  }

  lemma {:induction false} OwnersThroughIff(cs: seq<Controller>, k: nat, m: nat, commanded: bool, rank: Name -> nat, n: Name)
    requires Acyclic(cs, rank) && k < |cs| && m <= |InterfacesOf(cs[k])|
    requires forall j :: 0 <= j < |cs| && DependsOn(cs[k], cs[j].name)
                         ==> (n in OwnersBelow(cs, j, commanded, rank) <==> Leads(cs, j, commanded, n))
    ensures n in OwnersThrough(cs, k, m, commanded, rank) <==> exists p :: 0 <= p < m && Brings(cs, k, p, commanded, n)
  {
    hide Leads;
    hide Brings;
    hide OwnersVia;
    hide OwnersBelow;
    hide Acyclic;
    hide DependsOn;
    if m > 0 {
      OwnersThroughIff(cs, k, m - 1, commanded, rank, n);
      OwnersViaIff(cs, k, m - 1, commanded, rank, n);
    }
  }

  lemma OwnersViaIff(cs: seq<Controller>, k: nat, p: nat, commanded: bool, rank: Name -> nat, n: Name)
    requires Acyclic(cs, rank) && k < |cs| && p < |InterfacesOf(cs[k])|
    requires forall j :: 0 <= j < |cs| && DependsOn(cs[k], cs[j].name)
                         ==> (n in OwnersBelow(cs, j, commanded, rank) <==> Leads(cs, j, commanded, n))
    ensures n in OwnersVia(cs, k, p, commanded, rank) <==> Brings(cs, k, p, commanded, n)
  {
    hide Leads;
    hide OwnersBelow;
    hide Acyclic;
    var key := InterfacesOf(cs[k])[p];
    if Loaded(cs, key.owner) {
      InterfaceIsDependency(cs[k], InterfacesOf(cs[k]), p);
      assert DependsOn(cs[k], cs[Find(cs, key.owner)].name);
    }
  }

  lemma StepsByInterface(cs: seq<Controller>, k: nat, commanded: bool, n: Name)
    requires UniqueNames(cs) && k < |cs|
    ensures (exists p :: 0 <= p < |InterfacesOf(cs[k])| && Brings(cs, k, p, commanded, n))
            <==> exists j :: 0 <= j < |cs| && StepLeads(cs, k, j, commanded, n)
  {
    hide Leads;
    hide UniqueNames;
    var all := InterfacesOf(cs[k]);
    if p :| 0 <= p < |all| && Brings(cs, k, p, commanded, n) {
      var j := Find(cs, all[p].owner);
      InterfaceIsDependency(cs[k], all, p);
      if all[p] in cs[k].commands {
        MentionsIn(cs[k].commands, all[p]);
      }
      assert StepLeads(cs, k, j, commanded, n);
    }
    if j :| 0 <= j < |cs| && StepLeads(cs, k, j, commanded, n) {
      FindUnique(cs, j);
      var commands := Mentions(cs[k].commands, cs[j].name);
      var q := MentionedAt(if commands then cs[k].commands else cs[k].states, cs[j].name);
      var p := if commands then q else |cs[k].commands| + q;
      assert all[p].owner == cs[j].name && (commands ==> all[p] == cs[k].commands[q]);
      assert Brings(cs, k, p, commanded, n);
    }
  }

  lemma MentionsIn(interfaces: seq<Interface>, x: Interface)
    requires x in interfaces
    ensures Mentions(interfaces, x.owner)
  {
  }

  lemma MentionedAt(interfaces: seq<Interface>, owner: Name) returns (q: nat)
    requires Mentions(interfaces, owner)
    ensures q < |interfaces| && interfaces[q].owner == owner
  {
    q :| 0 <= q < |interfaces| && interfaces[q].owner == owner;
  }

  /** An owner is asked to enter chained mode exactly if it is not in it, and a chain of uses leads from an
      inactive listed controller to a user of one of its command interfaces. */
  lemma EntersChainedModeIff(cs: seq<Controller>, activate: seq<Name>, rank: Name -> nat, n: Name)
    requires UniqueNames(cs) && Acyclic(cs, rank)
    ensures EntersChainedMode(cs, activate, rank, n)
            <==> !IsChained(cs, n)
                 && exists i :: 0 <= i < |cs| && cs[i].name in activate && cs[i].state == Inactive && Leads(cs, i, true, n)
  {
    hide Leads;
    NewOwnersIff(cs, activate, |activate|, true, rank, n);
    assert activate[..|activate|] == activate;
  }

  lemma {:induction false} NewOwnersIff(cs: seq<Controller>, list: seq<Name>, m: nat, commanded: bool, rank: Name -> nat, n: Name)
    requires UniqueNames(cs) && Acyclic(cs, rank) && m <= |list|
    ensures n in NewOwners(cs, list, m, commanded, rank)
            <==> exists i :: 0 <= i < |cs| && cs[i].name in list[..m] && cs[i].state == Inactive && Leads(cs, i, commanded, n)
  {
    hide Leads;
    hide OwnersBelow;
    hide Acyclic;
    hide UniqueNames;
    if m > 0 {
      NewOwnersIff(cs, list, m - 1, commanded, rank, n);
      assert list[..m] == list[..m - 1] + [list[m - 1]];
      var k := Find(cs, list[m - 1]);
      if k < |cs| {
        OwnersBelowIff(cs, k, commanded, rank, n);
      }
      forall i | 0 <= i < |cs|
        ensures cs[i].name == list[m - 1] <==> i == k
      {
        FindUnique(cs, i);
      }
    }
  }
}
