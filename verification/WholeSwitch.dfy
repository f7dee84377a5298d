/** A STRICT switch from the request to its outcome: what the plan promises, the execution delivers. */
module WholeSwitch {
  import opened Names
  import opened Controllers
  import opened ChainBookkeeping
  import opened SwitchPlan
  import opened SwitchClaims
  import opened Activation
  import opened UpdateCycle

  /** Every command interface is listed once, as configuring a controller demands. */
  ghost predicate ListsUnique(cs: seq<Controller>) {
    forall i :: 0 <= i < |cs| ==> Unique(cs[i].commands)
  }

  ghost predicate NobodyStranded(cs: seq<Controller>, activate: seq<Name>, deactivate: seq<Name>) {
    forall i, j :: 0 <= i < |cs| && 0 <= j < |cs| ==> !Strands(cs, activate, deactivate, i, j)
  }

  ghost predicate NobodyLeftBehind(cs: seq<Controller>, deactivate: seq<Name>, restarts: seq<Name>) {
    forall i, j :: 0 <= i < |cs| && 0 <= j < |cs| ==> !LeftBehind(cs, deactivate, restarts, i, j)
  }

  /** The references, and the states, that a controller exports. */
  function ReferencesIn(hs: seq<Holder>): Name -> set<Interface> {
    n => if FindHolder(hs, n) < |hs| then Elements(hs[FindHolder(hs, n)].references) else {}
  }

  function ExportedIn(hs: seq<Holder>): Name -> set<Interface> {
    n => if FindHolder(hs, n) < |hs| then Elements(hs[FindHolder(hs, n)].exported) else {}
  }

  /** An active controller that is not deactivated changes its chained mode. */
  ghost predicate MustRestart(cs: seq<Controller>, activate: seq<Name>, deactivate: seq<Name>, rank: Name -> nat, n: Name)
    requires Acyclic(cs, rank)
  {
    && (exists i :: 0 <= i < |cs| && cs[i].name == n && cs[i].state == Active)
    && n !in deactivate && ChangesMode(cs, activate, deactivate, rank, n)
  }

  /** The chained mode of controller `i` after an executed plan. Only the owner of a command interface below
      a newly activated controller gains it; only one whose user is deactivated, or that is itself
      deactivated, restarted or rolled back, loses it. Where the plug-in agrees to everything and no rollback
      intervenes, a controller that does not stay active throughout is in chained mode if and only if it is
      not asked to leave and was asked to enter, or was in it without being stopped. */
  ghost predicate ModeFollows(cs: seq<Controller>, after: Controller, i: nat, activate: seq<Name>, deactivate: seq<Name>,
                              restarts: seq<Name>, plugins: Plugins, ok: bool, rank: Name -> nat)
    requires Acyclic(cs, rank) && i < |cs|
  {
    var before, n := cs[i], cs[i].name;
    var kept := before.state == Active && n !in deactivate + restarts;
    && (after.chained && !before.chained ==> before.chainable && !kept && EntersChainedMode(cs, activate, rank, n))
    && (before.chained && !after.chained ==>
          before.chainable && (LeavesChainedMode(cs, activate, deactivate, rank, n) || n in deactivate + restarts || (!ok && n in activate)))
    && (before.chainable && n in plugins.agreeing && !kept && (ok || n !in activate + restarts) ==>
          (after.chained <==> !LeavesChainedMode(cs, activate, deactivate, rank, n)
                              && (EntersChainedMode(cs, activate, rank, n) || (before.chained && before.state != Active))))
  }

  /** Nothing but the plan decides: the plug-ins of all listed controllers do as they are asked, exported
      interfaces have their controller as owner, those that active controllers use are available, and the
      request strands nobody. */
  ghost predicate Smooth(hs: seq<Holder>, activate: seq<Name>, deactivate: seq<Name>, restarts: seq<Name>,
                         available: set<Interface>, availableStates: set<Interface>, plugins: Plugins) {
    && (forall n :: n in activate + restarts ==> n in plugins.willing)
    && (forall i, x :: 0 <= i < |hs| && (x in hs[i].references || x in hs[i].exported) ==> x.owner == hs[i].c.name)
    && (forall i, x :: 0 <= i < |hs| && hs[i].c.state == Active && x in hs[i].c.commands ==> x in available)
    && (forall i, x :: 0 <= i < |hs| && hs[i].c.state == Active && x in hs[i].c.states ==> x in availableStates)
    && NobodyStranded(Specs(hs), activate, deactivate)
  }

  /** switch_controller_cb and the manage_switch that serves it. An accepted plan that succeeds leaves
      exactly the target active, which is closed under chain dependencies exactly when the request strands
      nobody; one that fails leaves exactly those active that were not listed, which are closed exactly
      when nobody is left behind. And when the target has no rivals for a command interface, no interface
      is granted twice, whatever happens to its availability. `performed` is the answer of
      perform_command_mode_switch. */
  method Switch(params: SwitchParams, sw: Switcher, activate: seq<Name>, deactivate: seq<Name>, reference: Cache,
                state: Cache, rejected: set<Name>, hardwareAccepts: bool, performed: bool, ghost rank: Name -> nat)
    returns (v: Verdict, ok: bool, ghost restarts: seq<Name>)
    requires params.Empty() && sw.Whole() && !sw.doubled && Acyclic(Specs(sw.holders), rank)
    requires Covers(Specs(sw.holders), reference, state)
    requires ChainClosed(Specs(sw.holders), ActiveNames(Specs(sw.holders)))
    modifies params, sw
    ensures sw.Whole() && IsOutcome(old(Specs(sw.holders)), Specs(sw.holders))
    ensures v == Planned <==>
              && (activate != [] || deactivate != []) && hardwareAccepts
              && Admissible(old(Specs(sw.holders)), activate, deactivate, reference, state, rejected, rank)
              && InterfacesFree(
                   old(Specs(sw.holders)), activate + restarts, deactivate + restarts,
                   old(sw.available) + Exposed(Unchained(old(Specs(sw.holders)), activate, true, rank), ReferencesIn(old(sw.holders))),
                   old(sw.claimed),
                   old(sw.availableStates) + Exposed(Unchained(old(Specs(sw.holders)), activate, false, rank), ExportedIn(old(sw.holders))))
    ensures Admissible(old(Specs(sw.holders)), activate, deactivate, reference, state, rejected, rank) ==>
              forall n :: n in restarts <==> MustRestart(old(Specs(sw.holders)), activate, deactivate, rank, n)
    ensures v != Planned || !performed ==> !ok && sw.holders == old(sw.holders)
    ensures v == Planned && performed && ok ==>
              && ActiveNames(Specs(sw.holders)) == Target(old(Specs(sw.holders)), activate, deactivate)
              && (ChainClosed(Specs(sw.holders), ActiveNames(Specs(sw.holders)))
                  <==> NobodyStranded(old(Specs(sw.holders)), activate, deactivate))
    ensures v == Planned && performed && !ok ==>
              && ActiveNames(Specs(sw.holders))
                 == ActiveNames(old(Specs(sw.holders))) - Elements(deactivate + restarts) - Elements(activate + restarts)
              && (ChainClosed(Specs(sw.holders), ActiveNames(Specs(sw.holders)))
                  <==> NobodyLeftBehind(old(Specs(sw.holders)), deactivate, restarts))
    ensures v == Planned && Unique(activate + restarts) && ListsUnique(old(Specs(sw.holders)))
            && NoRivals(old(Specs(sw.holders)), Target(old(Specs(sw.holders)), activate, deactivate))
            ==> !sw.doubled
    ensures (v == Planned && performed && sw.quiet && Unique(activate + restarts) && ListsUnique(old(Specs(sw.holders)))
             && NoRivals(old(Specs(sw.holders)), Target(old(Specs(sw.holders)), activate, deactivate))
             && Smooth(old(sw.holders), activate, deactivate, restarts, old(sw.available), old(sw.availableStates), sw.plugins))
            ==> ok
    ensures v == Planned && performed ==> forall i :: 0 <= i < |sw.holders| ==>
              ModeFollows(old(Specs(sw.holders)), Specs(sw.holders)[i], i, activate, deactivate, restarts, sw.plugins, ok, rank)
  {
    hide Admissible;
    hide Acyclic;
    hide Covers;
    hide ChainClosed;
    hide InterfacesFree;
    hide LoansMatch;
    hide NoRivals;
    hide UniqueNames;
    hide Target;
    hide ChangesMode;
    hide Exposed;
    hide Unchained;
    hide Restarts;
    hide NobodyStranded;
    hide NobodyLeftBehind;
    hide ModeFollows;
    hide Smooth;
    hide EntersChainedMode;
    hide LeavesChainedMode;
    ghost var hs := sw.holders;
    ghost var cs := Specs(hs);
    NamesOfSpecs(hs);
    ghost var changing;
    v, changing := params.PlanSwitch(Specs(sw.holders), activate, deactivate, reference, state, rejected,
                                     sw.available, sw.claimed, sw.availableStates,
                                     ReferencesIn(sw.holders), ExportedIn(sw.holders), hardwareAccepts, rank);
    sw.available := sw.available + Exposed(params.exposedReferences, ReferencesIn(sw.holders));
    sw.availableStates := sw.availableStates + Exposed(params.exposedStates, ExportedIn(sw.holders));
    restarts := Restarts(cs, changing, deactivate);
    ok := false;
    forall n
      ensures n in restarts <==> exists i :: 0 <= i < |cs| && cs[i].name == n && Restarted(cs[i], changing, deactivate)
    {
      InRestarts(cs, changing, deactivate, n);
    }
    if v == Planned {
      SmoothGrows(hs, activate, deactivate, restarts, old(sw.available), old(sw.availableStates),
                  sw.available, sw.availableStates, sw.plugins);
      ok := Execute(params, sw, activate, deactivate, changing, reference, state, rejected, performed, rank);
    } else {
      NobodyChanged(hs);
    }
  }

  lemma SmoothGrows(hs: seq<Holder>, activate: seq<Name>, deactivate: seq<Name>, restarts: seq<Name>,
                    available: set<Interface>, availableStates: set<Interface>,
                    available': set<Interface>, availableStates': set<Interface>, plugins: Plugins)
    requires available <= available' && availableStates <= availableStates'
    ensures Smooth(hs, activate, deactivate, restarts, available, availableStates, plugins)
            ==> Smooth(hs, activate, deactivate, restarts, available', availableStates', plugins)
  {
    hide NobodyStranded;
  }

  /** manage_switch for a planned request. */
  method Execute(params: SwitchParams, sw: Switcher, ghost activate: seq<Name>, ghost deactivate: seq<Name>,
                 ghost changing: seq<Name>, ghost reference: Cache, ghost state: Cache, ghost rejected: set<Name>,
                 performed: bool, ghost rank: Name -> nat)
    returns (ok: bool)
    requires sw.Whole() && !sw.doubled && Acyclic(Specs(sw.holders), rank) && UniqueNames(Specs(sw.holders))
    requires Covers(Specs(sw.holders), reference, state)
    requires ChainClosed(Specs(sw.holders), ActiveNames(Specs(sw.holders)))
    requires Admissible(Specs(sw.holders), activate, deactivate, reference, state, rejected, rank)
    requires params.activateRequest == activate + Restarts(Specs(sw.holders), changing, deactivate)
    requires params.deactivateRequest == deactivate + Restarts(Specs(sw.holders), changing, deactivate)
    requires forall n :: n in params.toChainedModeRequest <==> EntersChainedMode(Specs(sw.holders), activate, rank, n)
    requires forall n :: n in params.fromChainedModeRequest <==> LeavesChainedMode(Specs(sw.holders), activate, deactivate, rank, n)
    modifies sw
    ensures sw.Whole() && IsOutcome(old(Specs(sw.holders)), Specs(sw.holders))
    ensures !performed ==> !ok && sw.holders == old(sw.holders)
    ensures performed && ok ==>
              && ActiveNames(Specs(sw.holders)) == Target(old(Specs(sw.holders)), activate, deactivate)
              && (ChainClosed(Specs(sw.holders), ActiveNames(Specs(sw.holders)))
                  <==> NobodyStranded(old(Specs(sw.holders)), activate, deactivate))
    ensures performed && !ok ==>
              var restarts := Restarts(old(Specs(sw.holders)), changing, deactivate);
              && ActiveNames(Specs(sw.holders))
                 == ActiveNames(old(Specs(sw.holders))) - Elements(deactivate + restarts) - Elements(activate + restarts)
              && (ChainClosed(Specs(sw.holders), ActiveNames(Specs(sw.holders)))
                  <==> NobodyLeftBehind(old(Specs(sw.holders)), deactivate, restarts))
    ensures Unique(params.activateRequest) && ListsUnique(old(Specs(sw.holders)))
            && NoRivals(old(Specs(sw.holders)), Target(old(Specs(sw.holders)), activate, deactivate))
            ==> !sw.doubled
    ensures (performed && sw.quiet && Unique(params.activateRequest) && ListsUnique(old(Specs(sw.holders)))
             && NoRivals(old(Specs(sw.holders)), Target(old(Specs(sw.holders)), activate, deactivate))
             && Smooth(old(sw.holders), activate, deactivate, Restarts(old(Specs(sw.holders)), changing, deactivate), old(sw.available), old(sw.availableStates), sw.plugins)
             && InterfacesFree(old(Specs(sw.holders)), params.activateRequest, params.deactivateRequest,
                               old(sw.available), old(sw.claimed), old(sw.availableStates)))
            ==> ok
    ensures performed ==> forall i :: 0 <= i < |sw.holders| ==>
              ModeFollows(old(Specs(sw.holders)), Specs(sw.holders)[i], i, activate, deactivate,
                          Restarts(old(Specs(sw.holders)), changing, deactivate), sw.plugins, ok, rank)
  {
    hide Admissible;
    hide Acyclic;
    hide Covers;
    hide ChainClosed;
    hide LoansMatch;
    hide NoRivals;
    hide UniqueNames;
    hide Target;
    ghost var hs := sw.holders;
    ghost var cs := Specs(hs);
    ghost var restarts := Restarts(cs, changing, deactivate);
    ghost var offered, claimed, offeredStates := sw.available, sw.claimed, sw.availableStates;
    hide InterfacesFree;
    hide Smooth;
    hide PlanStartable;
    hide PlanUncontended;
    hide StaysOffered;
    hide StateStaysOffered;
    hide EntersChainedMode;
    hide LeavesChainedMode;
    ok := sw.ManageSwitch(params.activateRequest, params.deactivateRequest, params.toChainedModeRequest,
                          params.fromChainedModeRequest, true, performed);
    SpecsAreOutcome(hs, sw.holders);
    forall i | 0 <= i < |sw.holders| && performed
      ensures ModeFollows(cs, Specs(sw.holders)[i], i, activate, deactivate, restarts, sw.plugins, ok, rank)
    {
      assert SameController(sw.holders[i], hs[i]);
    }
    hide NobodyStranded;
    hide NobodyLeftBehind;
    if performed {
      OutcomeSets(hs, sw.holders, activate, deactivate, changing, reference, state, rejected, rank, ok);
    }
    if Unique(activate + restarts) && ListsUnique(cs) && NoRivals(cs, Target(cs, activate, deactivate)) {
      TargetIsUncontended(hs, activate, deactivate, changing, reference, state, rejected, rank);
    }
    if InterfacesFree(cs, activate + restarts, deactivate + restarts, offered, claimed, offeredStates)
       && Smooth(hs, activate, deactivate, restarts, offered, offeredStates, sw.plugins) {
      SmoothIsStartable(hs, activate, deactivate, changing, reference, state, rejected, rank, offered, claimed, offeredStates, sw.plugins);
    }
  }

  /** Who is active after an executed plan, and whether they form whole chains. */
  lemma OutcomeSets(hs: seq<Holder>, hs': seq<Holder>, activate: seq<Name>, deactivate: seq<Name>, changing: seq<Name>,
                    reference: Cache, state: Cache, rejected: set<Name>, rank: Name -> nat, ok: bool)
    requires UniqueNames(Specs(hs)) && Acyclic(Specs(hs), rank) && Covers(Specs(hs), reference, state)
    requires Unique(HolderNames(hs)) && HolderNames(hs') == HolderNames(hs) && IsOutcome(Specs(hs), Specs(hs'))
    requires ChainClosed(Specs(hs), ActiveNames(Specs(hs)))
    requires Admissible(Specs(hs), activate, deactivate, reference, state, rejected, rank)
    requires var r := Restarts(Specs(hs), changing, deactivate);
             forall i :: 0 <= i < |hs'| ==>
               (hs'[i].c.state == Active <==>
                 if ok then hs'[i].c.name in activate + r || (hs[i].c.state == Active && hs'[i].c.name !in deactivate + r)
                 else hs[i].c.state == Active && hs'[i].c.name !in deactivate + r && hs'[i].c.name !in activate + r)
    ensures ok ==> && ActiveNames(Specs(hs')) == Target(Specs(hs), activate, deactivate)
                   && (ChainClosed(Specs(hs'), ActiveNames(Specs(hs'))) <==> NobodyStranded(Specs(hs), activate, deactivate))
    ensures var r := Restarts(Specs(hs), changing, deactivate);
            !ok ==> && ActiveNames(Specs(hs')) == ActiveNames(Specs(hs)) - Elements(deactivate + r) - Elements(activate + r)
                    && (ChainClosed(Specs(hs'), ActiveNames(Specs(hs'))) <==> NobodyLeftBehind(Specs(hs), deactivate, r))
  {
    hide Admissible;
    hide Acyclic;
    hide Covers;
    hide ChainClosed;
    hide UniqueNames;
    hide Target;
    var cs := Specs(hs);
    var r := Restarts(cs, changing, deactivate);
    SameChains(cs, Specs(hs'), ActiveNames(Specs(hs')));
    AcceptedPlanClosedIff(cs, activate, deactivate, changing, reference, state, rejected, rank);
    RollbackClosedIff(cs, activate, deactivate, changing, reference, state, rejected, rank);
    RestartsKeepTarget(cs, activate, deactivate, changing);
    ListedAreLoaded(cs, activate, deactivate, changing, reference, state, rejected, rank);
    if ok {
      ActiveIsTarget(hs, hs', activate + r, deactivate + r);
    } else {
      ActiveIsRest(hs, hs', activate + r, deactivate + r);
    }
  }

  /** An accepted plan with nothing in its way: whoever is activated finds all its interfaces. */
  lemma SmoothIsStartable(hs: seq<Holder>, activate: seq<Name>, deactivate: seq<Name>, changing: seq<Name>,
                          reference: Cache, state: Cache, rejected: set<Name>, rank: Name -> nat,
                          available: set<Interface>, claimed: set<Interface>, availableStates: set<Interface>, plugins: Plugins)
    requires UniqueNames(Specs(hs)) && Acyclic(Specs(hs), rank) && Covers(Specs(hs), reference, state)
    requires ChainClosed(Specs(hs), ActiveNames(Specs(hs)))
    requires Admissible(Specs(hs), activate, deactivate, reference, state, rejected, rank)
    requires var r := Restarts(Specs(hs), changing, deactivate);
             && InterfacesFree(Specs(hs), activate + r, deactivate + r, available, claimed, availableStates)
             && Smooth(hs, activate, deactivate, r, available, availableStates, plugins)
    ensures var r := Restarts(Specs(hs), changing, deactivate);
            PlanStartable(hs, activate + r, deactivate + r, available, availableStates, plugins)
  {
    hide Admissible;
    hide Acyclic;
    hide Covers;
    hide UniqueNames;
    hide InterfacesFree;
    hide ChainClosed;
    hide StaysOffered;
    hide StateStaysOffered;
    hide Conflict;
    hide Strands;
    hide Target;
    hide Stopping;
    var cs := Specs(hs);
    AcceptedPlanClosedIff(cs, activate, deactivate, changing, reference, state, rejected, rank);
    AdmissibleHasNoConflict(cs, activate, deactivate, changing, reference, state, rejected, rank);
    var r := Restarts(cs, changing, deactivate);
    hide Restarts;
    forall i | 0 <= i < |hs| && hs[i].c.name in activate + r
      ensures hs[i].c.state == Inactive || Stopping(hs[i], deactivate + r)
      ensures forall x :: x in hs[i].c.commands ==> StaysOffered(hs, activate + r, deactivate + r, x, x in available)
      ensures forall x :: x in hs[i].c.states ==> StateStaysOffered(hs, activate + r, deactivate + r, x, x in availableStates)
    {
      ListedCanStart(hs, activate, deactivate, changing, i, available, claimed, availableStates);
      InterfacesStay(hs, activate + r, deactivate + r, i, available, availableStates);
    }
  }

  lemma ListedCanStart(hs: seq<Holder>, activate: seq<Name>, deactivate: seq<Name>, changing: seq<Name>, i: nat,
                       available: set<Interface>, claimed: set<Interface>, availableStates: set<Interface>)
    requires i < |hs| && UniqueNames(Specs(hs)) && !Conflict(Specs(hs)[i], activate, deactivate, changing)
    requires var r := Restarts(Specs(hs), changing, deactivate);
             hs[i].c.name in activate + r && InterfacesFree(Specs(hs), activate + r, deactivate + r, available, claimed, availableStates)
    requires hs[i].c.state == Active ==> forall x :: x in hs[i].c.commands ==> x in available
    requires hs[i].c.state == Active ==> forall x :: x in hs[i].c.states ==> x in availableStates
    ensures hs[i].c.state == Inactive || Stopping(hs[i], deactivate + Restarts(Specs(hs), changing, deactivate))
    ensures forall x :: x in hs[i].c.commands ==> x in available
    ensures forall x :: x in hs[i].c.states ==> x in availableStates
  {
    hide InterfacesFree;
    var cs := Specs(hs);
    FindUnique(cs, i);
    InRestarts(cs, changing, deactivate, cs[i].name);
    if k :| 0 <= k < |cs| && cs[k].name == cs[i].name && Restarted(cs[k], changing, deactivate) {
      FindUnique(cs, k);
    }
    if hs[i].c.state != Active {
      var r := Restarts(cs, changing, deactivate);
      NewFindsInterfaces(cs, activate + r, deactivate + r, available, claimed, availableStates, i);
    }
  }

  lemma NewFindsInterfaces(cs: seq<Controller>, a: seq<Name>, d: seq<Name>,
                           available: set<Interface>, claimed: set<Interface>, availableStates: set<Interface>, i: nat)
    requires InterfacesFree(cs, a, d, available, claimed, availableStates)
    requires i < |cs| && cs[i].name in a && cs[i].name !in d && Find(cs, cs[i].name) == i
    ensures forall x :: x in cs[i].commands ==> x in available
    ensures forall x :: x in cs[i].states ==> x in availableStates
  {
    forall x | x in cs[i].commands
      ensures x in available
    {
      InCommandsOf(cs, a, d, x);
    }
  }

  lemma InterfacesStay(hs: seq<Holder>, a: seq<Name>, d: seq<Name>, i: nat, available: set<Interface>, availableStates: set<Interface>)
    requires i < |hs| && hs[i].c.name in a && ChainClosed(Specs(hs), Target(Specs(hs), a, d)) && UniqueNames(Specs(hs))
    requires forall j, y :: 0 <= j < |hs| && (y in hs[j].references || y in hs[j].exported) ==> y.owner == hs[j].c.name
    requires forall x :: x in hs[i].c.commands ==> x in available
    requires forall x :: x in hs[i].c.states ==> x in availableStates
    ensures forall x :: x in hs[i].c.commands ==> StaysOffered(hs, a, d, x, x in available)
    ensures forall x :: x in hs[i].c.states ==> StateStaysOffered(hs, a, d, x, x in availableStates)
  {
    hide ChainClosed;
    hide StoppedExport;
    hide StoppedState;
    hide StartedExport;
    hide StartedState;
    forall x | x in hs[i].c.commands || x in hs[i].c.states
      ensures StoppedExport(hs, d, x) ==> StartedExport(hs, a, x)
      ensures StoppedState(hs, d, x) ==> StartedState(hs, a, x)
    {
      OwnerStaysOffered(hs, a, d, i, x);
    }
  }

  /** In a closed target the owner of an interface that a member uses is stopped only to be restarted. */
  lemma OwnerStaysOffered(hs: seq<Holder>, a: seq<Name>, d: seq<Name>, i: nat, x: Interface)
    requires i < |hs| && hs[i].c.name in a && ChainClosed(Specs(hs), Target(Specs(hs), a, d)) && UniqueNames(Specs(hs))
    requires forall j, y :: 0 <= j < |hs| && (y in hs[j].references || y in hs[j].exported) ==> y.owner == hs[j].c.name
    requires x in hs[i].c.commands || x in hs[i].c.states
    ensures StoppedExport(hs, d, x) ==> StartedExport(hs, a, x)
    ensures StoppedState(hs, d, x) ==> StartedState(hs, a, x)
  {
    var cs := Specs(hs);
    forall j | 0 <= j < |hs| && Stopping(hs[j], d) && x.owner == hs[j].c.name
      ensures hs[j].c.name in a
    {
      assert DependsOn(cs[i], cs[j].name);
      assert cs[i].name in Target(cs, a, d);
      assert cs[j].name in Target(cs, a, d) && cs[j].name in Elements(d);
    }
  }

  lemma SpecsAreOutcome(hs: seq<Holder>, hs': seq<Holder>)
    requires HolderNames(hs') == HolderNames(hs)
    requires forall i :: 0 <= i < |hs'| ==> i < |hs| && SameController(hs'[i], hs[i])
    ensures IsOutcome(Specs(hs), Specs(hs'))
  {
    assert |hs'| == |HolderNames(hs')| == |hs|;
  }

  lemma NobodyChanged(hs: seq<Holder>)
    ensures IsOutcome(Specs(hs), Specs(hs))
  {
  }

  /** Who depends on whom does not change. */
  lemma SameChains(cs: seq<Controller>, cs': seq<Controller>, s: set<Name>)
    requires IsOutcome(cs, cs')
    ensures ChainClosed(cs', s) <==> ChainClosed(cs, s)
  {
    forall i, j | 0 <= i < |cs| && 0 <= j < |cs|
      ensures DependsOn(cs'[i], cs'[j].name) == DependsOn(cs[i], cs[j].name)
    {
      assert OnlySwitched(cs[i], cs'[i]) && OnlySwitched(cs[j], cs'[j]);
    }
    assert forall i :: 0 <= i < |cs| ==> OnlySwitched(cs[i], cs'[i]) && cs'[i].name == cs[i].name;
  }

  lemma ListedAreLoaded(cs: seq<Controller>, activate: seq<Name>, deactivate: seq<Name>, changing: seq<Name>,
                        reference: Cache, state: Cache, rejected: set<Name>, rank: Name -> nat)
    requires UniqueNames(cs) && Acyclic(cs, rank)
    requires Admissible(cs, activate, deactivate, reference, state, rejected, rank)
    ensures forall n :: n in activate + Restarts(cs, changing, deactivate) ==> exists i :: 0 <= i < |cs| && cs[i].name == n
  {
    hide Acyclic;
    hide ActivationOk;
    forall n | n in activate
      ensures exists i :: 0 <= i < |cs| && cs[i].name == n
    {
      assert Activatable(cs, activate, deactivate, n, rejected, rank);
      assert cs[Find(cs, n)].name == n;
    }
  }

  lemma ActiveIsTarget(hs: seq<Holder>, hs': seq<Holder>, activate: seq<Name>, deactivate: seq<Name>)
    requires HolderNames(hs') == HolderNames(hs) && |hs'| == |hs|
    requires forall n :: n in activate ==> exists i :: 0 <= i < |Specs(hs)| && Specs(hs)[i].name == n
    requires forall i :: 0 <= i < |hs'| ==>
               (hs'[i].c.state == Active <==>
                 hs'[i].c.name in activate || (hs[i].c.state == Active && hs'[i].c.name !in deactivate))
    requires Unique(HolderNames(hs))
    ensures ActiveNames(Specs(hs')) == Target(Specs(hs), activate, deactivate)
  {
    SameNames(hs, hs');
    NamesOfSpecs(hs);
    NamesOfSpecs(hs');
    forall n
      ensures n in ActiveNames(Specs(hs')) <==> n in Target(Specs(hs), activate, deactivate)
    {
      if i :| 0 <= i < |hs| && hs[i].c.name == n {
        ActiveByIndex(Specs(hs), i);
        ActiveByIndex(Specs(hs'), i);
      }
    }
  }

  lemma ActiveIsRest(hs: seq<Holder>, hs': seq<Holder>, activate: seq<Name>, deactivate: seq<Name>)
    requires HolderNames(hs') == HolderNames(hs) && |hs'| == |hs|
    requires forall i :: 0 <= i < |hs'| ==>
               (hs'[i].c.state == Active <==>
                 hs[i].c.state == Active && hs'[i].c.name !in deactivate && hs'[i].c.name !in activate)
    requires Unique(HolderNames(hs))
    ensures ActiveNames(Specs(hs')) == ActiveNames(Specs(hs)) - Elements(deactivate) - Elements(activate)
  {
    SameNames(hs, hs');
    NamesOfSpecs(hs);
    NamesOfSpecs(hs');
    forall n
      ensures n in ActiveNames(Specs(hs')) <==> n in ActiveNames(Specs(hs)) && n !in deactivate && n !in activate
    {
      if i :| 0 <= i < |hs| && hs[i].c.name == n {
        ActiveByIndex(Specs(hs), i);
        ActiveByIndex(Specs(hs'), i);
      }
    }
  }

  lemma SameNames(hs: seq<Holder>, hs': seq<Holder>)
    requires HolderNames(hs') == HolderNames(hs) && |hs'| == |hs|
    ensures forall i :: 0 <= i < |hs| ==> hs'[i].c.name == hs[i].c.name
  {
    assert forall i :: 0 <= i < |hs| ==> HolderNames(hs')[i] == HolderNames(hs)[i];
  }

  /** A target without rivals is a plan without contention. */
  lemma TargetIsUncontended(hs: seq<Holder>, activate: seq<Name>, deactivate: seq<Name>, changing: seq<Name>,
                            reference: Cache, state: Cache, rejected: set<Name>, rank: Name -> nat)
    requires UniqueNames(Specs(hs)) && Acyclic(Specs(hs), rank)
    requires Admissible(Specs(hs), activate, deactivate, reference, state, rejected, rank)
    requires Unique(activate + Restarts(Specs(hs), changing, deactivate)) && ListsUnique(Specs(hs))
    requires NoRivals(Specs(hs), Target(Specs(hs), activate, deactivate))
    ensures var r := Restarts(Specs(hs), changing, deactivate);
            PlanUncontended(hs, activate + r, deactivate + r)
  {
    hide Acyclic;
    hide UniqueNames;
    var cs, r := Specs(hs), Restarts(Specs(hs), changing, deactivate);
    RestartsKeepTarget(cs, activate, deactivate, changing);
    var target := Target(cs, activate + r, deactivate + r);
    forall i | 0 <= i < |hs| && hs[i].c.name in activate + r
      ensures hs[i].c.state == Active ==> hs[i].c.name in deactivate + r
    {
      if hs[i].c.name in activate {
        FindUnique(cs, i);
        assert Activatable(cs, activate, deactivate, cs[i].name, rejected, rank);
      }
    }
    forall i, j | 0 <= i < |hs| && 0 <= j < |hs| && i != j && hs[i].c.name in activate + r
                  && (hs[j].c.name in activate + r || (hs[j].c.state == Active && hs[j].c.name !in deactivate + r))
      ensures !Share(hs[i].c, hs[j].c)
    {
      assert cs[i].name in target;
      ActiveByIndex(cs, j);
      assert cs[j].name in target;
    }
    assert forall i :: 0 <= i < |hs| ==> Unique(cs[i].commands);
  }
}
