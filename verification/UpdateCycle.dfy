/** One update cycle of the real-time loop: the chain group of every controller whose update fails is
    deactivated (controller_manager.cpp, update), without fallback controllers. */
module UpdateCycle {
  import opened Names
  import opened Controllers
  import opened ChainGraph
  import opened ChainBookkeeping
  import opened SwitchPlan
  import opened Activation

  function Specs(hs: seq<Holder>): (r: seq<Controller>)
    ensures |r| == |hs|
    ensures forall i :: 0 <= i < |hs| ==> r[i] == hs[i].c
  {
    seq(|hs|, i requires 0 <= i < |hs| => hs[i].c)
  }

  /** The controller runs in this cycle and its update reports an error. */
  predicate Fails(h: Holder, due: set<Name>, failing: set<Name>) {
    h.c.state == Active && h.c.name in due && h.c.name in failing
  }

  /** `name` belongs to the stored chain group of one of the first `n` controllers, which fails. */
  ghost predicate Doomed(hs: seq<Holder>, n: nat, due: set<Name>, failing: set<Name>, name: Name)
    requires n <= |hs|
  {
    exists i :: 0 <= i < n && Fails(hs[i], due, failing) && name in hs[i].c.group
  }

  /** The update loop and the deactivation that follows it. `due` are the controllers that are neither
      skipped nor waiting for a later cycle, `failing` those whose update would report an error, and
      `stuck` those that deactivation leaves active. */
  method Update(sw: Switcher, due: set<Name>, failing: set<Name>, stuck: set<Name>) returns (ok: bool)
    requires sw.Consistent()
    modifies sw
    ensures sw.Consistent() && HolderNames(sw.holders) == HolderNames(old(sw.holders))
    ensures ok <==> forall i :: 0 <= i < |sw.holders| ==> !Fails(old(sw.holders)[i], due, failing)
    ensures forall i :: 0 <= i < |sw.holders| ==>
              var before, after := old(sw.holders)[i], sw.holders[i];
              if before.c.state == Active && Doomed(old(sw.holders), |sw.holders|, due, failing, before.c.name)
              then SameController(after, before) && after.loans == [] && (after.c.state == Active <==> before.c.name in stuck)
              else after == before
    ensures stuck == {} ==> AfterUpdate(old(sw.holders), sw.holders, due, failing)
  {
    var list: seq<Name> := [];
    ok := true;
    for k := 0 to |sw.holders|
      invariant sw.holders == old(sw.holders) && sw.claimed == old(sw.claimed) && sw.doubled == old(sw.doubled)
      invariant forall n :: n in list <==> Doomed(sw.holders, k, due, failing, n)
      invariant ok <==> forall i :: 0 <= i < k ==> !Fails(sw.holders[i], due, failing)
    {
      ghost var before := list;
      if Fails(sw.holders[k], due, failing) {
        list := AddItems(list, sw.holders[k].c.group);
        ok := false;
      }
      DoomedOneMore(sw.holders, k, due, failing);
    }
    if list != [] {
      sw.DeactivateControllers(list, stuck);
    }
    assert forall i :: 0 <= i < |sw.holders| ==> Deactivated(old(sw.holders)[i], sw.holders[i], list, stuck, sw.plugins);
  }

  lemma DoomedOneMore(hs: seq<Holder>, k: nat, due: set<Name>, failing: set<Name>)
    requires k < |hs|
    ensures forall n :: Doomed(hs, k + 1, due, failing, n)
              <==> Doomed(hs, k, due, failing, n) || (Fails(hs[k], due, failing) && n in hs[k].c.group)
  {
    forall n
      ensures Doomed(hs, k + 1, due, failing, n)
              <==> Doomed(hs, k, due, failing, n) || (Fails(hs[k], due, failing) && n in hs[k].c.group)
    {
      if Doomed(hs, k + 1, due, failing, n) {
        var i :| 0 <= i < k + 1 && Fails(hs[i], due, failing) && n in hs[i].c.group;
      }
    }
  }

  // ---------------------------------------------------------------------------------------
  // Failures are contained, and chains stay whole
  // ---------------------------------------------------------------------------------------

  /** What a cycle without stuck controllers leaves behind. */
  ghost predicate AfterUpdate(hs: seq<Holder>, hs': seq<Holder>, due: set<Name>, failing: set<Name>) {
    && HolderNames(hs') == HolderNames(hs) && |hs'| == |hs|
    && forall i :: 0 <= i < |hs| ==>
         if hs[i].c.state == Active && Doomed(hs, |hs|, due, failing, hs[i].c.name)
         then SameController(hs'[i], hs[i]) && hs'[i].c.state != Active
         else hs'[i] == hs[i]
  }

  /** After the cycle no member of a failed controller's group is active, everybody else is exactly as
      before, a failed controller stays active exactly if no failed controller's group has its name, and
      an active set that was closed under chain dependencies still is closed. */
  lemma FailureIsContained(hs: seq<Holder>, hs': seq<Holder>, due: set<Name>, failing: set<Name>)
    requires Unique(HolderNames(hs)) && AfterUpdate(hs, hs', due, failing)
    requires UsersGrouped(Specs(hs)) && ChainClosed(Specs(hs), ActiveNames(Specs(hs)))
    ensures forall x, i :: 0 <= x < |hs| && 0 <= i < |hs| && Fails(hs[x], due, failing) && hs[i].c.name in hs[x].c.group
                           ==> hs'[i].c.state != Active
    ensures forall i :: 0 <= i < |hs| && (forall x :: 0 <= x < |hs| && Fails(hs[x], due, failing) ==> hs[i].c.name !in hs[x].c.group)
                        ==> hs'[i] == hs[i]
    ensures forall x :: 0 <= x < |hs| && Fails(hs[x], due, failing)
                        ==> (hs'[x].c.state == Active <==> !Doomed(hs, |hs|, due, failing, hs[x].c.name))
    ensures ChainClosed(Specs(hs'), ActiveNames(Specs(hs')))
  {
    var cs, cs' := Specs(hs), Specs(hs');
    NamesOfSpecs(hs);
    NamesOfSpecs(hs');
    forall i, j | 0 <= i < |cs'| && 0 <= j < |cs'| && cs'[i].name in ActiveNames(cs') && DependsOn(cs'[i], cs'[j].name)
      ensures cs'[j].name in ActiveNames(cs')
    {
      ActiveByIndex(cs', i);
      ActiveByIndex(cs', j);
      ActiveByIndex(cs, i);
      ActiveByIndex(cs, j);
      OwnerSurvives(hs, hs', due, failing, i, j);
    }
  }

  /** In every state of a run of services, switches and update cycles in which the chain groups are up
      to date, failed controllers stop together with their groups and chains stay whole; and the cycle is
      itself an outcome with which the run can go on. */
  lemma ContainedInEveryRun(m: ControllerManager, hs: seq<Holder>, hs': seq<Holder>, due: set<Name>, failing: set<Name>)
    requires m.Bookkept() && m.UpToDate() && Specs(hs) == m.published
    requires AfterUpdate(hs, hs', due, failing) && ChainClosed(Specs(hs), ActiveNames(Specs(hs)))
    ensures forall x :: 0 <= x < |hs| && Fails(hs[x], due, failing) ==> hs'[x].c.state != Active
    ensures forall x, i :: 0 <= x < |hs| && 0 <= i < |hs| && Fails(hs[x], due, failing) && hs[i].c.name in hs[x].c.group
                           ==> hs'[i].c.state != Active
    ensures ChainClosed(Specs(hs'), ActiveNames(Specs(hs')))
    ensures IsOutcome(m.published, Specs(hs'))
  {
    assert NamesOf(Specs(hs)) == HolderNames(hs);
    FailureIsContained(hs, hs', due, failing);
    forall x | 0 <= x < |hs| && Fails(hs[x], due, failing)
      ensures hs'[x].c.state != Active
    {
      assert Specs(hs)[x].name in Specs(hs)[x].group;
    }
  }

  /** A controller whose first configuration failed and whose cleanup left it inactive has no chain group:
      once active it fails and stays active. */
  lemma UngroupedFailureGoesOn()
    ensures var name, plugin := Name("pilot"), Configuration(Inactive, [], [], false, Inactive);
            var pilot := Controller(name, Unconfigured, true, false, [], [], []);
            var hs := [Holder(Failed(pilot, plugin).(state := Active), [], [], [])];
            && !Configurable(pilot, plugin) && Failed(pilot, plugin).state == Inactive
            && Fails(hs[0], {name}, {name}) && AfterUpdate(hs, hs, {name}, {name})
            && Covers(Specs(hs), map[], map[]) && UsersGrouped(Specs(hs)) && !SelfGrouped(Specs(hs))
  {
  }

  lemma NamesOfSpecs(hs: seq<Holder>)
    requires Unique(HolderNames(hs))
    ensures NamesOf(Specs(hs)) == HolderNames(hs) && UniqueNames(Specs(hs))
  {
    assert NamesOf(Specs(hs)) == HolderNames(hs);
  }

  /** An owner of a surviving user survives. */
  lemma OwnerSurvives(hs: seq<Holder>, hs': seq<Holder>, due: set<Name>, failing: set<Name>, i: nat, j: nat)
    requires AfterUpdate(hs, hs', due, failing) && UsersGrouped(Specs(hs))
    requires i < |hs| && j < |hs| && DependsOn(hs[i].c, hs[j].c.name)
    requires hs'[i].c.state == Active && (hs[i].c.state == Active ==> hs[j].c.state == Active)
    ensures hs'[j].c.state == Active
  {
    var cs := Specs(hs);
    assert hs'[i] == hs[i] && cs[i].state == cs[j].state == Active;
    if Doomed(hs, |hs|, due, failing, hs[j].c.name) {
      OwnerDoomsUser(hs, due, failing, i, j);
    }
  }

  lemma OwnerDoomsUser(hs: seq<Holder>, due: set<Name>, failing: set<Name>, i: nat, j: nat)
    requires UsersGrouped(Specs(hs)) && i < |hs| && j < |hs| && DependsOn(hs[i].c, hs[j].c.name)
    requires hs[i].c.state == hs[j].c.state == Active && Doomed(hs, |hs|, due, failing, hs[j].c.name)
    ensures Doomed(hs, |hs|, due, failing, hs[i].c.name)
  {
    var cs := Specs(hs);
    var x :| 0 <= x < |hs| && Fails(hs[x], due, failing) && hs[j].c.name in hs[x].c.group;
    assert cs[j].name in cs[x].group && cs[i].name in cs[x].group;
  }
}
