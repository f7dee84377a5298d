/** Loaded controllers as the controller manager sees them: a name, a lifecycle state, the interfaces
    named by its configuration, and the cached chain group (controller_spec.hpp). */
module Controllers {
  import opened Names

  datatype LifecycleState = Unconfigured | Inactive | Active | Finalized

  datatype Controller = Controller(
    name: Name,
    state: LifecycleState,
    chainable: bool,
    chained: bool,
    commands: seq<Interface>,
    states: seq<Interface>,
    group: seq<Name>)

  /** The names of a list, in order. */
  function NamesOf(cs: seq<Controller>): (r: seq<Name>)
    ensures |r| == |cs|
    ensures forall i :: 0 <= i < |cs| ==> r[i] == cs[i].name
  {
    seq(|cs|, i requires 0 <= i < |cs| => cs[i].name)
  }

  /** `find_if` by name: the position, or the length of the list. */
  function Find(cs: seq<Controller>, name: Name): (k: nat)
    ensures k <= |cs|
    ensures k < |cs| <==> name in NamesOf(cs)
    ensures k < |cs| ==> cs[k].name == name
  {
    IndexOf(NamesOf(cs), name)
  }

  predicate Loaded(cs: seq<Controller>, name: Name) {
    Find(cs, name) < |cs|
  }

  /** An interface list mentions an interface owned by the named controller. */
  predicate Mentions(interfaces: seq<Interface>, owner: Name) {
    exists i :: 0 <= i < |interfaces| && interfaces[i].owner == owner
  }

  /** `c` needs a reference or an exported state interface of the named controller. */
  predicate DependsOn(c: Controller, owner: Name) {
    Mentions(c.commands, owner) || Mentions(c.states, owner)
  }

  /** Both use one command interface. */
  ghost predicate Share(a: Controller, b: Controller) {
    exists c :: c in a.commands && c in b.commands
  }

  /** Inactive or active. */
  predicate Running(s: LifecycleState) {
    s == Inactive || s == Active
  }

  predicate Ready(c: Controller) { Running(c.state) }

  /** What a switch or an update may do to one controller: only an inactive or active one changes its
      state, and nothing but the state and the chained mode changes. */
  predicate OnlySwitched(before: Controller, after: Controller) {
    && after == before.(state := after.state, chained := after.chained)
    && (!Ready(before) ==> after.state == before.state)
  }
}
