/** Loading, configuring and unloading controllers: the chain specification, the caches of preceding
    controllers and the ordered list are kept in step with the published controllers
    (controller_manager.cpp). */
module ChainBookkeeping {
  import opened Names
  import opened Controllers
  import opened ChainGraph
  import opened ChainOrder

  type Cache = map<Name, seq<Name>>

  /** `operator[]` on a cache: a missing entry reads as empty. */
  function Entry(cache: Cache, name: Name): seq<Name> {
    if name in cache then cache[name] else []
  }

  /** Following and preceding are exact inverses, within the keys and without repetition. */
  ghost predicate TwoWay(g: Graph) {
    && Closed(g) && Inverse(g)
    && forall a :: a in g ==> Unique(g[a].following) && Unique(g[a].preceding)
  }

  /** One neighbour entry after a controller left its preceding, or following, list. */
  ghost function LeftPreceding(spec: ChainSpec, name: Name, left: bool): ChainSpec {
    if left then spec.(preceding := RemoveItem(spec.preceding, name)) else spec
  }

  ghost function LeftFollowing(spec: ChainSpec, name: Name, left: bool): ChainSpec {
    if left then spec.(following := RemoveItem(spec.following, name)) else spec
  }

  ghost predicate UniqueNames(cs: seq<Controller>) {
    Unique(NamesOf(cs))
  }

  /** The configured controller `user` names a command interface of the loaded controller `owner`. */
  ghost predicate UsesCommands(cs: seq<Controller>, user: Name, owner: Name) {
    && Loaded(cs, user) && Loaded(cs, owner)
    && cs[Find(cs, user)].state != Unconfigured && Mentions(cs[Find(cs, user)].commands, owner)
  }

  ghost predicate UsesStates(cs: seq<Controller>, user: Name, owner: Name) {
    && Loaded(cs, user) && Loaded(cs, owner)
    && cs[Find(cs, user)].state != Unconfigured && Mentions(cs[Find(cs, user)].states, owner)
  }

  /** The chain order: owners of command interfaces follow their users, owners of state interfaces
      precede theirs. */
  ghost predicate Follows(cs: seq<Controller>, a: Name, b: Name) {
    UsesCommands(cs, a, b) || UsesStates(cs, b, a)
  }

  /** `v` follows `u`: the two `add_item` calls of one link. */
  function AddLink(g: Graph, u: Name, v: Name): (r: Graph)
    requires u in g && v in g
    ensures r.Keys == g.Keys
    ensures forall a :: a in g ==>
              r[a].following == (if a == u then AddItem(g[a].following, v) else g[a].following)
    ensures forall a :: a in g ==>
              r[a].preceding == (if a == v then AddItem(g[a].preceding, u) else g[a].preceding)
  {
    var half := g[u := g[u].(following := AddItem(g[u].following, v))];
    half[v := half[v].(preceding := AddItem(half[v].preceding, u))]
  }

  /** The specification holds exactly the given links, in both directions and once each. */
  ghost predicate HoldsLinks(g: Graph, links: set<(Name, Name)>) {
    && Closed(g)
    && (forall a, b :: a in g ==> (b in g[a].following <==> (a, b) in links))
    && (forall a, b :: b in g ==> (a in g[b].preceding <==> (a, b) in links))
    && (forall a :: a in g ==> Unique(g[a].following) && Unique(g[a].preceding))
  }

  /** The cache lists, for every owner, exactly its users, once each. */
  ghost predicate CacheHolds(cache: Cache, users: set<(Name, Name)>) {
    && (forall a, b :: a in Entry(cache, b) <==> (a, b) in users)
    && (forall b :: Unique(Entry(cache, b)))
  }

  function AddUser(cache: Cache, owner: Name, user: Name): (r: Cache)
    ensures forall b :: Entry(r, b) == if b == owner then AddItem(Entry(cache, b), user) else Entry(cache, b)
  {
    cache[owner := AddItem(Entry(cache, owner), user)]
  }

  lemma LinkAdded(g: Graph, u: Name, v: Name, links: set<(Name, Name)>)
    requires HoldsLinks(g, links) && u in g && v in g
    ensures HoldsLinks(AddLink(g, u, v), links + {(u, v)})
  {
    hide AddLink;
    var r := AddLink(g, u, v);
    LinkAddedClosed(g, u, v);
    forall a, b | a in r
      ensures b in r[a].following <==> (a, b) in links + {(u, v)}
      ensures b in r[a].preceding <==> (b, a) in links + {(u, v)}
    {
    }
  }

  lemma LinkAddedClosed(g: Graph, u: Name, v: Name)
    requires Closed(g) && u in g && v in g
    ensures Closed(AddLink(g, u, v))
  {
    var r := AddLink(g, u, v);
    forall a, b | Linked(r, a, b)
      ensures b in r
    {
      assert Linked(g, a, b) || b == u || b == v;
    }
  }

  lemma UserAdded(cache: Cache, owner: Name, user: Name, users: set<(Name, Name)>)
    requires CacheHolds(cache, users)
    ensures CacheHolds(AddUser(cache, owner, user), users + {(user, owner)})
  {
  }

  lemma HoldsIsTwoWay(g: Graph, links: set<(Name, Name)>)
    requires HoldsLinks(g, links)
    ensures TwoWay(g)
  {
  }

  /** One of the controller's interfaces from the list is owned by the loaded controller `owner`. */
  ghost predicate IsUse(interfaces: seq<Interface>, cs: seq<Controller>, owner: Name) {
    Loaded(cs, owner) && Mentions(interfaces, owner)
  }

  lemma NoInterfaceNoUse(interfaces: seq<Interface>, cs: seq<Controller>)
    ensures forall o :: !IsUse(interfaces[..0], cs, o)
  {
  }

  lemma UseOneMore(interfaces: seq<Interface>, cs: seq<Controller>, j: nat)
    requires j < |interfaces|
    ensures forall o :: IsUse(interfaces[..j + 1], cs, o)
              <==> IsUse(interfaces[..j], cs, o) || (Loaded(cs, o) && o == interfaces[j].owner)
  {
    forall o {
      MentionsOneMore(interfaces, j, o);
    }
  }

  lemma MentionsOneMore(interfaces: seq<Interface>, j: nat, owner: Name)
    requires j < |interfaces|
    ensures Mentions(interfaces[..j + 1], owner) <==> Mentions(interfaces[..j], owner) || interfaces[j].owner == owner
  {
    if Mentions(interfaces[..j], owner) {
      var i :| 0 <= i < j && interfaces[..j][i].owner == owner;
      assert interfaces[..j + 1][i].owner == owner;
    }
    if interfaces[j].owner == owner {
      assert interfaces[..j + 1][j].owner == owner;
    }
    if Mentions(interfaces[..j + 1], owner) {
      var i :| 0 <= i < j + 1 && interfaces[..j + 1][i].owner == owner;
      if i < j {
        assert interfaces[..j][i].owner == owner;
      }
    }
  }

  /** Links of the first `n` controllers only. */
  ghost predicate LinkedUpTo(cs: seq<Controller>, n: nat, links: set<(Name, Name)>,
                             commands: set<(Name, Name)>, states: set<(Name, Name)>) {
    && (forall a, b :: (a, b) in links
                       <==> ((UsesCommands(cs, a, b) && Find(cs, a) < n) || (UsesStates(cs, b, a) && Find(cs, b) < n)))
    && (forall u, o :: (u, o) in commands <==> (UsesCommands(cs, u, o) && Find(cs, u) < n))
    && (forall u, o :: (u, o) in states <==> (UsesStates(cs, u, o) && Find(cs, u) < n))
  }

  /** The links that one configured controller adds. */
  ghost predicate LinksAdded(cs: seq<Controller>, c: Controller, links: set<(Name, Name)>, links': set<(Name, Name)>) {
    forall a, b :: (a, b) in links'
                   <==> ((a, b) in links
                         || (a == c.name && IsUse(c.commands, cs, b)) || (b == c.name && IsUse(c.states, cs, a)))
  }

  ghost predicate UsersAdded(cs: seq<Controller>, c: Controller, interfaces: seq<Interface>,
                             users: set<(Name, Name)>, users': set<(Name, Name)>) {
    forall u, o :: (u, o) in users' <==> ((u, o) in users || (u == c.name && IsUse(interfaces, cs, o)))
  }

  lemma LinkedOneMore(cs: seq<Controller>, i: nat,
                      links: set<(Name, Name)>, commands: set<(Name, Name)>, states: set<(Name, Name)>,
                      links': set<(Name, Name)>, commands': set<(Name, Name)>, states': set<(Name, Name)>)
    requires UniqueNames(cs) && i < |cs| && LinkedUpTo(cs, i, links, commands, states)
    requires cs[i].state == Unconfigured ==> links' == links && commands' == commands && states' == states
    requires cs[i].state != Unconfigured ==>
      && LinksAdded(cs, cs[i], links, links')
      && UsersAdded(cs, cs[i], cs[i].commands, commands, commands')
      && UsersAdded(cs, cs[i], cs[i].states, states, states')
    ensures LinkedUpTo(cs, i + 1, links', commands', states')
  {
    FindUnique(cs, i);
    assert forall u :: Find(cs, u) < i + 1 ==> Find(cs, u) < i || u == cs[i].name;
  }

  /** The controllers in `names` have the group of the cache, the others the one of the list. */
  ghost predicate Grouped(list: seq<Controller>, cache: map<Name, seq<Name>>, names: seq<Name>, r: seq<Controller>) {
    && |r| == |list|
    && forall i :: 0 <= i < |r| ==>
         && list[i].name in cache
         && r[i] == if list[i].name in names then list[i].(group := cache[list[i].name]) else list[i]
  }

  lemma NobodyGrouped(list: seq<Controller>, cache: map<Name, seq<Name>>)
    requires cache.Keys == Elements(NamesOf(list))
    ensures Grouped(list, cache, [], list)
  {
    assert forall i :: 0 <= i < |list| ==> NamesOf(list)[i] == list[i].name;
  }

  lemma AllGrouped(list: seq<Controller>, cache: map<Name, seq<Name>>, keys: seq<Name>, r: seq<Controller>)
    requires Grouped(list, cache, keys, r) && Elements(keys) == cache.Keys
    ensures |r| == |list|
    ensures forall i :: 0 <= i < |r| ==> list[i].name in cache && r[i] == list[i].(group := cache[list[i].name])
  {
    assert forall x :: x in keys <==> x in Elements(keys);
  }

  lemma GroupSet(list: seq<Controller>, cache: map<Name, seq<Name>>, keys: seq<Name>, j: nat, r: seq<Controller>, it: nat)
    requires UniqueNames(list) && j < |keys| && keys[j] in cache && Grouped(list, cache, keys[..j], r)
    requires it < |list| && list[it].name == keys[j]
    ensures Grouped(list, cache, keys[..j + 1], r[it := r[it].(group := cache[keys[j]])])
  {
    assert keys[..j + 1] == keys[..j] + [keys[j]];
    forall i | 0 <= i < |list| && list[i].name == keys[j]
      ensures i == it
    {
      FindUnique(list, i);
      FindUnique(list, it);
    }
  }

  lemma FindUnique(cs: seq<Controller>, i: nat)
    requires UniqueNames(cs) && i < |cs|
    ensures Find(cs, cs[i].name) == i
  {
    IndexOfUnique(NamesOf(cs), i);
  }

  lemma NameIsListed(cs: seq<Controller>, i: nat)
    requires i < |cs|
    ensures cs[i].name in Elements(NamesOf(cs))
  {
    assert cs[i].name == NamesOf(cs)[i];
  }

  lemma NothingLinked(g: Graph, reference: Cache, state: Cache, cs: seq<Controller>)
    requires forall k :: k in g ==> g[k] == ChainSpec([], [])
    requires forall k :: k in reference ==> reference[k] == []
    requires forall k :: k in state ==> state[k] == []
    ensures HoldsLinks(g, {}) && CacheHolds(reference, {}) && CacheHolds(state, {}) && LinkedUpTo(cs, 0, {}, {}, {})
  {
  }

  /** The specification and the caches describe exactly the given controllers. */
  ghost predicate Describes(g: Graph, reference: Cache, state: Cache, cs: seq<Controller>) {
    && TwoWay(g)
    && (forall a, b :: a in g ==> (b in g[a].following <==> Follows(cs, a, b)))
    && (forall u, o :: u in Entry(reference, o) <==> UsesCommands(cs, u, o))
    && (forall u, o :: u in Entry(state, o) <==> UsesStates(cs, u, o))
  }

  lemma AllLinked(g: Graph, reference: Cache, state: Cache, cs: seq<Controller>,
                  links: set<(Name, Name)>, commands: set<(Name, Name)>, states: set<(Name, Name)>)
    requires HoldsLinks(g, links) && CacheHolds(reference, commands) && CacheHolds(state, states)
    requires LinkedUpTo(cs, |cs|, links, commands, states)
    ensures Describes(g, reference, state, cs)
  {
    HoldsIsTwoWay(g, links);
  }

  /** What a configuration attempt of the plug-in yields: the state after `configure`, the interface
      lists it then reports, whether it exports interfaces, and the state after the `cleanup` that
      answers an error. */
  datatype Configuration = Configuration(
    configured: LifecycleState,
    commands: seq<Interface>,
    states: seq<Interface>,
    exports: bool,
    cleaned: LifecycleState)

  /** The part of the manager's state in which caches and chain groups can fall behind. */
  datatype View = View(list: seq<Controller>, reference: Cache, state: Cache)

  /** The caches list, for every inactive or active controller, all inactive or active users of its
      interfaces; the chain groups are closed under such users; and everybody is in its own group. */
  ghost predicate Current(v: View) {
    Covers(v.list, v.reference, v.state) && UsersGrouped(v.list) && SelfGrouped(v.list)
  }

  class ControllerManager {
    var published: seq<Controller>
    var chainSpec: Graph
    var referenceCache: Cache
    var stateCache: Cache
    var ordered: seq<Name>

    /** Names are unique, the specification has exactly their keys, and its lists are exact inverses. */
    ghost predicate Bookkept()
      reads this
    {
      UniqueNames(published) && chainSpec.Keys == Elements(NamesOf(published)) && TwoWay(chainSpec)
    }

    function Seen(): View
      reads this
    {
      View(published, referenceCache, stateCache)
    }

    /** Caches and stored chain groups know every inactive or active controller. */
    ghost predicate UpToDate()
      reads this
    {
      Current(Seen())
    }

    /** Initially nothing is loaded. */
    constructor ()
      ensures Bookkept() && UpToDate()
      ensures published == [] && chainSpec == map[] && referenceCache == map[] && stateCache == map[] && ordered == []
    {
      published := [];
      chainSpec := map[];
      referenceCache := map[];
      stateCache := map[];
      ordered := [];
    }

    // -------------------------------------------------------------------------------------
    // build_controllers_topology_info
    // -------------------------------------------------------------------------------------

    /** The `add_item` calls for one command interface owned by a loaded controller. */
    method LinkCommand(user: Name, owner: Name, ghost links: set<(Name, Name)>, ghost users: set<(Name, Name)>)
      requires user in chainSpec && owner in chainSpec
      requires HoldsLinks(chainSpec, links) && CacheHolds(referenceCache, users)
      modifies `chainSpec, `referenceCache
      ensures chainSpec.Keys == old(chainSpec.Keys)
      ensures HoldsLinks(chainSpec, links + {(user, owner)}) && CacheHolds(referenceCache, users + {(user, owner)})
    {
      hide *;
      LinkAdded(chainSpec, user, owner, links);
      UserAdded(referenceCache, owner, user, users);
      chainSpec := AddLink(chainSpec, user, owner);
      referenceCache := AddUser(referenceCache, owner, user);
    }

    /** The `add_item` calls for one state interface owned by a loaded controller. */
    method LinkState(user: Name, owner: Name, ghost links: set<(Name, Name)>, ghost users: set<(Name, Name)>)
      requires user in chainSpec && owner in chainSpec
      requires HoldsLinks(chainSpec, links) && CacheHolds(stateCache, users)
      modifies `chainSpec, `stateCache
      ensures chainSpec.Keys == old(chainSpec.Keys)
      ensures HoldsLinks(chainSpec, links + {(owner, user)}) && CacheHolds(stateCache, users + {(user, owner)})
    {
      hide *;
      LinkAdded(chainSpec, owner, user, links);
      UserAdded(stateCache, owner, user, users);
      chainSpec := AddLink(chainSpec, owner, user);
      stateCache := AddUser(stateCache, owner, user);
    }

    /** The inner loop over the command interfaces of one configured controller. */
    method LinkCommands(c: Controller, cs: seq<Controller>, ghost links: set<(Name, Name)>, ghost users: set<(Name, Name)>)
      returns (ghost links': set<(Name, Name)>, ghost users': set<(Name, Name)>)
      requires c.name in chainSpec && Elements(NamesOf(cs)) <= chainSpec.Keys
      requires HoldsLinks(chainSpec, links) && CacheHolds(referenceCache, users)
      modifies `chainSpec, `referenceCache
      ensures chainSpec.Keys == old(chainSpec.Keys)
      ensures HoldsLinks(chainSpec, links') && CacheHolds(referenceCache, users')
      ensures forall u, o :: (u, o) in links' <==> (u, o) in links || (u == c.name && IsUse(c.commands, cs, o))
      ensures forall u, o :: (u, o) in users' <==> (u, o) in users || (u == c.name && IsUse(c.commands, cs, o))
    {
      hide HoldsLinks;
      hide CacheHolds;
      hide IsUse;
      links', users' := links, users;
      NoInterfaceNoUse(c.commands, cs);
      for j := 0 to |c.commands|
        invariant chainSpec.Keys == old(chainSpec.Keys)
        invariant HoldsLinks(chainSpec, links') && CacheHolds(referenceCache, users')
        invariant forall u, o ::
            (u, o) in links' <==> (u, o) in links || (u == c.name && IsUse(c.commands[..j], cs, o))
        invariant forall u, o ::
            (u, o) in users' <==> (u, o) in users || (u == c.name && IsUse(c.commands[..j], cs, o))
      {
        var owner := c.commands[j].owner;
        UseOneMore(c.commands, cs, j);
        if Find(cs, owner) < |cs| {
          assert owner in Elements(NamesOf(cs));
          LinkCommand(c.name, owner, links', users');
          links', users' := links' + {(c.name, owner)}, users' + {(c.name, owner)};
        }
      }
      assert c.commands[..|c.commands|] == c.commands;
    }

    /** The inner loop over the state interfaces: here the owner precedes the user. */
    method LinkStates(c: Controller, cs: seq<Controller>, ghost links: set<(Name, Name)>, ghost users: set<(Name, Name)>)
      returns (ghost links': set<(Name, Name)>, ghost users': set<(Name, Name)>)
      requires c.name in chainSpec && Elements(NamesOf(cs)) <= chainSpec.Keys
      requires HoldsLinks(chainSpec, links) && CacheHolds(stateCache, users)
      modifies `chainSpec, `stateCache
      ensures chainSpec.Keys == old(chainSpec.Keys)
      ensures HoldsLinks(chainSpec, links') && CacheHolds(stateCache, users')
      ensures forall o, u :: (o, u) in links' <==> (o, u) in links || (u == c.name && IsUse(c.states, cs, o))
      ensures forall u, o :: (u, o) in users' <==> (u, o) in users || (u == c.name && IsUse(c.states, cs, o))
    {
      hide HoldsLinks;
      hide CacheHolds;
      hide IsUse;
      links', users' := links, users;
      NoInterfaceNoUse(c.states, cs);
      for j := 0 to |c.states|
        invariant chainSpec.Keys == old(chainSpec.Keys)
        invariant HoldsLinks(chainSpec, links') && CacheHolds(stateCache, users')
        invariant forall o, u ::
            (o, u) in links' <==> (o, u) in links || (u == c.name && IsUse(c.states[..j], cs, o))
        invariant forall u, o ::
            (u, o) in users' <==> (u, o) in users || (u == c.name && IsUse(c.states[..j], cs, o))
      {
        var owner := c.states[j].owner;
        UseOneMore(c.states, cs, j);
        if Find(cs, owner) < |cs| {
          assert owner in Elements(NamesOf(cs));
          LinkState(c.name, owner, links', users');
          links', users' := links' + {(owner, c.name)}, users' + {(c.name, owner)};
        }
      }
      assert c.states[..|c.states|] == c.states;
    }

    /** Both inner loops for one configured controller. */
    method LinkController(c: Controller, cs: seq<Controller>, ghost links: set<(Name, Name)>,
                          ghost commands: set<(Name, Name)>, ghost states: set<(Name, Name)>)
      returns (ghost links': set<(Name, Name)>, ghost commands': set<(Name, Name)>, ghost states': set<(Name, Name)>)
      requires c.name in chainSpec && Elements(NamesOf(cs)) <= chainSpec.Keys
      requires HoldsLinks(chainSpec, links) && CacheHolds(referenceCache, commands) && CacheHolds(stateCache, states)
      modifies `chainSpec, `referenceCache, `stateCache
      ensures chainSpec.Keys == old(chainSpec.Keys)
      ensures HoldsLinks(chainSpec, links') && CacheHolds(referenceCache, commands') && CacheHolds(stateCache, states')
      ensures LinksAdded(cs, c, links, links')
      ensures UsersAdded(cs, c, c.commands, commands, commands') && UsersAdded(cs, c, c.states, states, states')
    {
      hide HoldsLinks;
      hide CacheHolds;
      hide IsUse;
      links', commands' := LinkCommands(c, cs, links, commands);
      links', states' := LinkStates(c, cs, links', states);
    }

    /** build_controllers_topology_info: everything is cleared and every configured controller linked
        again; afterwards the specification and both caches describe exactly the given controllers. */
    method BuildControllersTopologyInfo(cs: seq<Controller>)
      requires UniqueNames(cs) && chainSpec.Keys == Elements(NamesOf(cs))
      modifies `chainSpec, `referenceCache, `stateCache
      ensures chainSpec.Keys == old(chainSpec.Keys) && Describes(chainSpec, referenceCache, stateCache, cs)
    {
      hide *;
      chainSpec := map k | k in chainSpec :: ChainSpec([], []);
      referenceCache := map k | k in referenceCache :: [];
      stateCache := map k | k in stateCache :: [];
      ghost var links: set<(Name, Name)>, commands: set<(Name, Name)>, states: set<(Name, Name)> := {}, {}, {};
      NothingLinked(chainSpec, referenceCache, stateCache, cs);
      for i := 0 to |cs|
        invariant chainSpec.Keys == old(chainSpec.Keys)
        invariant HoldsLinks(chainSpec, links)
        invariant CacheHolds(referenceCache, commands) && CacheHolds(stateCache, states)
        invariant LinkedUpTo(cs, i, links, commands, states)
      {
        NameIsListed(cs, i);
        ghost var links0, commands0, states0 := links, commands, states;
        if cs[i].state != Unconfigured {
          links, commands, states := LinkController(cs[i], cs, links, commands, states);
        }
        LinkedOneMore(cs, i, links0, commands0, states0, links, commands, states);
      }
      AllLinked(chainSpec, referenceCache, stateCache, cs, links, commands, states);
    }

    // -------------------------------------------------------------------------------------
    // update_list_with_controller_chain and the reordering loop of configure_controller
    // -------------------------------------------------------------------------------------

    /** The two loops that move the iterator past the listed neighbours. */
    method FindSlot(name: Name, pos: nat) returns (slot: nat)
      requires name in chainSpec && pos <= |ordered|
      ensures slot == Place(chainSpec[name], ordered, pos)
    {
      var following, preceding := chainSpec[name].following, chainSpec[name].preceding;
      slot := pos;
      for i := 0 to |following|
        invariant slot <= pos
        invariant PullBack(ordered, following[i..], slot) == PullBack(ordered, following, pos)
      {
        var it := IndexOf(ordered, following[i]);
        if it < |ordered| && it < slot {
          slot := it;
        }
      }
      ghost var pulled: nat := slot;
      for i := 0 to |preceding|
        invariant slot <= |ordered|
        invariant PushForward(ordered, preceding[i..], slot) == PushForward(ordered, preceding, pulled)
      {
        var it := IndexOf(ordered, preceding[i]);
        if it < |ordered| && it > slot {
          slot := it;
        }
      }
    }

    /** One of the two recursive loops over the neighbours of `name`. */
    method VisitAll(name: Name, todo: seq<Name>, append: bool)
      requires Closed(chainSpec) && name in ordered && (forall x :: x in todo ==> x in chainSpec)
      modifies `ordered
      ensures ordered == VisitNeighbours(chainSpec, old(ordered), name, todo, append)
      decreases Missing(chainSpec, ordered), 1
    {
      ghost var before := ordered;
      for i := 0 to |todo|
        invariant forall x :: x in before ==> x in ordered
        invariant VisitNeighbours(chainSpec, ordered, name, todo[i..], append)
                  == VisitNeighbours(chainSpec, before, name, todo, append)
      {
        MissingShrinks(chainSpec, before, ordered);
        assert todo[i..][0] == todo[i] && todo[i..][1..] == todo[i + 1..];
        UpdateListWithControllerChain(todo[i], IndexOf(ordered, name), append);
      }
    }

    /** The new name goes into its slot. */
    method InsertName(name: Name, pos: nat, append: bool)
      requires name in chainSpec && name !in ordered && pos <= |ordered| && (append ==> pos < |ordered|)
      modifies `ordered
      ensures ordered == Placed(chainSpec, old(ordered), name, pos, append)
      ensures name in ordered && Missing(chainSpec, ordered) < Missing(chainSpec, old(ordered))
    {
      hide Placed;
      hide Place;
      hide InsertAt;
      hide Missing;
      var slot := FindSlot(name, pos);
      PlacedAt(chainSpec, ordered, name, pos, append, slot);
      ordered := InsertAt(ordered, if append then slot + 1 else slot, name);
    }

    method UpdateListWithControllerChain(name: Name, pos: nat, append: bool)
      requires Closed(chainSpec) && name in chainSpec && pos <= |ordered| && (append ==> pos < |ordered|)
      modifies `ordered
      ensures ordered == UpdateList(chainSpec, old(ordered), name, pos, append)
      decreases Missing(chainSpec, ordered), 0
    {
      hide UpdateList;
      hide VisitNeighbours;
      hide Placed;
      hide Missing;
      hide Closed;
      ghost var before := ordered;
      if IndexOf(ordered, name) == |ordered| {
        InsertName(name, pos, append);
        ghost var placed := ordered;
        NeighboursLinkedAs(chainSpec, name);
        VisitAll(name, chainSpec[name].following, true);
        MissingShrinks(chainSpec, placed, ordered);
        UpdateStep(chainSpec, before, name, pos, append, placed, ordered);
        VisitAll(name, chainSpec[name].preceding, false);
      } else {
        AlreadyListed(chainSpec, before, name, pos, append);
      }
    }

    /** `keys` is the iteration order of the hash map. */
    method ReorderNames(keys: seq<Name>)
      requires Closed(chainSpec) && Elements(keys) == chainSpec.Keys
      modifies `ordered
      ensures forall x :: x in keys ==> x in chainSpec
      ensures ordered == OrderFrom(chainSpec, [], keys)
    {
      assert forall x :: x in keys <==> x in Elements(keys);
      ordered := [];
      for i := 0 to |keys|
        invariant OrderFrom(chainSpec, ordered, keys[i..]) == OrderFrom(chainSpec, [], keys)
      {
        if IndexOf(ordered, keys[i]) == |ordered| {
          UpdateListWithControllerChain(keys[i], |ordered|, false);
        }
        assert keys[i..][1..] == keys[i + 1..];
      }
    }

    // -------------------------------------------------------------------------------------
    // add_controller_impl
    // -------------------------------------------------------------------------------------

    /** Loads a controller unless one of that name is loaded or its `init` fails. */
    method AddControllerImpl(c: Controller, initialised: bool) returns (ok: bool)
      requires Bookkept() && c.state == Unconfigured && c.group == []
      modifies this
      ensures Bookkept() && (old(UpToDate()) ==> UpToDate())
      ensures ok <==> initialised && !Loaded(old(published), c.name)
      ensures !ok ==> unchanged(this)
      ensures ok ==> published == old(published) + [c] && chainSpec == old(chainSpec)[c.name := ChainSpec([], [])]
      ensures ok ==> stateCache == old(stateCache)[c.name := []] && referenceCache == old(referenceCache)[c.name := []]
    {
      var to := published;
      if Find(to, c.name) < |to| || !initialised {
        return false;
      }
      ghost var from := published;
      chainSpec := chainSpec[c.name := ChainSpec([], [])];
      stateCache := stateCache[c.name := []];
      referenceCache := referenceCache[c.name := []];
      published := to + [c];
      AddedIsBookkept(from, c, old(chainSpec));
      if old(UpToDate()) {
        AddedIsCovered(from, c, old(referenceCache), old(stateCache));
        LaterIsGrouped(from, published);
      }
      return true;
    }

    // -------------------------------------------------------------------------------------
    // controller_chain_spec_cleanup and unload_controller
    // -------------------------------------------------------------------------------------

    /** The first loop: the controller leaves the preceding lists of its following controllers. */
    method LeavePreceding(name: Name, following: seq<Name>)
      requires Unique(following) && forall i :: 0 <= i < |following| ==> following[i] in chainSpec
      modifies `chainSpec
      ensures chainSpec.Keys == old(chainSpec.Keys)
      ensures forall a :: a in chainSpec ==> chainSpec[a] == LeftPreceding(old(chainSpec)[a], name, a in following)
    {
      hide RemoveItem;
      ghost var before := chainSpec;
      for i := 0 to |following|
        invariant chainSpec.Keys == before.Keys
        invariant forall a :: a in before ==>
                    chainSpec[a] == LeftPreceding(before[a], name, a in following[..i])
      {
        var f := following[i];
        assert following[..i + 1] == following[..i] + [f];
        chainSpec := chainSpec[f := chainSpec[f].(preceding := RemoveItem(chainSpec[f].preceding, name))];
      }
    }

    /** The second loop: the controller leaves the following lists of its preceding controllers. */
    method LeaveFollowing(name: Name, preceding: seq<Name>)
      requires Unique(preceding) && forall i :: 0 <= i < |preceding| ==> preceding[i] in chainSpec
      modifies `chainSpec
      ensures chainSpec.Keys == old(chainSpec.Keys)
      ensures forall a :: a in chainSpec ==> chainSpec[a] == LeftFollowing(old(chainSpec)[a], name, a in preceding)
    {
      hide RemoveItem;
      ghost var before := chainSpec;
      for i := 0 to |preceding|
        invariant chainSpec.Keys == before.Keys
        invariant forall a :: a in before ==>
                    chainSpec[a] == LeftFollowing(before[a], name, a in preceding[..i])
      {
        var p := preceding[i];
        assert preceding[..i + 1] == preceding[..i] + [p];
        chainSpec := chainSpec[p := chainSpec[p].(following := RemoveItem(chainSpec[p].following, name))];
      }
    }

    /** Removes the controller from its neighbours' lists, then erases its entry. */
    method ControllerChainSpecCleanup(name: Name)
      requires TwoWay(chainSpec) && name in chainSpec
      modifies `chainSpec
      ensures TwoWay(chainSpec) && chainSpec.Keys == old(chainSpec.Keys) - {name}
      ensures forall a :: a in chainSpec ==> chainSpec[a].following == RemoveItem(old(chainSpec)[a].following, name)
      ensures forall a :: a in chainSpec ==> chainSpec[a].preceding == RemoveItem(old(chainSpec)[a].preceding, name)
    {
      hide TwoWay;
      var following, preceding := chainSpec[name].following, chainSpec[name].preceding;
      ghost var before := chainSpec;
      NeighboursAreKeys(before, name);
      LeavePreceding(name, following);
      LeaveFollowing(name, preceding);
      chainSpec := chainSpec - {name};
      RemovedIsTwoWay(before, chainSpec, name);
    }

    /** Changes the state of one controller; the record is shared by all lists. */
    method SetState(k: nat, state: LifecycleState)
      requires Bookkept() && k < |published|
      requires Ready(published[k]) || !Ready(published[k].(state := state))
      modifies `published
      ensures Bookkept() && (old(UpToDate()) ==> UpToDate())
      ensures published == old(published)[k := old(published)[k].(state := state)]
      ensures NamesOf(published) == NamesOf(old(published))
    {
      if UpToDate() {
        StateChangeKeepsCover(published, k, state, referenceCache, stateCache);
        LaterIsGrouped(published, published[k := published[k].(state := state)]);
      }
      published := published[k := published[k].(state := state)];
      assert NamesOf(published) == NamesOf(old(published));
    }

    /** cleanup_controller: only an inactive controller is cleaned up, and only an unconfigured result
        counts as success. `cleaned` is the state that the plug-in's cleanup ends in. */
    method CleanupController(name: Name, cleaned: LifecycleState) returns (ok: bool)
      requires Bookkept()
      modifies `published
      ensures Bookkept() && (old(UpToDate()) ==> UpToDate()) && NamesOf(published) == NamesOf(old(published))
      ensures var k := Find(old(published), name);
              if k == |published| then !ok && published == old(published)
              else if old(published)[k].state == Inactive then
                published == old(published)[k := old(published)[k].(state := cleaned)] && (ok <==> cleaned == Unconfigured)
              else published == old(published) && (ok <==> old(published)[k].state == Unconfigured)
    {
      var k := Find(published, name);
      if k == |published| {
        return false;
      }
      if published[k].state == Unconfigured {
        return true;
      }
      if published[k].state == Active || published[k].state == Finalized {
        return false;
      }
      SetState(k, cleaned);
      return cleaned == Unconfigured;
    }

    /** Unloads a controller that is neither active nor finalized and whose cleanup, if needed, ends
        unconfigured. */
    method UnloadController(name: Name, cleaned: LifecycleState) returns (ok: bool)
      requires Bookkept()
      modifies this
      ensures Bookkept() && (old(UpToDate()) ==> UpToDate())
      ensures ok <==> Loaded(old(published), name)
                      && (old(published)[Find(old(published), name)].state == Unconfigured
                          || (old(published)[Find(old(published), name)].state == Inactive && cleaned == Unconfigured))
      ensures ok ==> published == Without(old(published), Find(old(published), name))
      ensures ok ==> chainSpec.Keys == old(chainSpec.Keys) - {name}
      ensures !ok ==> chainSpec == old(chainSpec) && published == CleanedUp(old(published), name, cleaned)
    {
      var k := Find(published, name);
      if k == |published| || published[k].state == Active {
        return false;
      }
      ok := CleanupController(name, cleaned);
      if ok {
        assert Without(published, k) == Without(old(published), k);
        Erase(name, k);
      }
    }

    /** The controller leaves the specification and the published list. */
    method Erase(name: Name, k: nat)
      requires Bookkept() && k < |published| && published[k].name == name
      modifies this
      ensures Bookkept() && (old(UpToDate()) ==> UpToDate())
      ensures published == Without(old(published), k)
      ensures chainSpec.Keys == old(chainSpec.Keys) - {name}
    {
      hide TwoWay;
      FindInShorter(published, k);
      if UpToDate() {
        RemovedIsCovered(published, k, referenceCache, stateCache);
        LaterIsGrouped(published, Without(published, k));
      }
      assert NamesOf(published)[k] == name;
      ControllerChainSpecCleanup(name);
      published := Without(published, k);
    }

    // -------------------------------------------------------------------------------------
    // configure_controller
    // -------------------------------------------------------------------------------------

    /** The new list holds the ordered names' controllers, with their chain groups. */
    method SortedCopy(cs: seq<Controller>, cache: map<Name, seq<Name>>, keys: seq<Name>) returns (sorted: seq<Controller>)
      requires UniqueNames(cs) && Unique(ordered) && Elements(ordered) == Elements(NamesOf(cs))
      requires Elements(keys) == cache.Keys == Elements(NamesOf(cs))
      ensures NamesOf(sorted) == ordered
      ensures forall i :: 0 <= i < |sorted| ==>
                sorted[i].name in cache && Loaded(cs, sorted[i].name)
                && sorted[i] == cs[Find(cs, sorted[i].name)].(group := cache[sorted[i].name])
    {
      sorted := [];
      for i := 0 to |ordered|
        invariant |sorted| == i
        invariant forall j :: 0 <= j < i ==> Loaded(cs, ordered[j]) && sorted[j] == cs[Find(cs, ordered[j])]
      {
        assert ordered[i] in Elements(ordered);
        var it := Find(cs, ordered[i]);
        if it < |cs| {
          sorted := sorted + [cs[it]];
        }
      }
      assert NamesOf(sorted) == ordered;
      sorted := SetGroups(sorted, cache, keys);
      forall i | 0 <= i < |sorted|
        ensures sorted[i].name in cache && Loaded(cs, sorted[i].name)
      {
        assert sorted[i].name == ordered[i] && ordered[i] in Elements(ordered);
      }
    }

    /** The loop over the cache of chain groups. */
    method SetGroups(list: seq<Controller>, cache: map<Name, seq<Name>>, keys: seq<Name>) returns (r: seq<Controller>)
      requires UniqueNames(list) && Elements(keys) == cache.Keys == Elements(NamesOf(list))
      ensures |r| == |list|
      ensures forall i :: 0 <= i < |r| ==> list[i].name in cache && r[i] == list[i].(group := cache[list[i].name])
    {
      hide Grouped;
      hide Unique;
      r := list;
      NobodyGrouped(list, cache);
      assert keys[..0] == [];
      assert forall x :: x in keys <==> x in Elements(keys);
      assert forall i :: 0 <= i < |list| ==> list[i].name == NamesOf(list)[i] && list[i].name in Elements(NamesOf(list));
      for j := 0 to |keys|
        invariant NamesOf(r) == NamesOf(list)
        invariant Grouped(list, cache, keys[..j], r)
      {
        assert keys[j] in Elements(keys);
        var it := Find(r, keys[j]);
        FindUnique(list, it);
        GroupSet(list, cache, keys, j, r, it);
        r := r[it := r[it].(group := cache[keys[j]])];
        assert NamesOf(r) == NamesOf(list);
      }
      assert keys[..|keys|] == keys;
      AllGrouped(list, cache, keys, r);
    }

    /** The new order and the new chain groups. */
    method SortAndGroup(cs: seq<Controller>, keys: seq<Name>) returns (sorted: seq<Controller>)
      requires UniqueNames(cs) && Elements(keys) == chainSpec.Keys == Elements(NamesOf(cs))
      requires TwoWay(chainSpec) && Closed(chainSpec)
      modifies `ordered
      ensures forall x :: x in keys ==> x in chainSpec
      ensures NamesOf(sorted) == ordered == OrderFrom(chainSpec, [], keys)
      ensures UniqueNames(sorted) && Elements(NamesOf(sorted)) == Elements(NamesOf(cs))
      ensures forall i :: 0 <= i < |sorted| ==> Regrouped(chainSpec, cs, sorted[i])
    {
      hide TwoWay;
      hide Closed;
      hide Connected;
      hide OrderFrom;
      var cache := BuildFullChainCache(chainSpec, keys);
      ReorderNames(keys);
      OrderIsListing(chainSpec, keys);
      sorted := SortedCopy(cs, cache, keys);
    }

    /** Everything configure_controller does once the controller is inactive and its interfaces are
        known to be unique: rebuild the topology, group, reorder and publish. */
    method Republish(keys: seq<Name>)
      requires UniqueNames(published) && chainSpec.Keys == Elements(NamesOf(published))
      requires Elements(keys) == chainSpec.Keys
      modifies this
      ensures Bookkept() && UpToDate() && chainSpec.Keys == old(chainSpec.Keys)
      ensures Republished(old(published), keys) && Reordered(old(published), published)
    {
      hide Describes;
      hide TwoWay;
      hide Closed;
      hide Regrouped;
      hide Current;
      hide Reordered;
      hide OrderFrom;
      hide Elements;
      hide Unique;
      hide NamesOf;
      var cs := published;
      BuildControllersTopologyInfo(cs);
      DescribedIsTwoWay(chainSpec, referenceCache, stateCache, cs);
      published := SortAndGroup(cs, keys);
      RegroupedIsCurrent(chainSpec, cs, Seen());
    }

    /** The published list is the old one in the new order, with exact chain groups, and the
        specification describes it. */
    ghost predicate Republished(from: seq<Controller>, keys: seq<Name>)
      reads this
    {
      && Closed(chainSpec) && (forall x :: x in keys ==> x in chainSpec)
      && Describes(chainSpec, referenceCache, stateCache, from)
      && NamesOf(published) == ordered == OrderFrom(chainSpec, [], keys)
      && (forall i :: 0 <= i < |published| ==> Regrouped(chainSpec, from, published[i]))
    }

    /** The plug-in's `configure`, the export of its interfaces and the uniqueness checks; every error
        after the first is answered by a cleanup. */
    method ConfigurePlugin(k: nat, plugin: Configuration) returns (ok: bool)
      requires UniqueNames(published) && k < |published| && published[k].state == Unconfigured
      modifies `published
      ensures ok <==> Configurable(old(published)[k], plugin)
      ensures NamesOf(published) == NamesOf(old(published))
      ensures ok ==> published == Reconfigured(old(published), k, plugin)
      ensures !ok ==> published == old(published)[k := Failed(old(published)[k], plugin)]
      ensures !ok ==> (UpToDate() <==> old(UpToDate()) && (Running(FailedState(plugin)) ==> Known(old(Seen()), published[k])))
    {
      hide Current;
      hide Known;
      hide IsUnique;
      ghost var from := published;
      published := published[k := published[k].(state := plugin.configured, commands := plugin.commands, states := plugin.states)];
      ok := plugin.configured == Inactive;
      if ok && published[k].chainable {
        ok := plugin.exports;
        if ok {
          published := published[k := published[k].(chained := false)];
        }
      }
      ok := ok && IsUnique(plugin.commands) && IsUnique(plugin.states);
      if !ok && plugin.configured == Inactive {
        published := published[k := published[k].(state := plugin.cleaned)];
      }
      assert NamesOf(published) == NamesOf(from);
      if !ok {
        FailedConfigurationKeepsIff(View(from, referenceCache, stateCache), k, plugin);
        assert Seen() == View(from[k := Failed(from[k], plugin)], referenceCache, stateCache);
      }
    }

    /** Configures an unconfigured controller. `plugin` says what the plug-in answers; `keys` is the
        iteration order of the specification's hash map. */
    method ConfigureController(name: Name, plugin: Configuration, keys: seq<Name>) returns (ok: bool)
      requires Bookkept() && Elements(keys) == chainSpec.Keys
      modifies this
      ensures Bookkept() && chainSpec.Keys == old(chainSpec.Keys)
      ensures ok <==> Loaded(old(published), name) && Configurable(old(published)[Find(old(published), name)], plugin)
      ensures ok ==> Reordered(Reconfigured(old(published), Find(old(published), name), plugin), published)
      ensures ok ==> UpToDate() && Republished(Reconfigured(old(published), Find(old(published), name), plugin), keys)
      ensures ok ==> Wired(Seen(), chainSpec, name, plugin) && OthersKept(old(published), published, name)
      ensures !ok ==> chainSpec == old(chainSpec) && NamesOf(published) == NamesOf(old(published))
      ensures !ok ==> var k := Find(old(published), name);
                      published == if k < |published| && old(published)[k].state == Unconfigured
                                   then old(published)[k := Failed(old(published)[k], plugin)] else old(published)
      ensures !ok && Loaded(old(published), name) && old(published)[Find(old(published), name)].state == Unconfigured ==>
                var k := Find(old(published), name);
                && Loaded(published, name) && Find(published, name) == k
                && published[k].commands == plugin.commands && published[k].states == plugin.states
                && (published[k].state == Inactive ==> plugin.configured == plugin.cleaned == Inactive)
                && OthersKept(old(published), published, name)
      ensures !ok ==> referenceCache == old(referenceCache) && stateCache == old(stateCache)
      ensures !ok ==> (UpToDate() <==> old(UpToDate()) && Harmless(old(Seen()), Configure(name, plugin)))
    {
      hide Current;
      hide Known;
      hide IsUnique;
      var k := Find(published, name);
      if k == |published| || published[k].state != Unconfigured {
        return false;
      }
      ok := ConfigurePlugin(k, plugin);
      if ok {
        ghost var from := published;
        Republish(keys);
        assert NamesOf(from) == NamesOf(old(published));
        FindUnique(from, k);
        RepublishedIsWired(from, Seen(), chainSpec, keys, name, plugin);
        ReconfiguredKeepsOthers(old(published), k, plugin, published);
      } else {
        OthersStay(old(published), published, k);
      }
    }

    // -------------------------------------------------------------------------------------
    // Whole runs
    // -------------------------------------------------------------------------------------

    /** Any order in which the specification's hash map may be traversed. */
    method IterationOrder() returns (keys: seq<Name>)
      ensures Elements(keys) == chainSpec.Keys && Unique(keys)
    {
      keys := [];
      var rest := chainSpec.Keys;
      while rest != {}
        invariant Elements(keys) + rest == chainSpec.Keys && Elements(keys) !! rest && Unique(keys)
        decreases rest
      {
        var next :| next in rest;
        assert next !in Elements(keys);
        keys, rest := keys + [next], rest - {next};
      }
    }

    /** The outcome of a switch, or of an update cycle that deactivates controllers, reaches the records
        that all lists share. */
    method TakeOutcome(outcome: seq<Controller>) returns (ok: bool)
      requires Bookkept()
      modifies `published
      ensures ok <==> IsOutcome(old(published), outcome)
      ensures published == if ok then outcome else old(published)
      ensures Bookkept() && (old(UpToDate()) ==> UpToDate()) && NamesOf(published) == NamesOf(old(published))
    {
      ok := IsOutcome(published, outcome);
      if ok {
        if UpToDate() {
          OutcomeIsCovered(published, outcome, referenceCache, stateCache);
          LaterIsGrouped(published, outcome);
        }
        assert NamesOf(outcome) == NamesOf(published);
        published := outcome;
      }
    }

    /** One request. */
    method ServeOne(r: Request) returns (ok: bool)
      requires Bookkept() && Possible(r)
      modifies this
      ensures Bookkept() && chainSpec.Keys == NamesAfter(old(chainSpec.Keys), r, ok)
      ensures Served(old(Seen()), r, ok, Seen())
    {
      hide TwoWay;
      hide Current;
      hide Known;
      hide Republished;
      hide Reordered;
      hide Reconfigured;
      hide IsUnique;
      hide IsOutcome;
      hide Wired;
      hide OthersKept;
      match r
      case Load(c, initialised) => ok := AddControllerImpl(c, initialised);
      case Configure(name, plugin) =>
        var keys := IterationOrder();
        ok := ConfigureController(name, plugin, keys);
      case CleanUp(name, cleaned) => ok := CleanupController(name, cleaned);
      case Unload(name, cleaned) => ok := UnloadController(name, cleaned);
      case Switched(outcome) => ok := TakeOutcome(outcome);
    }

    /** The services and switches of a whole run, in any number and order: following and preceding stay
        exact inverses without duplicates, the specification's keys are the uniquely named controllers
        that were loaded and not unloaded, and every request is served as `Served` says, from the state
        before the run to the state after it. */
    method Serve(requests: seq<Request>) returns (answers: seq<bool>, ghost views: seq<View>)
      requires Bookkept() && forall i :: 0 <= i < |requests| ==> Possible(requests[i])
      modifies this
      ensures Bookkept() && |answers| == |requests|
      ensures Elements(NamesOf(published)) == NamesAfterAll(old(Elements(NamesOf(published))), requests, answers)
      ensures ServedAll(views, requests, answers) && views[0] == old(Seen()) && views[|requests|] == Seen()
    {
      hide TwoWay;
      hide Current;
      hide Served;
      answers, views := [], [Seen()];
      for n := 0 to |requests|
        invariant Bookkept() && |answers| == n
        invariant chainSpec.Keys == NamesAfterAll(old(chainSpec.Keys), requests[..n], answers)
        invariant ServedAll(views, requests[..n], answers) && views[0] == old(Seen()) && views[n] == Seen()
      {
        var ok := ServeOne(requests[n]);
        assert requests[..n + 1][..n] == requests[..n] && (answers + [ok])[..n] == answers;
        ServedOneMore(views, requests, answers, ok, Seen());
        answers, views := answers + [ok], views + [Seen()];
      }
      assert requests[..|requests|] == requests;
    }
  }

  // ---------------------------------------------------------------------------------------
  // Whole runs
  // ---------------------------------------------------------------------------------------

  /** What changes the list of controllers: the services, and the outcome of a controller switch or of
      an update cycle. */
  datatype Request =
    | Load(c: Controller, initialised: bool)
    | Configure(name: Name, plugin: Configuration)
    | CleanUp(name: Name, cleaned: LifecycleState)
    | Unload(name: Name, cleaned: LifecycleState)
    | Switched(outcome: seq<Controller>)

  /** A request that can occur: a new controller is unconfigured and has no chain group. */
  predicate Possible(r: Request) {
    r.Load? ==> r.c.state == Unconfigured && r.c.group == []
  }

  /** The loaded names after one request that succeeds, or does not. */
  function NamesAfter(names: set<Name>, r: Request, ok: bool): set<Name> {
    if ok && r.Load? then names + {r.c.name}
    else if ok && r.Unload? then names - {r.name}
    else names
  }

  /** When a request succeeds. */
  predicate Granted(cs: seq<Controller>, r: Request) {
    match r
    case Load(c, initialised) => initialised && !Loaded(cs, c.name)
    case Configure(name, plugin) => Loaded(cs, name) && Configurable(cs[Find(cs, name)], plugin)
    case CleanUp(name, cleaned) =>
      Loaded(cs, name) && (cs[Find(cs, name)].state == Unconfigured || (cs[Find(cs, name)].state == Inactive && cleaned == Unconfigured))
    case Unload(name, cleaned) =>
      Loaded(cs, name) && (cs[Find(cs, name)].state == Unconfigured || (cs[Find(cs, name)].state == Inactive && cleaned == Unconfigured))
    case Switched(outcome) => IsOutcome(cs, outcome)
  }

  /** The caches list `c` as a user of itself and of every inactive or active controller, and these as
      users of `c`, wherever they are. */
  ghost predicate CoveredAmong(v: View, c: Controller) {
    && Covered(c, c.name, v.reference, v.state)
    && (forall j :: 0 <= j < |v.list| && Ready(v.list[j])
                    ==> Covered(c, v.list[j].name, v.reference, v.state) && Covered(v.list[j], c.name, v.reference, v.state))
  }

  /** Every stored group with an owner that `c` uses contains `c`. */
  ghost predicate GroupedAmong(cs: seq<Controller>, c: Controller) {
    forall x, owner :: 0 <= x < |cs| && DependsOn(c, owner) && owner in cs[x].group ==> c.name in cs[x].group
  }

  function CleanedUp(cs: seq<Controller>, name: Name, cleaned: LifecycleState): seq<Controller> {
    var k := Find(cs, name);
    if k < |cs| && cs[k].state == Inactive then cs[k := cs[k].(state := cleaned)] else cs
  }

  /** The list after a request other than a successful configuration. */
  function ListAfter(cs: seq<Controller>, r: Request): seq<Controller> {
    match r
    case Load(c, _) => if Granted(cs, r) then cs + [c] else cs
    case Configure(name, plugin) =>
      var k := Find(cs, name);
      if k < |cs| && cs[k].state == Unconfigured then cs[k := Failed(cs[k], plugin)] else cs
    case CleanUp(name, cleaned) => CleanedUp(cs, name, cleaned)
    case Unload(name, cleaned) => if Granted(cs, r) then Without(cs, Find(cs, name)) else CleanedUp(cs, name, cleaned)
    case Switched(outcome) => if Granted(cs, r) then outcome else cs
  }

  /** The same controllers in any order, with any chain groups. */
  ghost predicate Reordered(from: seq<Controller>, to: seq<Controller>) {
    && UniqueNames(to) && Elements(NamesOf(to)) == Elements(NamesOf(from))
    && forall i :: 0 <= i < |to| ==> Loaded(from, to[i].name) && to[i] == from[Find(from, to[i].name)].(group := to[i].group)
  }

  /** Caches and groups already say about `c` what a successful configuration would have them say. */
  ghost predicate Known(v: View, c: Controller) {
    CoveredAmong(v, c) && GroupedAmong(v.list, c) && c.name in c.group
  }

  /** A configuration that fails has no way to spoil caches and groups: it finds no unconfigured
      controller, or does not leave it inactive or active, or leaves one that they know. */
  ghost predicate Harmless(v: View, r: Request) {
    r.Configure? && Loaded(v.list, r.name) && v.list[Find(v.list, r.name)].state == Unconfigured && Running(FailedState(r.plugin))
    ==> Known(v, Failed(v.list[Find(v.list, r.name)], r.plugin))
  }

  /** The answer, the list afterwards, and whether caches and groups are up to date afterwards: always after a successful
      configuration; after a failed one exactly if they were before and it was harmless; every other
      request leaves them so. */
  ghost predicate Served(v: View, r: Request, ok: bool, v': View) {
    && (ok <==> Granted(v.list, r))
    && (if ok && r.Configure? then Reordered(Reconfigured(v.list, Find(v.list, r.name), r.plugin), v'.list)
        else v'.list == ListAfter(v.list, r))
    && (if !r.Configure? then Current(v) ==> Current(v')
        else if ok then Current(v')
        else Current(v') <==> Current(v) && Harmless(v, r))
  }

  ghost predicate ServedAll(views: seq<View>, requests: seq<Request>, answers: seq<bool>) {
    && |views| == |requests| + 1 == |answers| + 1
    && forall n :: 0 <= n < |requests| ==> Served(views[n], requests[n], answers[n], views[n + 1])
  }

  lemma ServedOneMore(views: seq<View>, requests: seq<Request>, answers: seq<bool>, ok: bool, v: View)
    requires |answers| < |requests| && ServedAll(views, requests[..|answers|], answers)
    requires Served(views[|answers|], requests[|answers|], ok, v)
    ensures ServedAll(views + [v], requests[..|answers| + 1], answers + [ok])
  {
    hide Served;
  }

  /** From any moment of a run at which caches and groups are up to date, in particular from the end of
      any successful configuration, they stay so for as long as every failed configuration is harmless;
      and the first failed one that is not spoils them. */
  lemma {:induction false} CurrentUntilSpoilt(views: seq<View>, requests: seq<Request>, answers: seq<bool>, m: nat, n: nat)
    requires ServedAll(views, requests, answers) && m <= n <= |requests|
    requires Current(views[m]) || (0 < m && requests[m - 1].Configure? && answers[m - 1])
    requires forall i :: m <= i < n ==> answers[i] || Harmless(views[i], requests[i])
    ensures Current(views[n])
    ensures n < |requests| && !answers[n] && !Harmless(views[n], requests[n]) ==> !Current(views[n + 1])
    decreases n
  {
    hide Current;
    hide Known;
    if m < n {
      CurrentUntilSpoilt(views, requests, answers, m, n - 1);
      assert Served(views[n - 1], requests[n - 1], answers[n - 1], views[n]);
    } else if 0 < m {
      assert Served(views[m - 1], requests[m - 1], answers[m - 1], views[m]);
    }
    if n < |requests| {
      assert Served(views[n], requests[n], answers[n], views[n + 1]);
    }
  }

  function NamesAfterAll(names: set<Name>, requests: seq<Request>, answers: seq<bool>): set<Name>
    requires |requests| == |answers|
  {
    if requests == [] then names
    else
      var last := |requests| - 1;
      NamesAfter(NamesAfterAll(names, requests[..last], answers[..last]), requests[last], answers[last])
  }

  predicate IsOutcome(from: seq<Controller>, to: seq<Controller>) {
    |to| == |from| && forall i :: 0 <= i < |from| ==> OnlySwitched(from[i], to[i])
  }

  lemma OutcomeIsCovered(from: seq<Controller>, to: seq<Controller>, reference: Cache, state: Cache)
    requires Covers(from, reference, state) && IsOutcome(from, to)
    ensures Covers(to, reference, state)
  {
    forall i, j | 0 <= i < |to| && 0 <= j < |to| && Ready(to[i]) && Ready(to[j])
      ensures Covered(to[i], to[j].name, reference, state)
    {
      assert Covered(from[i], from[j].name, reference, state);
    }
  }

  /** `is_unique`. */
  predicate IsUnique(interfaces: seq<Interface>) {
    forall i, j :: 0 <= i < j < |interfaces| ==> interfaces[i] != interfaces[j]
  }

  /** The state after a configuration that does not succeed. */
  function FailedState(plugin: Configuration): LifecycleState {
    if plugin.configured == Inactive then plugin.cleaned else plugin.configured
  }

  /** The controller after such a configuration. */
  function Failed(c: Controller, plugin: Configuration): Controller {
    c.(state := FailedState(plugin), commands := plugin.commands, states := plugin.states,
       chained := if plugin.configured == Inactive && c.chainable && plugin.exports then false else c.chained)
  }

  /** When the configuration of a controller succeeds. */
  predicate Configurable(c: Controller, plugin: Configuration) {
    && c.state == Unconfigured && plugin.configured == Inactive
    && (c.chainable ==> plugin.exports) && IsUnique(plugin.commands) && IsUnique(plugin.states)
  }

  /** The list with one controller configured, before it is reordered. */
  function Reconfigured(cs: seq<Controller>, k: nat, plugin: Configuration): seq<Controller>
    requires k < |cs|
  {
    cs[k := cs[k].(state := Inactive, commands := plugin.commands, states := plugin.states,
                   chained := if cs[k].chainable then false else cs[k].chained)]
  }

  /** After a successful configuration the controller is inactive and has the lists that its plug-in reports;
      the caches list it exactly for the loaded owners of these; owners of its command interfaces follow
      it and owners of its state interfaces precede it, in both directions of the specification and, in a
      forest, in the published list. */
  ghost predicate Wired(v: View, g: Graph, name: Name, plugin: Configuration) {
    && Loaded(v.list, name) && name in g
    && (var c := v.list[Find(v.list, name)];
        c.state == Inactive && c.commands == plugin.commands && c.states == plugin.states && (c.chainable ==> !c.chained))
    && (forall o :: name in Entry(v.reference, o) <==> Loaded(v.list, o) && Mentions(plugin.commands, o))
    && (forall o :: name in Entry(v.state, o) <==> Loaded(v.list, o) && Mentions(plugin.states, o))
    && (forall o :: Loaded(v.list, o) && Mentions(plugin.commands, o) ==>
                      o in g && o in g[name].following && name in g[o].preceding && (Forest(g) ==> Before(NamesOf(v.list), name, o)))
    && (forall o :: Loaded(v.list, o) && Mentions(plugin.states, o) ==>
                      o in g && o in g[name].preceding && name in g[o].following && (Forest(g) ==> Before(NamesOf(v.list), o, name)))
  }

  /** Every other controller is the same but for its chain group. */
  ghost predicate OthersKept(from: seq<Controller>, to: seq<Controller>, name: Name) {
    forall n :: n != name && Loaded(from, n) ==> Loaded(to, n) && to[Find(to, n)] == from[Find(from, n)].(group := to[Find(to, n)].group)
  }

  lemma RepublishedIsWired(from: seq<Controller>, v: View, g: Graph, keys: seq<Name>, name: Name, plugin: Configuration)
    requires UniqueNames(from) && Describes(g, v.reference, v.state, from) && Reordered(from, v.list)
    requires TwoWay(g) && Closed(g) && g.Keys == Elements(NamesOf(from)) == Elements(keys)
    requires (forall x :: x in keys ==> x in g) && NamesOf(v.list) == OrderFrom(g, [], keys)
    requires Loaded(from, name)
    requires var c := from[Find(from, name)];
             c.state == Inactive && c.commands == plugin.commands && c.states == plugin.states && (c.chainable ==> !c.chained)
    ensures Wired(v, g, name, plugin)
  {
    hide Forest;
    hide OrderFrom;
    hide TwoWay;
    hide Describes;
    hide Reordered;
    hide Before;
    hide Mentions;
    hide Entry;
    hide Find;
    SameLoaded(from, v.list);
    KeyIsLoaded(from, name);
    forall o
      ensures name in Entry(v.reference, o) <==> Loaded(from, o) && Mentions(plugin.commands, o)
      ensures name in Entry(v.state, o) <==> Loaded(from, o) && Mentions(plugin.states, o)
    {
      CachedUses(from, v, g, name, o);
    }
    forall o | Loaded(from, o)
      ensures o in g
      ensures Mentions(plugin.commands, o) ==>
                o in g[name].following && name in g[o].preceding && (Forest(g) ==> Before(NamesOf(v.list), name, o))
      ensures Mentions(plugin.states, o) ==>
                o in g[name].preceding && name in g[o].following && (Forest(g) ==> Before(NamesOf(v.list), o, name))
    {
      KeyIsLoaded(from, o);
      UserIsFollowed(from, v, g, name, o);
      if Mentions(plugin.commands, o) {
        LinkIsOrdered(g, keys, name, o);
      }
      if Mentions(plugin.states, o) {
        LinkIsOrdered(g, keys, o, name);
      }
    }
  }

  lemma KeyIsLoaded(cs: seq<Controller>, n: Name)
    ensures n in Elements(NamesOf(cs)) <==> Loaded(cs, n)
  {
  }

  lemma CachedUses(cs: seq<Controller>, v: View, g: Graph, user: Name, owner: Name)
    requires Describes(g, v.reference, v.state, cs) && Loaded(cs, user) && cs[Find(cs, user)].state != Unconfigured
    ensures user in Entry(v.reference, owner) <==> Loaded(cs, owner) && Mentions(cs[Find(cs, user)].commands, owner)
    ensures user in Entry(v.state, owner) <==> Loaded(cs, owner) && Mentions(cs[Find(cs, user)].states, owner)
  {
    assert user in Entry(v.reference, owner) <==> UsesCommands(cs, user, owner);
    assert user in Entry(v.state, owner) <==> UsesStates(cs, user, owner);
  }

  lemma UserIsFollowed(cs: seq<Controller>, v: View, g: Graph, user: Name, owner: Name)
    requires Describes(g, v.reference, v.state, cs) && Loaded(cs, user) && Loaded(cs, owner) && user in g && owner in g
    requires cs[Find(cs, user)].state != Unconfigured
    ensures Mentions(cs[Find(cs, user)].commands, owner) ==> owner in g[user].following
    ensures Mentions(cs[Find(cs, user)].states, owner) ==> user in g[owner].following
  {
    if Mentions(cs[Find(cs, user)].commands, owner) {
      assert UsesCommands(cs, user, owner) && Follows(cs, user, owner);
    }
    if Mentions(cs[Find(cs, user)].states, owner) {
      assert UsesStates(cs, user, owner) && Follows(cs, owner, user);
    }
  }

  lemma SameLoaded(from: seq<Controller>, to: seq<Controller>)
    requires Reordered(from, to)
    ensures forall n :: Loaded(to, n) <==> Loaded(from, n)
    ensures forall n :: Loaded(to, n) ==> to[Find(to, n)] == from[Find(from, n)].(group := to[Find(to, n)].group)
  {
    forall n
      ensures Loaded(to, n) <==> Loaded(from, n)
    {
      assert Loaded(to, n) <==> n in Elements(NamesOf(to));
      assert Loaded(from, n) <==> n in Elements(NamesOf(from));
    }
  }

  lemma LinkIsOrdered(g: Graph, keys: seq<Name>, a: Name, b: Name)
    requires TwoWay(g) && Closed(g) && Elements(keys) == g.Keys && a in g && b in g && b in g[a].following
    requires forall x :: x in keys ==> x in g
    ensures a in g[b].preceding
    ensures Forest(g) ==> Before(OrderFrom(g, [], keys), a, b)
  {
    hide Forest;
    hide OrderFrom;
    ReorderingIsRight(g, keys);
    var r := OrderFrom(g, [], keys);
    assert a in Elements(r) && b in Elements(r);
  }

  lemma ReconfiguredKeepsOthers(from: seq<Controller>, k: nat, plugin: Configuration, to: seq<Controller>)
    requires UniqueNames(from) && k < |from| && Reordered(Reconfigured(from, k, plugin), to)
    ensures OthersKept(from, to, from[k].name)
  {
    var re := Reconfigured(from, k, plugin);
    OthersStay(from, re, k);
    SameLoaded(re, to);
  }

  lemma OthersStay(from: seq<Controller>, to: seq<Controller>, k: nat)
    requires UniqueNames(from) && |to| == |from| && k < |from| && to[k].name == from[k].name
    requires forall i :: 0 <= i < |from| && i != k ==> to[i] == from[i]
    ensures OthersKept(from, to, from[k].name) && Find(to, from[k].name) == k
    ensures NamesOf(to) == NamesOf(from)
  {
    assert NamesOf(to) == NamesOf(from);
    FindUnique(from, k);
    FindUnique(to, k);
  }

  /** `c` is the controller of that name of the old list, with its connected component as group. */
  ghost predicate Regrouped(g: Graph, from: seq<Controller>, c: Controller) {
    && Loaded(from, c.name) && c == from[Find(from, c.name)].(group := c.group)
    && Unique(c.group) && (forall x :: x in c.group <==> Connected(g, c.name, x))
  }

  lemma DescribedIsTwoWay(g: Graph, reference: Cache, state: Cache, cs: seq<Controller>)
    requires Describes(g, reference, state, cs)
    ensures TwoWay(g) && Closed(g)
  {
  }

  lemma OrderIsListing(g: Graph, keys: seq<Name>)
    requires TwoWay(g) && Closed(g) && Elements(keys) == g.Keys
    ensures forall x :: x in keys ==> x in g
    ensures Unique(OrderFrom(g, [], keys)) && Elements(OrderFrom(g, [], keys)) == g.Keys
  {
    ReorderingIsRight(g, keys);
  }

  lemma SortedIsCovered(from: seq<Controller>, to: seq<Controller>, g: Graph, reference: Cache, state: Cache)
    requires UniqueNames(from) && Describes(g, reference, state, from)
    requires forall i :: 0 <= i < |to| ==> Loaded(from, to[i].name) && to[i] == from[Find(from, to[i].name)].(group := to[i].group)
    ensures Covers(to, reference, state)
  {
    forall i, j | 0 <= i < |to| && 0 <= j < |to| && Ready(to[i]) && Ready(to[j])
      ensures Covered(to[i], to[j].name, reference, state)
    {
      if Mentions(to[i].commands, to[j].name) {
        assert UsesCommands(from, to[i].name, to[j].name);
      }
      if Mentions(to[i].states, to[j].name) {
        assert UsesStates(from, to[i].name, to[j].name);
      }
    }
  }

  /** A failed configuration keeps caches and groups up to date exactly if they were so before and
      either do not have to know the controller afterwards or know it already. */
  lemma FailedConfigurationKeepsIff(v: View, k: nat, plugin: Configuration)
    requires k < |v.list| && !Ready(v.list[k])
    ensures var c := Failed(v.list[k], plugin);
            Current(v.(list := v.list[k := c])) <==> Current(v) && (Running(FailedState(plugin)) ==> Known(v, c))
  {
    var c := Failed(v.list[k], plugin);
    CoversIff(v, k, c);
    GroupedIff(v.list, k, c);
    SelfGroupedIff(v.list, k, c);
  }

  lemma CoversIff(v: View, k: nat, c: Controller)
    requires k < |v.list| && !Ready(v.list[k]) && c.name == v.list[k].name
    ensures Covers(v.list[k := c], v.reference, v.state)
            <==> Covers(v.list, v.reference, v.state) && (Ready(c) ==> CoveredAmong(v, c))
  {
    hide Covered;
    var from, to := v.list, v.list[k := c];
    assert forall i :: 0 <= i < |to| && i != k ==> to[i] == from[i];
    if Covers(to, v.reference, v.state) {
      forall i, j | 0 <= i < |from| && 0 <= j < |from| && Ready(from[i]) && Ready(from[j])
        ensures Covered(from[i], from[j].name, v.reference, v.state)
      {
        assert to[i] == from[i] && to[j] == from[j];
      }
      if Ready(c) {
        assert to[k] == c;
        forall j | 0 <= j < |from| && Ready(from[j])
          ensures Covered(c, from[j].name, v.reference, v.state) && Covered(from[j], c.name, v.reference, v.state)
        {
          assert to[j] == from[j];
        }
      }
    }
  }

  lemma GroupedIff(cs: seq<Controller>, k: nat, c: Controller)
    requires k < |cs| && !Ready(cs[k]) && c.name == cs[k].name && c.group == cs[k].group
    ensures UsersGrouped(cs[k := c]) <==> UsersGrouped(cs) && (Ready(c) ==> GroupedAmong(cs, c))
  {
    hide DependsOn;
    var to := cs[k := c];
    assert forall i :: 0 <= i < |to| && i != k ==> to[i] == cs[i];
    assert forall i :: 0 <= i < |to| ==> to[i].group == cs[i].group && to[i].name == cs[i].name;
    if UsersGrouped(to) {
      forall x, i, owner | 0 <= x < |cs| && 0 <= i < |cs| && Ready(cs[i]) && DependsOn(cs[i], owner) && owner in cs[x].group
        ensures cs[i].name in cs[x].group
      {
        assert DependsOn(to[i], owner) && owner in to[x].group;
      }
      if Ready(c) {
        forall x, owner | 0 <= x < |cs| && DependsOn(c, owner) && owner in cs[x].group
          ensures c.name in cs[x].group
        {
          assert DependsOn(to[k], owner) && owner in to[x].group;
        }
      }
    }
  }

  lemma SelfGroupedIff(cs: seq<Controller>, k: nat, c: Controller)
    requires k < |cs| && !Ready(cs[k])
    ensures SelfGrouped(cs[k := c]) <==> SelfGrouped(cs) && (Ready(c) ==> c.name in c.group)
  {
    var to := cs[k := c];
    assert to[k] == c && forall i :: 0 <= i < |to| && i != k ==> to[i] == cs[i];
  }

  lemma FindInLonger(from: seq<Controller>, c: Controller)
    requires !Loaded(from, c.name)
    ensures NamesOf(from + [c]) == NamesOf(from) + [c.name]
    ensures Find(from + [c], c.name) == |from|
    ensures forall n :: Loaded(from, n) ==> Find(from + [c], n) == Find(from, n)
    ensures forall n :: Loaded(from + [c], n) ==> Loaded(from, n) || n == c.name
  {
    assert NamesOf(from + [c]) == NamesOf(from) + [c.name];
    forall n | Loaded(from, n)
      ensures Find(from + [c], n) == Find(from, n)
    {
      assert NamesOf(from + [c])[Find(from, n)] == n;
    }
  }

  lemma AddedIsBookkept(from: seq<Controller>, c: Controller, g: Graph)
    requires UniqueNames(from) && g.Keys == Elements(NamesOf(from)) && TwoWay(g) && !Loaded(from, c.name)
    ensures var g' := g[c.name := ChainSpec([], [])];
            UniqueNames(from + [c]) && g'.Keys == Elements(NamesOf(from + [c])) && TwoWay(g')
  {
    FindInLonger(from, c);
    var g' := g[c.name := ChainSpec([], [])];
    forall a, b | Linked(g', a, b)
      ensures b in g'
    {
      assert Linked(g, a, b);
    }
    forall a, b | a in g' && b in g'
      ensures b in g'[a].following <==> a in g'[b].preceding
    {
      assert !Linked(g, a, c.name) && !Linked(g, b, c.name);
    }
  }

  lemma AddedIsCovered(from: seq<Controller>, c: Controller, reference: Cache, state: Cache)
    requires Covers(from, reference, state) && !Loaded(from, c.name) && c.state == Unconfigured
    ensures Covers(from + [c], reference[c.name := []], state[c.name := []])
  {
    var to := from + [c];
    forall i, j | 0 <= i < |to| && 0 <= j < |to| && Ready(to[i]) && Ready(to[j])
      ensures Covered(to[i], to[j].name, reference[c.name := []], state[c.name := []])
    {
      assert Covered(from[i], from[j].name, reference, state);
      assert NamesOf(from)[j] != c.name;
    }
  }

  lemma NeighboursAreKeys(g: Graph, name: Name)
    requires TwoWay(g) && name in g
    ensures Unique(g[name].following) && Unique(g[name].preceding)
    ensures forall i :: 0 <= i < |g[name].following| ==> g[name].following[i] in g
    ensures forall i :: 0 <= i < |g[name].preceding| ==> g[name].preceding[i] in g
  {
    assert forall i :: 0 <= i < |g[name].following| ==> Linked(g, name, g[name].following[i]);
    assert forall i :: 0 <= i < |g[name].preceding| ==> Linked(g, name, g[name].preceding[i]);
  }

  lemma RemovedIsTwoWay(g: Graph, r: Graph, name: Name)
    requires TwoWay(g) && name in g && r.Keys == g.Keys - {name}
    requires forall a :: a in r ==>
               r[a] == LeftFollowing(LeftPreceding(g[a], name, a in g[name].following), name, a in g[name].preceding)
    ensures TwoWay(r)
    ensures forall a :: a in r ==> r[a].following == RemoveItem(g[a].following, name)
    ensures forall a :: a in r ==> r[a].preceding == RemoveItem(g[a].preceding, name)
  {
    forall a | a in r
      ensures r[a].following == RemoveItem(g[a].following, name)
      ensures r[a].preceding == RemoveItem(g[a].preceding, name)
    {
      assert name in g[a].following <==> a in g[name].preceding;
      assert a in g[name].following <==> name in g[a].preceding;
    }
    forall a, b | Linked(r, a, b)
      ensures b in r
    {
      assert Linked(g, a, b) && b != name;
    }
  }

  function Without(from: seq<Controller>, k: nat): seq<Controller>
    requires k < |from|
  {
    from[..k] + from[k + 1..]
  }

  lemma NamesInShorter(from: seq<Controller>, k: nat)
    requires UniqueNames(from) && k < |from|
    ensures UniqueNames(Without(from, k))
    ensures forall n :: n in NamesOf(Without(from, k)) <==> n in NamesOf(from) && n != from[k].name
  {
    var names := NamesOf(from);
    assert NamesOf(Without(from, k)) == names[..k] + names[k + 1..];
    IndexOfUnique(names, k);
    assert NamesOf(Without(from, k)) == RemoveItem(names, names[k]);
  }

  lemma FindInShorter(from: seq<Controller>, k: nat)
    requires UniqueNames(from) && k < |from|
    ensures UniqueNames(Without(from, k))
    ensures Elements(NamesOf(Without(from, k))) == Elements(NamesOf(from)) - {from[k].name}
    ensures forall n :: Loaded(Without(from, k), n) ==>
                          Loaded(from, n) && Without(from, k)[Find(Without(from, k), n)] == from[Find(from, n)]
  {
    NamesInShorter(from, k);
    var r := Without(from, k);
    forall n | Loaded(r, n)
      ensures Loaded(from, n) && r[Find(r, n)] == from[Find(from, n)]
    {
      var i := Find(r, n);
      assert r[i] == from[if i < k then i else i + 1];
      FindUnique(from, if i < k then i else i + 1);
    }
  }

  lemma RemovedIsCovered(from: seq<Controller>, k: nat, reference: Cache, state: Cache)
    requires UniqueNames(from) && k < |from| && Covers(from, reference, state)
    ensures Covers(Without(from, k), reference, state)
  {
    var to := Without(from, k);
    forall i, j | 0 <= i < |to| && 0 <= j < |to| && Ready(to[i]) && Ready(to[j])
      ensures Covered(to[i], to[j].name, reference, state)
    {
      var i', j' := if i < k then i else i + 1, if j < k then j else j + 1;
      assert Covered(from[i'], from[j'].name, reference, state);
    }
  }

  /** Inactive or active: configured, and not finalized. */
  ghost predicate Covers(cs: seq<Controller>, reference: Cache, state: Cache) {
    forall i, j :: 0 <= i < |cs| && 0 <= j < |cs| && Ready(cs[i]) && Ready(cs[j])
                   ==> Covered(cs[i], cs[j].name, reference, state)
  }

  /** If the controller uses interfaces of `owner`, the caches of `owner` list it. */
  ghost predicate Covered(user: Controller, owner: Name, reference: Cache, state: Cache) {
    && (Mentions(user.commands, owner) ==> user.name in Entry(reference, owner))
    && (Mentions(user.states, owner) ==> user.name in Entry(state, owner))
  }

  lemma StateChangeKeepsCover(from: seq<Controller>, k: nat, state: LifecycleState, reference: Cache, states: Cache)
    requires k < |from| && (Ready(from[k]) || !Ready(from[k].(state := state))) && Covers(from, reference, states)
    ensures Covers(from[k := from[k].(state := state)], reference, states)
  {
    var to := from[k := from[k].(state := state)];
    forall i, j | 0 <= i < |to| && 0 <= j < |to| && Ready(to[i]) && Ready(to[j])
      ensures Covered(to[i], to[j].name, reference, states)
    {
      assert Covered(from[i], from[j].name, reference, states);
    }
  }

  /** A chain group that contains a name contains its inactive and active users. */
  ghost predicate UsersGrouped(cs: seq<Controller>) {
    forall x, i, owner :: (0 <= x < |cs| && 0 <= i < |cs| && Ready(cs[i]) && DependsOn(cs[i], owner) && owner in cs[x].group)
                          ==> cs[i].name in cs[x].group
  }

  /** Every inactive or active controller is in its own chain group. */
  ghost predicate SelfGrouped(cs: seq<Controller>) {
    forall i :: 0 <= i < |cs| && Ready(cs[i]) ==> cs[i].name in cs[i].group
  }

  /** Groups stay closed while nobody becomes inactive or active anew and groups at most disappear. */
  lemma LaterIsGrouped(from: seq<Controller>, to: seq<Controller>)
    requires UsersGrouped(from) && SelfGrouped(from)
    requires forall x :: 0 <= x < |to| && to[x].group != [] ==> exists y :: 0 <= y < |from| && from[y].group == to[x].group
    requires forall i :: 0 <= i < |to| && Ready(to[i]) ==> exists y :: 0 <= y < |from| && SameUser(from[y], to[i])
    ensures UsersGrouped(to) && SelfGrouped(to)
  {
    forall x, i, owner | 0 <= x < |to| && 0 <= i < |to| && Ready(to[i]) && DependsOn(to[i], owner) && owner in to[x].group
      ensures to[i].name in to[x].group
    {
      var y :| 0 <= y < |from| && from[y].group == to[x].group;
      var j :| 0 <= j < |from| && SameUser(from[j], to[i]);
      assert DependsOn(from[j], owner);
    }
  }

  predicate SameUser(a: Controller, b: Controller) {
    Ready(a) && a.name == b.name && a.commands == b.commands && a.states == b.states && a.group == b.group
  }

  /** The groups stored by a configuration are closed under users. */
  lemma RepublishedIsGrouped(g: Graph, reference: Cache, state: Cache, from: seq<Controller>, cs: seq<Controller>)
    requires Describes(g, reference, state, from) && g.Keys == Elements(NamesOf(from))
    requires forall i :: 0 <= i < |cs| ==> Regrouped(g, from, cs[i])
    ensures UsersGrouped(cs) && SelfGrouped(cs)
  {
    forall i | 0 <= i < |cs|
      ensures cs[i].name in cs[i].group
    {
      assert Regrouped(g, from, cs[i]) && cs[i].name in Elements(NamesOf(from));
      ConnectedRefl(g, cs[i].name);
    }
    forall x, i, owner | 0 <= x < |cs| && 0 <= i < |cs| && Ready(cs[i]) && DependsOn(cs[i], owner) && owner in cs[x].group
      ensures cs[i].name in cs[x].group
    {
      assert Regrouped(g, from, cs[x]) && Regrouped(g, from, cs[i]);
      assert cs[i].name in Elements(NamesOf(from));
      ConnectedIsKey(g, cs[x].name, owner);
      assert owner in Elements(NamesOf(from));
      UserIsLinked(g, reference, state, from, cs[i], owner);
      ConnectedLink(g, owner, cs[i].name);
      ConnectedTrans(g, cs[x].name, owner, cs[i].name);
    }
  }

  lemma RegroupedIsCurrent(g: Graph, from: seq<Controller>, v: View)
    requires UniqueNames(from) && Describes(g, v.reference, v.state, from) && g.Keys == Elements(NamesOf(from))
    requires Unique(NamesOf(v.list)) && Elements(NamesOf(v.list)) == Elements(NamesOf(from))
    requires forall i :: 0 <= i < |v.list| ==> Regrouped(g, from, v.list[i])
    ensures Current(v) && Reordered(from, v.list)
  {
    hide Describes;
    hide Covers;
    SortedIsCovered(from, v.list, g, v.reference, v.state);
    RepublishedIsGrouped(g, v.reference, v.state, from, v.list);
  }

  lemma ConnectedIsKey(g: Graph, a: Name, b: Name)
    requires Connected(g, a, b)
    ensures b in g
  {
    var p :| WalkBetween(g, p, a, b);
  }

  lemma UserIsLinked(g: Graph, reference: Cache, state: Cache, from: seq<Controller>, user: Controller, owner: Name)
    requires Describes(g, reference, state, from) && user.name in g && owner in g
    requires Loaded(from, user.name) && Loaded(from, owner) && user == from[Find(from, user.name)].(group := user.group)
    requires Ready(user) && DependsOn(user, owner)
    ensures Linked(g, owner, user.name)
  {
    if Mentions(user.commands, owner) {
      assert UsesCommands(from, user.name, owner);
      assert Follows(from, user.name, owner);
    } else {
      assert UsesStates(from, user.name, owner);
      assert Follows(from, owner, user.name);
    }
  }

  /** A configuration that fails while the cleanup leaves the controller inactive: neither the caches nor
      the chain group of the controller that it uses know about it. */
  lemma FailedConfigurationSpoils()
    ensures var filter, pilot := Name("filter"), Name("pilot");
            var plugin := Configuration(Inactive, [Interface(filter, "goal"), Interface(filter, "goal")], [], false, Inactive);
            var from := [Controller(filter, Active, true, false, [], [], [filter]),
                         Controller(pilot, Unconfigured, false, false, [], [], [])];
            var to := from[1 := Failed(from[1], plugin)];
            && !Configurable(from[1], plugin)
            && Covers(from, map[], map[]) && UsersGrouped(from)
            && !Covers(to, map[], map[]) && !UsersGrouped(to)
  {
    var filter, pilot := Name("filter"), Name("pilot");
    var goal := Interface(filter, "goal");
    var plugin := Configuration(Inactive, [goal, goal], [], false, Inactive);
    var from := [Controller(filter, Active, true, false, [], [], [filter]),
                 Controller(pilot, Unconfigured, false, false, [], [], [])];
    var to := from[1 := Failed(from[1], plugin)];
    assert [goal, goal][0] == [goal, goal][1];
    assert to[1].commands[0].owner == filter && Mentions(to[1].commands, filter);
    assert !DependsOn(from[0], filter) && !Ready(from[1]);
    assert Covers(from, map[], map[]) && UsersGrouped(from);
    assert !IsUnique(plugin.commands);
    assert to[0] == from[0] && DependsOn(to[1], filter) && to[1].name == pilot;
    assert Ready(to[0]) && Ready(to[1]) && !Covered(to[1], to[0].name, map[], map[]);
    assert filter in to[0].group && pilot !in to[0].group;
  }
}
