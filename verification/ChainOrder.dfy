/** The ordered list of controllers: update_list_with_controller_chain and the loop of
    configure_controller that starts it for every controller (controller_manager.cpp). */
module ChainOrder {
  import opened Names
  import opened ChainGraph

  // ---------------------------------------------------------------------------------------
  // The insertion, as a function of the list
  // ---------------------------------------------------------------------------------------

  /** The first loop: the iterator moves back to the earliest listed following controller. */
  function PullBack(ordered: seq<Name>, following: seq<Name>, pos: nat): (k: nat)
    requires pos <= |ordered|
    ensures k <= pos
    ensures forall f :: f in following && f in ordered ==> k <= IndexOf(ordered, f)
    ensures k == pos || exists f :: f in following && f in ordered && IndexOf(ordered, f) == k
    decreases |following|
  {
    if following == [] then pos
    else
      var it := IndexOf(ordered, following[0]);
      assert forall f :: f in following <==> f == following[0] || f in following[1..];
      PullBack(ordered, following[1..], if it < |ordered| && it < pos then it else pos)
  }

  /** The second loop: the iterator moves forward to the latest listed preceding controller. */
  function PushForward(ordered: seq<Name>, preceding: seq<Name>, pos: nat): (k: nat)
    requires pos <= |ordered|
    ensures pos <= k <= |ordered|
    ensures forall p :: p in preceding && p in ordered ==> IndexOf(ordered, p) <= k
    ensures k == pos || exists p :: p in preceding && p in ordered && IndexOf(ordered, p) == k
    decreases |preceding|
  {
    if preceding == [] then pos
    else
      var it := IndexOf(ordered, preceding[0]);
      assert forall p :: p in preceding <==> p == preceding[0] || p in preceding[1..];
      PushForward(ordered, preceding[1..], if it < |ordered| && it > pos then it else pos)
  }

  /** Where the iterator stands when the new name is inserted. */
  function Place(spec: ChainSpec, ordered: seq<Name>, pos: nat): (k: nat)
    requires pos <= |ordered|
    ensures k <= |ordered|
    ensures pos < |ordered| ==> k < |ordered|
  {
    PushForward(ordered, spec.preceding, PullBack(ordered, spec.following, pos))
  }

  function InsertAt(ordered: seq<Name>, k: nat, name: Name): (r: seq<Name>)
    requires k <= |ordered|
    ensures |r| == |ordered| + 1 && r[k] == name
    ensures forall i :: 0 <= i < k ==> r[i] == ordered[i]
    ensures forall i :: k <= i < |ordered| ==> r[i + 1] == ordered[i]
    ensures forall x :: x in r <==> x == name || x in ordered
    ensures Unique(ordered) && name !in ordered ==> Unique(r)
  {
    var r := ordered[..k] + [name] + ordered[k..];
    assert forall i :: 0 <= i < |ordered| ==> ordered[i] == r[if i < k then i else i + 1];
    r
  }

  /** The list with the new name in it, before its neighbours are visited. */
  function Placed(g: Graph, ordered: seq<Name>, name: Name, pos: nat, append: bool): (r: seq<Name>)
    requires name in g && pos <= |ordered| && (append ==> pos < |ordered|)
  {
    var k := Place(g[name], ordered, pos);
    InsertAt(ordered, if append then k + 1 else k, name)
  }

  ghost function Missing(g: Graph, ordered: seq<Name>): nat {
    |Unlisted(g, ordered)|
  }

  lemma MissingShrinks(g: Graph, small: seq<Name>, big: seq<Name>)
    requires forall x :: x in small ==> x in big
    ensures Missing(g, big) <= Missing(g, small)
    ensures (exists x :: x in g && x in big && x !in small) ==> Missing(g, big) < Missing(g, small)
  {
    var s, b := Unlisted(g, small), Unlisted(g, big);
    assert b <= s;
    SmallerSet(b, s);
    if x :| x in g && x in big && x !in small {
      assert x in s && x !in b;
    }
  }

  lemma PlacedAt(g: Graph, ordered: seq<Name>, name: Name, pos: nat, append: bool, slot: nat)
    requires name in g && name !in ordered && pos <= |ordered| && (append ==> pos < |ordered|)
    requires slot == Place(g[name], ordered, pos)
    ensures append ==> slot < |ordered|
    ensures var placed := Placed(g, ordered, name, pos, append);
            && placed == InsertAt(ordered, if append then slot + 1 else slot, name)
            && name in placed && Missing(g, placed) < Missing(g, ordered)
  {
    hide Place;
    hide Missing;
    InsertShrinks(g, ordered, if append then slot + 1 else slot, name);
  }

  lemma InsertShrinks(g: Graph, ordered: seq<Name>, k: nat, name: Name)
    requires name in g && name !in ordered && k <= |ordered|
    ensures Missing(g, InsertAt(ordered, k, name)) < Missing(g, ordered)
  {
    var r := InsertAt(ordered, k, name);
    MissingShrinks(g, ordered, r);
    assert name in g && name in r && name !in ordered;
  }

  /** update_list_with_controller_chain as a function of the list it finds. */
  function UpdateList(g: Graph, ordered: seq<Name>, name: Name, pos: nat, append: bool): (r: seq<Name>)
    requires Closed(g) && name in g && pos <= |ordered| && (append ==> pos < |ordered|)
    ensures forall x :: x in ordered ==> x in r
    ensures name in r
    decreases Missing(g, ordered), 0
  {
    if name in ordered then ordered
    else
      var placed := Placed(g, ordered, name, pos, append);
      MissingShrinks(g, ordered, placed);
      assert forall f :: f in g[name].following ==> Linked(g, name, f);
      assert forall p :: p in g[name].preceding ==> Linked(g, name, p);
      var half := VisitNeighbours(g, placed, name, g[name].following, true);
      MissingShrinks(g, placed, half);
      VisitNeighbours(g, half, name, g[name].preceding, false)
  }

  /** The two loops over the neighbours: following ones go after `name`, preceding ones before. */
  function VisitNeighbours(g: Graph, ordered: seq<Name>, name: Name, todo: seq<Name>, append: bool): (r: seq<Name>)
    requires Closed(g) && name in ordered && (forall x :: x in todo ==> x in g)
    ensures forall x :: x in ordered || x in todo ==> x in r
    decreases Missing(g, ordered), |todo| + 1
  {
    if todo == [] then ordered
    else
      var next := UpdateList(g, ordered, todo[0], IndexOf(ordered, name), append);
      MissingShrinks(g, ordered, next);
      assert forall x :: x in todo <==> x == todo[0] || x in todo[1..];
      VisitNeighbours(g, next, name, todo[1..], append)
  }

  /** The loop of configure_controller over the specification, from an emptied list. `keys` is the
      iteration order of the hash map. */
  function OrderFrom(g: Graph, ordered: seq<Name>, keys: seq<Name>): (r: seq<Name>)
    requires Closed(g) && (forall x :: x in keys ==> x in g)
    decreases |keys|
  {
    if keys == [] then ordered
    else
      assert forall x :: x in keys <==> x == keys[0] || x in keys[1..];
      OrderFrom(g, if keys[0] in ordered then ordered else UpdateList(g, ordered, keys[0], |ordered|, false), keys[1..])
  }

  // ---------------------------------------------------------------------------------------
  // Every controller once, and earlier decisions are never revised
  // ---------------------------------------------------------------------------------------

  /** Both names are listed, `u` first. */
  ghost predicate Before(list: seq<Name>, u: Name, v: Name) {
    u in list && v in list && IndexOf(list, u) < IndexOf(list, v)
  }

  ghost predicate KeepsOrder(list: seq<Name>, grown: seq<Name>) {
    forall u, v :: Before(list, u, v) ==> Before(grown, u, v)
  }

  ghost predicate Listing(g: Graph, list: seq<Name>) {
    Unique(list) && forall x :: x in list ==> x in g
  }

  lemma InsertShifts(ordered: seq<Name>, k: nat, name: Name, u: Name)
    requires k <= |ordered| && name !in ordered && (u == name || u in ordered)
    ensures var r := InsertAt(ordered, k, name);
            IndexOf(r, u) == if u == name then k else IndexOf(ordered, u) + (if IndexOf(ordered, u) < k then 0 else 1)
  {
    var r := InsertAt(ordered, k, name);
    var i := if u == name then k else IndexOf(ordered, u) + (if IndexOf(ordered, u) < k then 0 else 1);
    assert r[i] == u;
    assert forall j :: 0 <= j < i ==> r[j] != u;
  }

  lemma InsertKeepsOrder(ordered: seq<Name>, k: nat, name: Name)
    requires k <= |ordered| && name !in ordered
    ensures KeepsOrder(ordered, InsertAt(ordered, k, name))
  {
    forall u, v | Before(ordered, u, v)
      ensures Before(InsertAt(ordered, k, name), u, v)
    {
      InsertShifts(ordered, k, name, u);
      InsertShifts(ordered, k, name, v);
    }
  }

  lemma {:induction false} UpdateLists(g: Graph, ordered: seq<Name>, name: Name, pos: nat, append: bool)
    requires Closed(g) && name in g && pos <= |ordered| && (append ==> pos < |ordered|)
    requires Listing(g, ordered)
    ensures Listing(g, UpdateList(g, ordered, name, pos, append))
    ensures KeepsOrder(ordered, UpdateList(g, ordered, name, pos, append))
    decreases Missing(g, ordered), 0
  {
    if name !in ordered {
      var placed := Placed(g, ordered, name, pos, append);
      var k := Place(g[name], ordered, pos);
      InsertKeepsOrder(ordered, if append then k + 1 else k, name);
      MissingShrinks(g, ordered, placed);
      assert forall x :: Linked(g, name, x) ==> x in g;
      VisitLists(g, placed, name, g[name].following, true);
      var half := VisitNeighbours(g, placed, name, g[name].following, true);
      MissingShrinks(g, placed, half);
      VisitLists(g, half, name, g[name].preceding, false);
    }
  }

  lemma {:induction false} VisitLists(g: Graph, ordered: seq<Name>, name: Name, todo: seq<Name>, append: bool)
    requires Closed(g) && name in ordered && (forall x :: x in todo ==> x in g)
    requires Listing(g, ordered)
    ensures Listing(g, VisitNeighbours(g, ordered, name, todo, append))
    ensures KeepsOrder(ordered, VisitNeighbours(g, ordered, name, todo, append))
    decreases Missing(g, ordered), |todo| + 1
  {
    if todo != [] {
      UpdateLists(g, ordered, todo[0], IndexOf(ordered, name), append);
      var next := UpdateList(g, ordered, todo[0], IndexOf(ordered, name), append);
      MissingShrinks(g, ordered, next);
      VisitLists(g, next, name, todo[1..], append);
    }
  }

  // ---------------------------------------------------------------------------------------
  // No listed controller is left with an unlisted neighbour
  // ---------------------------------------------------------------------------------------

  /** Outside `pending`, every listed controller has all its neighbours listed. */
  ghost predicate Saturated(g: Graph, list: seq<Name>, pending: set<Name>) {
    forall x, y :: x in list && x !in pending && Linked(g, x, y) ==> y in list
  }

  lemma {:induction false} UpdateSaturates(g: Graph, ordered: seq<Name>, name: Name, pos: nat, append: bool,
                                           pending: set<Name>)
    requires Closed(g) && name in g && pos <= |ordered| && (append ==> pos < |ordered|)
    requires Saturated(g, ordered, pending)
    ensures Saturated(g, UpdateList(g, ordered, name, pos, append), pending)
    decreases Missing(g, ordered), 0
  {
    if name !in ordered {
      var placed := Placed(g, ordered, name, pos, append);
      MissingShrinks(g, ordered, placed);
      assert forall x :: Linked(g, name, x) ==> x in g;
      VisitSaturates(g, placed, name, g[name].following, true, pending);
      var half := VisitNeighbours(g, placed, name, g[name].following, true);
      MissingShrinks(g, placed, half);
      VisitSaturates(g, half, name, g[name].preceding, false, pending);
    }
  }

  lemma {:induction false} VisitSaturates(g: Graph, ordered: seq<Name>, name: Name, todo: seq<Name>, append: bool,
                                          pending: set<Name>)
    requires Closed(g) && name in ordered && (forall x :: x in todo ==> x in g)
    requires Saturated(g, ordered, pending + {name})
    ensures Saturated(g, VisitNeighbours(g, ordered, name, todo, append), pending + {name})
    decreases Missing(g, ordered), |todo| + 1
  {
    if todo != [] {
      UpdateSaturates(g, ordered, todo[0], IndexOf(ordered, name), append, pending + {name});
      var next := UpdateList(g, ordered, todo[0], IndexOf(ordered, name), append);
      MissingShrinks(g, ordered, next);
      VisitSaturates(g, next, name, todo[1..], append, pending);
    }
  }

  // ---------------------------------------------------------------------------------------
  // When the order is right
  // ---------------------------------------------------------------------------------------

  /** Every controller comes before all its following controllers. */
  ghost predicate Sorted(g: Graph, list: seq<Name>) {
    forall u, v :: u in list && v in list && u in g && v in g[u].following ==> Before(list, u, v)
  }

  /** What holds of every call: the iterator points at the neighbour the call comes from, or the
      call is an outermost one, with the iterator at the end and no neighbour listed. */
  ghost predicate Anchored(g: Graph, ordered: seq<Name>, name: Name, pos: nat, append: bool)
    requires name in g
  {
    && pos <= |ordered|
    && (append ==> pos < |ordered| && ordered[pos] in g[name].preceding)
    && (!append && pos < |ordered| ==> ordered[pos] in g[name].following)
    && (pos == |ordered| ==> forall y :: Linked(g, name, y) ==> y !in ordered)
  }

  /** The caller's view of one insertion: all listed preceding controllers come before all listed
      following ones, so that a correct slot exists. */
  ghost predicate SlotExists(spec: ChainSpec, ordered: seq<Name>) {
    forall p, f :: p in spec.preceding && p in ordered && f in spec.following && f in ordered
                   ==> Before(ordered, p, f)
  }

  /** The name stands after its listed preceding and before its listed following controllers. */
  ghost predicate RightSlot(spec: ChainSpec, ordered: seq<Name>, placed: seq<Name>, name: Name) {
    && (forall p :: p in spec.preceding && p in ordered ==> Before(placed, p, name))
    && (forall f :: f in spec.following && f in ordered ==> Before(placed, name, f))
  }

  ghost predicate Clean(g: Graph, ordered: seq<Name>, name: Name)
    requires name in g
  {
    name !in g[name].following && SlotExists(g[name], ordered)
  }

  lemma InsertBetween(ordered: seq<Name>, at: nat, name: Name, u: Name)
    requires at <= |ordered| && name !in ordered && u in ordered
    ensures Before(InsertAt(ordered, at, name), u, name) <==> IndexOf(ordered, u) < at
    ensures Before(InsertAt(ordered, at, name), name, u) <==> IndexOf(ordered, u) >= at
  {
    InsertShifts(ordered, at, name, u);
    InsertShifts(ordered, at, name, name);
  }

  /** Where the listed ones among `names` stand. */
  ghost function Positions(list: seq<Name>, names: seq<Name>): set<nat> {
    set x | x in names && x in list :: IndexOf(list, x)
  }

  /** The arithmetic of the two loops: `before` and `after` are the positions of the listed preceding
      and following controllers, `pulled` and `k` the iterator after the first and second loop. */
  lemma SlotPosition(before: set<nat>, after: set<nat>, pos: nat, pulled: nat, k: nat, append: bool)
    requires pulled <= pos && (pulled == pos || pulled in after) && forall f :: f in after ==> pulled <= f
    requires pulled <= k && (k == pulled || k in before) && forall p :: p in before ==> p <= k
    requires if append then pos in before else pos in after || (before == {} && after == {})
    ensures var at := if append then k + 1 else k;
            ((forall p :: p in before ==> p < at) && (forall f :: f in after ==> at <= f))
            <==> (forall p, f :: p in before && f in after ==> p < f)
  {
    if forall p, f :: p in before && f in after ==> p < f {
      if append {
        assert pulled == pos;
      } else if after != {} {
        assert pulled in after && k == pulled;
      }
    }
  }

  lemma SlotPositionNamed(g: Graph, ordered: seq<Name>, name: Name, pos: nat, append: bool, at: nat)
    requires name in g && name !in ordered && Unique(ordered) && Anchored(g, ordered, name, pos, append)
    requires at == Place(g[name], ordered, pos) + (if append then 1 else 0)
    ensures var before, after := Positions(ordered, g[name].preceding), Positions(ordered, g[name].following);
            ((forall p :: p in before ==> p < at) && (forall f :: f in after ==> at <= f))
            <==> (forall p, f :: p in before && f in after ==> p < f)
  {
    var before, after := Positions(ordered, g[name].preceding), Positions(ordered, g[name].following);
    if pos < |ordered| {
      IndexOfUnique(ordered, pos);
    } else {
      assert forall y :: y in g[name].following ==> Linked(g, name, y);
      assert forall y :: y in g[name].preceding ==> Linked(g, name, y);
    }
    var pulled := PullBack(ordered, g[name].following, pos);
    SlotPosition(before, after, pos, pulled, PushForward(ordered, g[name].preceding, pulled), append);
  }

  lemma RightSlotByPosition(spec: ChainSpec, ordered: seq<Name>, name: Name, at: nat)
    requires name !in ordered && at <= |ordered|
    ensures RightSlot(spec, ordered, InsertAt(ordered, at, name), name)
            <==> (forall p :: p in Positions(ordered, spec.preceding) ==> p < at)
                 && (forall f :: f in Positions(ordered, spec.following) ==> at <= f)
  {
    var placed := InsertAt(ordered, at, name);
    forall y | y in ordered
      ensures Before(placed, y, name) <==> IndexOf(ordered, y) < at
      ensures Before(placed, name, y) <==> at <= IndexOf(ordered, y)
    {
      InsertBetween(ordered, at, name, y);
    }
    forall p | p in spec.preceding && p in ordered
      ensures IndexOf(ordered, p) in Positions(ordered, spec.preceding)
    {
    }
    forall f | f in spec.following && f in ordered
      ensures IndexOf(ordered, f) in Positions(ordered, spec.following)
    {
    }
  }

  lemma SlotExistsByPosition(spec: ChainSpec, ordered: seq<Name>)
    ensures SlotExists(spec, ordered)
            <==> (forall p, f :: p in Positions(ordered, spec.preceding) && f in Positions(ordered, spec.following)
                                 ==> p < f)
  {
    if forall p, f :: p in Positions(ordered, spec.preceding) && f in Positions(ordered, spec.following) ==> p < f {
      forall p, f | p in spec.preceding && p in ordered && f in spec.following && f in ordered
        ensures Before(ordered, p, f)
      {
        assert IndexOf(ordered, p) in Positions(ordered, spec.preceding);
        assert IndexOf(ordered, f) in Positions(ordered, spec.following);
      }
    }
  }

  /** The insertion finds a slot after every listed preceding and before every listed following
      controller exactly when there is one. */
  lemma SlotIsRightIffOneExists(g: Graph, ordered: seq<Name>, name: Name, pos: nat, append: bool)
    requires name in g && name !in ordered && Unique(ordered) && Anchored(g, ordered, name, pos, append)
    ensures RightSlot(g[name], ordered, Placed(g, ordered, name, pos, append), name) <==> SlotExists(g[name], ordered)
  {
    var at := Place(g[name], ordered, pos) + (if append then 1 else 0);
    SlotPositionNamed(g, ordered, name, pos, append, at);
    RightSlotByPosition(g[name], ordered, name, at);
    SlotExistsByPosition(g[name], ordered);
  }

  /** One insertion keeps a sorted list sorted exactly when it is clean, and repairs nothing. */
  lemma InsertionSorted(g: Graph, ordered: seq<Name>, name: Name, pos: nat, append: bool)
    requires Inverse(g) && Listing(g, ordered)
    requires name in g && name !in ordered && Anchored(g, ordered, name, pos, append)
    ensures Sorted(g, Placed(g, ordered, name, pos, append)) <==> Sorted(g, ordered) && Clean(g, ordered, name)
  {
    var at := Place(g[name], ordered, pos) + (if append then 1 else 0);
    var placed := Placed(g, ordered, name, pos, append);
    assert placed == InsertAt(ordered, at, name);
    InsertKeepsOrder(ordered, at, name);
    SlotIsRightIffOneExists(g, ordered, name, pos, append);
    SortedAfterInsert(g, ordered, placed, name);
  }

  lemma SortedAfterInsert(g: Graph, ordered: seq<Name>, placed: seq<Name>, name: Name)
    requires Inverse(g) && Listing(g, ordered) && name in g && name !in ordered
    requires forall x :: x in placed <==> x == name || x in ordered
    requires KeepsOrder(ordered, placed)
    ensures Sorted(g, placed)
            <==> Sorted(g, ordered) && name !in g[name].following && RightSlot(g[name], ordered, placed, name)
  {
    if Sorted(g, placed) {
      UnsortedStays(g, ordered, placed);
      assert forall p :: p in g[name].preceding && p in ordered ==> name in g[p].following;
    }
    if Sorted(g, ordered) && name !in g[name].following && RightSlot(g[name], ordered, placed, name) {
      forall u, v | u in placed && v in placed && u in g && v in g[u].following
        ensures Before(placed, u, v)
      {
        if v == name {
          assert u in g[name].preceding;
        }
      }
    }
  }

  /** A recorded mistake stays: a list that keeps the order of an unsorted list is unsorted. */
  lemma UnsortedStays(g: Graph, list: seq<Name>, grown: seq<Name>)
    requires KeepsOrder(list, grown) && (forall x :: x in list ==> x in grown) && Sorted(g, grown)
    ensures Sorted(g, list)
  {
    forall u, v | u in list && v in list && u in g && v in g[u].following
      ensures Before(list, u, v)
    {
      assert Before(grown, u, v);
      assert Before(list, v, u) ==> Before(grown, v, u);
    }
  }

  /** Every insertion of the call is clean. */
  ghost predicate CleanUpdate(g: Graph, ordered: seq<Name>, name: Name, pos: nat, append: bool)
    requires Closed(g) && name in g && pos <= |ordered| && (append ==> pos < |ordered|)
    decreases Missing(g, ordered), 0
  {
    name in ordered ||
    (Clean(g, ordered, name) &&
     var placed := Placed(g, ordered, name, pos, append);
     MissingShrinks(g, ordered, placed);
     assert forall x :: Linked(g, name, x) ==> x in g;
     var half := VisitNeighbours(g, placed, name, g[name].following, true);
     MissingShrinks(g, placed, half);
     CleanVisit(g, placed, name, g[name].following, true) && CleanVisit(g, half, name, g[name].preceding, false))
  }

  ghost predicate CleanVisit(g: Graph, ordered: seq<Name>, name: Name, todo: seq<Name>, append: bool)
    requires Closed(g) && name in ordered && (forall x :: x in todo ==> x in g)
    decreases Missing(g, ordered), |todo| + 1
  {
    todo == [] ||
    (var next := UpdateList(g, ordered, todo[0], IndexOf(ordered, name), append);
     MissingShrinks(g, ordered, next);
     CleanUpdate(g, ordered, todo[0], IndexOf(ordered, name), append) && CleanVisit(g, next, name, todo[1..], append))
  }

  lemma {:induction false} UpdateSorted(g: Graph, ordered: seq<Name>, name: Name, pos: nat, append: bool)
    requires Closed(g) && Inverse(g) && Listing(g, ordered)
    requires name in g && pos <= |ordered| && (append ==> pos < |ordered|)
    requires name !in ordered ==> Anchored(g, ordered, name, pos, append)
    ensures Sorted(g, UpdateList(g, ordered, name, pos, append))
            <==> Sorted(g, ordered) && CleanUpdate(g, ordered, name, pos, append)
    decreases Missing(g, ordered), 0
  {
    if name !in ordered {
      hide Sorted;
      hide Clean;
      hide CleanVisit;
      hide VisitNeighbours;
      hide Placed;
      var placed := Placed(g, ordered, name, pos, append);
      InsertionSorted(g, ordered, name, pos, append);
      PlacedIsListing(g, ordered, name, pos, append);
      NeighboursLinkedAs(g, name);
      BothVisitsSorted(g, placed, name);
    }
  }

  lemma PlacedIsListing(g: Graph, ordered: seq<Name>, name: Name, pos: nat, append: bool)
    requires Listing(g, ordered) && name in g && name !in ordered && pos <= |ordered| && (append ==> pos < |ordered|)
    ensures var placed := Placed(g, ordered, name, pos, append);
            Listing(g, placed) && name in placed && Missing(g, placed) < Missing(g, ordered)
  {
    PlacedAt(g, ordered, name, pos, append, Place(g[name], ordered, pos));
  }

  /** The two loops over the neighbours, one after the other. */
  lemma {:induction false} BothVisitsSorted(g: Graph, placed: seq<Name>, name: Name)
    requires Closed(g) && Inverse(g) && Listing(g, placed) && name in g && name in placed
    requires forall x :: x in g[name].following + g[name].preceding ==> x in g
    ensures var half := VisitNeighbours(g, placed, name, g[name].following, true);
            Sorted(g, VisitNeighbours(g, half, name, g[name].preceding, false))
            <==> Sorted(g, placed) && CleanVisit(g, placed, name, g[name].following, true)
                 && CleanVisit(g, half, name, g[name].preceding, false)
    decreases Missing(g, placed), |g[name].following| + |g[name].preceding| + 2
  {
    hide Sorted;
    hide CleanVisit;
    VisitLists(g, placed, name, g[name].following, true);
    VisitSorted(g, placed, name, g[name].following, true);
    var half := VisitNeighbours(g, placed, name, g[name].following, true);
    MissingShrinks(g, placed, half);
    VisitSorted(g, half, name, g[name].preceding, false);
  }

  /** `next` is a following (or, without `append`, a preceding) controller of `name`. */
  ghost predicate LinkedAs(g: Graph, name: Name, next: Name, append: bool) {
    name in g && next in g && (if append then next in g[name].following else next in g[name].preceding)
  }

  lemma CallIsAnchored(g: Graph, ordered: seq<Name>, name: Name, next: Name, append: bool)
    requires Inverse(g) && LinkedAs(g, name, next, append) && name in ordered
    ensures Anchored(g, ordered, next, IndexOf(ordered, name), append)
  {
  }

  lemma {:induction false} CallSorted(g: Graph, ordered: seq<Name>, name: Name, next: Name, append: bool)
    requires Closed(g) && Inverse(g) && Listing(g, ordered) && name in ordered && LinkedAs(g, name, next, append)
    ensures var r := UpdateList(g, ordered, next, IndexOf(ordered, name), append);
            && Listing(g, r)
            && (Sorted(g, r) <==> Sorted(g, ordered) && CleanUpdate(g, ordered, next, IndexOf(ordered, name), append))
    decreases Missing(g, ordered), 1
  {
    CallIsAnchored(g, ordered, name, next, append);
    UpdateSorted(g, ordered, next, IndexOf(ordered, name), append);
    UpdateLists(g, ordered, next, IndexOf(ordered, name), append);
  }

  lemma {:induction false} VisitSorted(g: Graph, ordered: seq<Name>, name: Name, todo: seq<Name>, append: bool)
    requires Closed(g) && Inverse(g) && Listing(g, ordered) && name in ordered
    requires forall x :: x in todo ==> x in g && LinkedAs(g, name, x, append)
    ensures Sorted(g, VisitNeighbours(g, ordered, name, todo, append))
            <==> Sorted(g, ordered) && CleanVisit(g, ordered, name, todo, append)
    decreases Missing(g, ordered), |todo| + 1
  {
    if todo != [] {
      assert todo[0] in todo;
      var next := UpdateList(g, ordered, todo[0], IndexOf(ordered, name), append);
      CallSorted(g, ordered, name, todo[0], append);
      MissingShrinks(g, ordered, next);
      VisitSorted(g, next, name, todo[1..], append);
    }
  }

  // ---------------------------------------------------------------------------------------
  // Chains stay in one piece
  // ---------------------------------------------------------------------------------------

  /** The members of a connected component form one contiguous block of the list. */
  ghost predicate Blocks(g: Graph, list: seq<Name>) {
    forall i, j, l :: 0 <= i < j < l < |list| && Connected(g, list[i], list[l]) ==> Connected(g, list[i], list[j])
  }

  /** Position `q` of the new list holds what position `q'` of the old one held, or a controller of
      the same component. */
  ghost predicate ReadsLike(g: Graph, list: seq<Name>, q': nat, r: seq<Name>, q: nat) {
    q' < |list| && q < |r| && list[q'] in g &&
    (r[q] == list[q'] || (Connected(g, list[q'], r[q]) && Connected(g, r[q], list[q'])))
  }

  /** The position in the old list that stands for position `q` of the new one. */
  ghost function Doubled(q: nat, at: nat, twin: nat): nat
    requires at - 1 <= twin <= at
  {
    if q < at then q else if q == at then twin else q - 1
  }

  /** Inserting next to a member of the own component splits no block: the new list reads like the
      old one with that member, at position `twin`, doubled. */
  lemma InsertBesideKeepsBlocks(g: Graph, list: seq<Name>, at: nat, name: Name, twin: nat)
    requires Inverse(g) && Blocks(g, list) && at <= |list| && (forall x :: x in list ==> x in g)
    requires twin < |list| && at - 1 <= twin <= at && Connected(g, list[twin], name)
    ensures Blocks(g, InsertAt(list, at, name))
  {
    var r := InsertAt(list, at, name);
    ConnectedSym(g, list[twin], name);
    forall q | 0 <= q < |r|
      ensures ReadsLike(g, list, Doubled(q, at, twin), r, q)
    {
      assert list[Doubled(q, at, twin)] in list;
    }
    DoubledKeepsBlocks(g, list, r, at, twin);
  }

  lemma DoubledKeepsBlocks(g: Graph, list: seq<Name>, r: seq<Name>, at: nat, twin: nat)
    requires Blocks(g, list) && at - 1 <= twin <= at
    requires forall q :: 0 <= q < |r| ==> ReadsLike(g, list, Doubled(q, at, twin), r, q)
    ensures Blocks(g, r)
  {
    forall i, j, l | 0 <= i < j < l < |r| && Connected(g, r[i], r[l])
      ensures Connected(g, r[i], r[j])
    {
      assert ReadsLike(g, list, Doubled(i, at, twin), r, i);
      assert ReadsLike(g, list, Doubled(j, at, twin), r, j);
      assert ReadsLike(g, list, Doubled(l, at, twin), r, l);
      TripleInBlock(g, list, Doubled(i, at, twin), Doubled(j, at, twin), Doubled(l, at, twin), r[i], r[j], r[l]);
    }
  }

  lemma TripleInBlock(g: Graph, list: seq<Name>, i: nat, j: nat, l: nat, a: Name, b: Name, c: Name)
    requires Blocks(g, list) && i <= j <= l < |list| && list[i] in g
    requires a == list[i] || (Connected(g, list[i], a) && Connected(g, a, list[i]))
    requires b == list[j] || (Connected(g, list[j], b) && Connected(g, b, list[j]))
    requires c == list[l] || (Connected(g, list[l], c) && Connected(g, c, list[l]))
    requires Connected(g, a, c)
    ensures Connected(g, a, b)
  {
    ThroughTwin(g, a, list[i], c, list[l]);
    if i == j {
      ConnectedRefl(g, list[i]);
    } else if j < l {
      assert Connected(g, list[i], list[j]);
    }
    ThroughTwin(g, list[i], a, list[j], b);
  }

  lemma ThroughTwin(g: Graph, a: Name, a': Name, b: Name, b': Name)
    requires a' == a || Connected(g, a', a)
    requires b' == b || Connected(g, b, b')
    ensures Connected(g, a, b) ==> Connected(g, a', b')
  {
    if Connected(g, a, b) {
      if a' != a {
        ConnectedTrans(g, a', a, b);
      }
      if b' != b {
        ConnectedTrans(g, a', b, b');
      }
    }
  }

  /** Appending a controller whose component is not in the list yet opens a new block. */
  lemma AppendKeepsBlocks(g: Graph, list: seq<Name>, name: Name)
    requires Blocks(g, list) && forall x :: x in list ==> !Connected(g, x, name)
    ensures Blocks(g, InsertAt(list, |list|, name))
  {
    var r := InsertAt(list, |list|, name);
    forall i, j, l | 0 <= i < j < l < |r| && Connected(g, r[i], r[l])
      ensures Connected(g, r[i], r[j])
    {
      assert list[i] in list;
    }
  }

  /** The slot lies beside a neighbour of the new controller. */
  lemma PlaceIsNeighbour(g: Graph, ordered: seq<Name>, name: Name, pos: nat, append: bool)
    requires name in g && Anchored(g, ordered, name, pos, append) && pos < |ordered|
    ensures Linked(g, name, ordered[Place(g[name], ordered, pos)])
  {
  }

  lemma PlaceAtEnd(g: Graph, ordered: seq<Name>, name: Name, append: bool)
    requires name in g && Anchored(g, ordered, name, |ordered|, append)
    ensures Place(g[name], ordered, |ordered|) == |ordered|
  {
    assert forall y :: y in g[name].following ==> Linked(g, name, y);
  }

  /** A list whose members have all their neighbours listed contains whole components only. */
  lemma SaturatedIsWhole(g: Graph, list: seq<Name>, name: Name)
    requires Saturated(g, list, {}) && name !in list
    ensures forall x :: x in list ==> !Connected(g, x, name)
  {
    forall x | x in list
      ensures !Connected(g, x, name)
    {
      if Connected(g, x, name) {
        var p :| WalkBetween(g, p, x, name);
        WalkStaysInside(g, Elements(list), p);
      }
    }
  }

  lemma PlacedKeepsBlocks(g: Graph, ordered: seq<Name>, name: Name, pos: nat, append: bool)
    requires Closed(g) && Inverse(g) && Listing(g, ordered) && Blocks(g, ordered)
    requires name in g && name !in ordered && Anchored(g, ordered, name, pos, append)
    requires pos == |ordered| ==> Saturated(g, ordered, {})
    ensures Blocks(g, Placed(g, ordered, name, pos, append))
  {
    hide Closed;
    hide Inverse;
    hide Listing;
    hide Blocks;
    hide InsertAt;
    if pos < |ordered| {
      var k := Place(g[name], ordered, pos);
      PlaceIsNeighbour(g, ordered, name, pos, append);
      BesideNeighbour(g, ordered, name, k, append);
    } else {
      PlacedAtEnd(g, ordered, name, append);
    }
  }

  lemma PlacedAtEnd(g: Graph, ordered: seq<Name>, name: Name, append: bool)
    requires name in g && name !in ordered && Anchored(g, ordered, name, |ordered|, append)
    requires Saturated(g, ordered, {}) && Blocks(g, ordered)
    ensures Blocks(g, Placed(g, ordered, name, |ordered|, append))
  {
    PlaceAtEnd(g, ordered, name, append);
    SaturatedIsWhole(g, ordered, name);
    AppendKeepsBlocks(g, ordered, name);
  }

  lemma BesideNeighbour(g: Graph, ordered: seq<Name>, name: Name, k: nat, append: bool)
    requires Closed(g) && Inverse(g) && Listing(g, ordered) && Blocks(g, ordered)
    requires name in g && k < |ordered| && Linked(g, name, ordered[k])
    ensures Blocks(g, InsertAt(ordered, if append then k + 1 else k, name))
  {
    NeighboursConnected(g, name, ordered[k]);
    InsertBesideKeepsBlocks(g, ordered, if append then k + 1 else k, name, k);
  }

  lemma NeighboursConnected(g: Graph, a: Name, b: Name)
    requires Closed(g) && Inverse(g) && Linked(g, a, b)
    ensures Connected(g, b, a)
  {
    ConnectedLink(g, a, b);
    ConnectedSym(g, a, b);
  }

  lemma {:induction false} UpdateBlocks(g: Graph, ordered: seq<Name>, name: Name, pos: nat, append: bool)
    requires Closed(g) && Inverse(g) && Listing(g, ordered) && Blocks(g, ordered)
    requires name in g && pos <= |ordered| && (append ==> pos < |ordered|)
    requires name !in ordered ==> Anchored(g, ordered, name, pos, append)
    requires pos == |ordered| ==> Saturated(g, ordered, {})
    ensures Blocks(g, UpdateList(g, ordered, name, pos, append))
    decreases Missing(g, ordered), 0
  {
    if name !in ordered {
      var placed := Placed(g, ordered, name, pos, append);
      PlacedKeepsBlocks(g, ordered, name, pos, append);
      MissingShrinks(g, ordered, placed);
      assert forall x :: Linked(g, name, x) ==> x in g;
      VisitLists(g, placed, name, g[name].following, true);
      VisitBlocks(g, placed, name, g[name].following, true);
      var half := VisitNeighbours(g, placed, name, g[name].following, true);
      MissingShrinks(g, placed, half);
      VisitBlocks(g, half, name, g[name].preceding, false);
    }
  }

  lemma {:induction false} VisitBlocks(g: Graph, ordered: seq<Name>, name: Name, todo: seq<Name>, append: bool)
    requires Closed(g) && Inverse(g) && Listing(g, ordered) && Blocks(g, ordered) && name in ordered
    requires forall x :: x in todo ==> x in g && LinkedAs(g, name, x, append)
    ensures Blocks(g, VisitNeighbours(g, ordered, name, todo, append))
    decreases Missing(g, ordered), |todo| + 1
  {
    if todo != [] {
      assert todo[0] in todo;
      var next := UpdateList(g, ordered, todo[0], IndexOf(ordered, name), append);
      CallBlocks(g, ordered, name, todo[0], append);
      MissingShrinks(g, ordered, next);
      VisitBlocks(g, next, name, todo[1..], append);
    }
  }

  lemma {:induction false} CallBlocks(g: Graph, ordered: seq<Name>, name: Name, next: Name, append: bool)
    requires Closed(g) && Inverse(g) && Listing(g, ordered) && Blocks(g, ordered)
    requires name in ordered && LinkedAs(g, name, next, append)
    ensures var r := UpdateList(g, ordered, next, IndexOf(ordered, name), append);
            Listing(g, r) && Blocks(g, r)
    decreases Missing(g, ordered), 1
  {
    CallIsAnchored(g, ordered, name, next, append);
    UpdateBlocks(g, ordered, next, IndexOf(ordered, name), append);
    UpdateLists(g, ordered, next, IndexOf(ordered, name), append);
  }

  // ---------------------------------------------------------------------------------------
  // Forests
  // ---------------------------------------------------------------------------------------

  /** A closed walk through at least three different controllers. */
  ghost predicate Cycle(g: Graph, p: seq<Name>) {
    |p| >= 3 && Unique(p) && Walk(g, p) && Linked(g, p[|p| - 1], p[0])
  }

  /** No cycle, no double link and no self link once direction is ignored. */
  ghost predicate Forest(g: Graph) {
    && (forall a :: a in g ==> !Linked(g, a, a))
    && (forall a, b :: a in g && b in g[a].following ==> b !in g[a].preceding)
    && (forall p :: !Cycle(g, p))
  }

  /** The controllers whose calls are still running form a path of listed controllers, and all
      other listed controllers have all their neighbours listed. */
  ghost predicate OpenPath(g: Graph, ordered: seq<Name>, path: seq<Name>) {
    && Unique(path) && (path != [] ==> Walk(g, path))
    && (forall x :: x in path ==> x in ordered)
    && Saturated(g, ordered, Elements(path))
  }

  /** `name` is a new controller reached from the end of the path. */
  ghost predicate Extends(g: Graph, path: seq<Name>, name: Name) {
    name in g && (path != [] ==> Linked(g, path[|path| - 1], name))
  }

  /** In a forest an unlisted controller has no listed neighbour but the one the call comes from. */
  lemma OnlyCallerListed(g: Graph, ordered: seq<Name>, path: seq<Name>, name: Name, y: Name)
    requires Inverse(g) && Closed(g) && Forest(g) && Listing(g, ordered)
    requires OpenPath(g, ordered, path) && Extends(g, path, name) && name !in ordered
    requires Linked(g, name, y) && y in ordered
    ensures path != [] && y == path[|path| - 1]
  {
    assert Linked(g, y, name);
    assert y in Elements(path);
    var i := IndexOf(path, y);
    if i < |path| - 1 {
      var p := path[i..] + [name];
      assert p[0] == y && p[|p| - 1] == name;
      forall j | 0 <= j < |p| - 1
        ensures Linked(g, p[j], p[j + 1])
      {
        assert p[j] == path[i + j];
        if j < |p| - 2 {
          assert p[j + 1] == path[i + j + 1];
        }
      }
      assert Cycle(g, p);
    }
  }

  lemma OnePathStep(g: Graph, ordered: seq<Name>, path: seq<Name>, name: Name, placed: seq<Name>)
    requires name !in ordered && OpenPath(g, ordered, path) && Extends(g, path, name)
    requires forall x :: x in placed <==> x == name || x in ordered
    ensures OpenPath(g, placed, path + [name])
  {
    var longer := path + [name];
    assert Elements(longer) == Elements(path) + {name};
    assert forall x :: x in longer ==> x in placed;
    assert Walk(g, longer);
  }

  /** The state in which the neighbours of `name` are visited. */
  lemma ForestPlacing(g: Graph, ordered: seq<Name>, name: Name, pos: nat, append: bool, path: seq<Name>)
    requires Closed(g) && Inverse(g) && Forest(g) && Listing(g, ordered)
    requires name in g && name !in ordered && pos <= |ordered| && (append ==> pos < |ordered|)
    requires OpenPath(g, ordered, path) && Extends(g, path, name)
    ensures Clean(g, ordered, name)
    ensures var placed := Placed(g, ordered, name, pos, append);
            Listing(g, placed) && OpenPath(g, placed, path + [name]) && Missing(g, placed) < Missing(g, ordered)
  {
    var placed := Placed(g, ordered, name, pos, append);
    ForestClean(g, ordered, path, name);
    OnePathStep(g, ordered, path, name, placed);
    MissingShrinks(g, ordered, placed);
  }

  lemma NeighboursLinkedAs(g: Graph, name: Name)
    requires Closed(g) && name in g
    ensures forall x :: x in g[name].following ==> x in g && LinkedAs(g, name, x, true)
    ensures forall x :: x in g[name].preceding ==> x in g && LinkedAs(g, name, x, false)
  {
    assert forall x :: Linked(g, name, x) ==> x in g;
  }

  /** In a forest every insertion is clean. */
  lemma {:induction false} UpdateForest(g: Graph, ordered: seq<Name>, name: Name, pos: nat, append: bool,
                                        path: seq<Name>)
    requires Closed(g) && Inverse(g) && Forest(g) && Listing(g, ordered)
    requires name in g && pos <= |ordered| && (append ==> pos < |ordered|)
    requires OpenPath(g, ordered, path) && Extends(g, path, name)
    ensures CleanUpdate(g, ordered, name, pos, append)
    decreases Missing(g, ordered), 0
  {
    if name !in ordered {
      ForestPlacing(g, ordered, name, pos, append, path);
      NeighboursLinkedAs(g, name);
      var placed := Placed(g, ordered, name, pos, append);
      VisitForest(g, placed, name, g[name].following, true, path + [name]);
      var half := VisitNeighbours(g, placed, name, g[name].following, true);
      MissingShrinks(g, placed, half);
      VisitForest(g, half, name, g[name].preceding, false, path + [name]);
    }
  }

  lemma ForestClean(g: Graph, ordered: seq<Name>, path: seq<Name>, name: Name)
    requires Closed(g) && Inverse(g) && Forest(g) && Listing(g, ordered)
    requires OpenPath(g, ordered, path) && Extends(g, path, name) && name !in ordered
    ensures Clean(g, ordered, name)
  {
    forall p, f | p in ordered && f in ordered
      ensures !(p in g[name].preceding && f in g[name].following)
    {
      if p in g[name].preceding && f in g[name].following {
        OnlyCallerListed(g, ordered, path, name, p);
        OnlyCallerListed(g, ordered, path, name, f);
        assert false;
      }
    }
    assert !Linked(g, name, name);
  }

  lemma {:induction false} VisitForest(g: Graph, ordered: seq<Name>, name: Name, todo: seq<Name>, append: bool,
                                       path: seq<Name>)
    requires Closed(g) && Inverse(g) && Forest(g) && Listing(g, ordered) && name in ordered
    requires forall x :: x in todo ==> x in g && LinkedAs(g, name, x, append)
    requires OpenPath(g, ordered, path) && path != [] && path[|path| - 1] == name
    ensures CleanVisit(g, ordered, name, todo, append)
    ensures var r := VisitNeighbours(g, ordered, name, todo, append); Listing(g, r) && OpenPath(g, r, path)
    decreases Missing(g, ordered), |todo| + 1
  {
    if todo != [] {
      assert todo[0] in todo;
      var next := UpdateList(g, ordered, todo[0], IndexOf(ordered, name), append);
      CallForest(g, ordered, name, todo[0], append, path);
      MissingShrinks(g, ordered, next);
      VisitForest(g, next, name, todo[1..], append, path);
    }
  }

  lemma {:induction false} CallForest(g: Graph, ordered: seq<Name>, name: Name, next: Name, append: bool,
                                      path: seq<Name>)
    requires Closed(g) && Inverse(g) && Forest(g) && Listing(g, ordered) && name in ordered
    requires LinkedAs(g, name, next, append)
    requires OpenPath(g, ordered, path) && path != [] && path[|path| - 1] == name
    ensures CleanUpdate(g, ordered, next, IndexOf(ordered, name), append)
    ensures var r := UpdateList(g, ordered, next, IndexOf(ordered, name), append);
            Listing(g, r) && OpenPath(g, r, path)
    decreases Missing(g, ordered), 1
  {
    UpdateForest(g, ordered, next, IndexOf(ordered, name), append, path);
    UpdateLists(g, ordered, next, IndexOf(ordered, name), append);
    UpdateSaturates(g, ordered, next, IndexOf(ordered, name), append, Elements(path));
  }

  // ---------------------------------------------------------------------------------------
  // The whole reordering
  // ---------------------------------------------------------------------------------------

  /** Every insertion of the reordering is clean. */
  ghost predicate CleanFrom(g: Graph, ordered: seq<Name>, keys: seq<Name>)
    requires Closed(g) && (forall x :: x in keys ==> x in g)
    decreases |keys|
  {
    keys == [] ||
    (assert forall x :: x in keys <==> x == keys[0] || x in keys[1..];
     (keys[0] in ordered || CleanUpdate(g, ordered, keys[0], |ordered|, false))
     && CleanFrom(g, if keys[0] in ordered then ordered else UpdateList(g, ordered, keys[0], |ordered|, false), keys[1..]))
  }

  lemma {:induction false} OrderFromProperties(g: Graph, ordered: seq<Name>, keys: seq<Name>)
    requires Closed(g) && Inverse(g) && (forall x :: x in keys ==> x in g)
    requires Listing(g, ordered) && Saturated(g, ordered, {}) && Blocks(g, ordered)
    ensures var r := OrderFrom(g, ordered, keys);
            && Listing(g, r) && Blocks(g, r)
            && (forall x :: x in ordered || x in keys ==> x in r)
            && (Sorted(g, r) <==> Sorted(g, ordered) && CleanFrom(g, ordered, keys))
            && (Forest(g) ==> CleanFrom(g, ordered, keys))
    decreases |keys|
  {
    if keys != [] {
      assert forall x :: x in keys <==> x == keys[0] || x in keys[1..];
      if keys[0] in ordered {
        OrderFromProperties(g, ordered, keys[1..]);
      } else {
        OuterCall(g, ordered, keys[0]);
        OrderFromProperties(g, UpdateList(g, ordered, keys[0], |ordered|, false), keys[1..]);
      }
    }
  }

  /** One call from the loop of configure_controller. */
  lemma OuterCall(g: Graph, ordered: seq<Name>, name: Name)
    requires Closed(g) && Inverse(g) && name in g && name !in ordered
    requires Listing(g, ordered) && Saturated(g, ordered, {}) && Blocks(g, ordered)
    ensures var r := UpdateList(g, ordered, name, |ordered|, false);
            && Listing(g, r) && Saturated(g, r, {}) && Blocks(g, r)
            && (Sorted(g, r) <==> Sorted(g, ordered) && CleanUpdate(g, ordered, name, |ordered|, false))
            && (Forest(g) ==> CleanUpdate(g, ordered, name, |ordered|, false))
  {
    OuterAnchored(g, ordered, name);
    UpdateLists(g, ordered, name, |ordered|, false);
    UpdateSaturates(g, ordered, name, |ordered|, false, {});
    UpdateBlocks(g, ordered, name, |ordered|, false);
    UpdateSorted(g, ordered, name, |ordered|, false);
    if Forest(g) {
      assert Elements<Name>([]) == {};
      UpdateForest(g, ordered, name, |ordered|, false, []);
    }
  }

  lemma OuterAnchored(g: Graph, ordered: seq<Name>, name: Name)
    requires Closed(g) && Inverse(g) && name in g && name !in ordered
    requires Listing(g, ordered) && Saturated(g, ordered, {})
    ensures Anchored(g, ordered, name, |ordered|, false)
  {
    forall y | Linked(g, name, y)
      ensures y !in ordered
    {
      assert Linked(g, y, name);
    }
  }

  /** For every closed specification with inverse neighbour lists and every iteration order, the
      reordering lists each controller exactly once, keeps each chain in one contiguous block, and
      puts every controller before all its following ones exactly when each insertion found its
      listed preceding controllers before its listed following ones - which is always so when the
      chains form a forest. */
  lemma ReorderingIsRight(g: Graph, keys: seq<Name>)
    requires Closed(g) && Inverse(g) && Elements(keys) == g.Keys
    ensures var r := OrderFrom(g, [], keys);
            && Unique(r) && Elements(r) == g.Keys
            && Blocks(g, r)
            && (Sorted(g, r) <==> CleanFrom(g, [], keys))
            && (Forest(g) ==> Sorted(g, r))
  {
    assert forall x :: x in keys <==> x in Elements(keys);
    OrderFromProperties(g, [], keys);
    assert forall x :: x in OrderFrom(g, [], keys) ==> x in g;
    assert forall x :: x in g.Keys ==> x in keys;
  }

  /** The links a -> x -> f -> h and a -> h: acyclic, but no forest. */
  function Detour(a: Name, x: Name, f: Name, h: Name): Graph {
    map[a := ChainSpec([x, h], []), x := ChainSpec([f], [a]), f := ChainSpec([h], [x]), h := ChainSpec([], [f, a])]
  }

  ghost predicate FourNames(a: Name, x: Name, f: Name, h: Name) {
    a != x && a != f && a != h && x != f && x != h && f != h
  }

  lemma DetourIsClosed(a: Name, x: Name, f: Name, h: Name)
    requires FourNames(a, x, f, h)
    ensures Closed(Detour(a, x, f, h)) && Inverse(Detour(a, x, f, h))
  {
  }

  /** Visiting neighbours that are all listed changes nothing. */
  lemma {:induction false} NothingLeft(g: Graph, ordered: seq<Name>, name: Name, todo: seq<Name>, append: bool)
    requires Closed(g) && name in ordered && (forall x :: x in todo ==> x in g && x in ordered)
    ensures VisitNeighbours(g, ordered, name, todo, append) == ordered
  {
    if todo != [] {
      NothingLeft(g, ordered, name, todo[1..], append);
    }
  }

  lemma {:induction false} NoneLeft(g: Graph, ordered: seq<Name>, keys: seq<Name>)
    requires Closed(g) && (forall x :: x in keys ==> x in g && x in ordered)
    ensures OrderFrom(g, ordered, keys) == ordered
  {
    if keys != [] {
      assert keys[0] in keys;
      NoneLeft(g, ordered, keys[1..]);
    }
  }

  /** x goes after a, its preceding controller, although f, its following one, stands before a. */
  lemma DetourAtX(a: Name, x: Name, f: Name, h: Name)
    requires FourNames(a, x, f, h) && Closed(Detour(a, x, f, h))
    ensures UpdateList(Detour(a, x, f, h), [f, a, h], x, 1, true) == [f, a, x, h]
  {
    var g := Detour(a, x, f, h);
    assert Place(g[x], [f, a, h], 1) == 1;
    assert InsertAt([f, a, h], 2, x) == [f, a, x, h];
    NothingLeft(g, [f, a, x, h], x, [f], true);
    NothingLeft(g, [f, a, x, h], x, [a], false);
  }

  lemma UpdateStep(g: Graph, ordered: seq<Name>, name: Name, pos: nat, append: bool, placed: seq<Name>, half: seq<Name>)
    requires Closed(g) && name in g && pos <= |ordered| && (append ==> pos < |ordered|)
    requires name !in ordered && Placed(g, ordered, name, pos, append) == placed
    requires (forall x :: x in g[name].following + g[name].preceding ==> x in g) && name in placed
    requires VisitNeighbours(g, placed, name, g[name].following, true) == half
    ensures UpdateList(g, ordered, name, pos, append) == VisitNeighbours(g, half, name, g[name].preceding, false)
  {
  }

  lemma AlreadyListed(g: Graph, ordered: seq<Name>, name: Name, pos: nat, append: bool)
    requires Closed(g) && name in g && pos <= |ordered| && (append ==> pos < |ordered|) && name in ordered
    ensures UpdateList(g, ordered, name, pos, append) == ordered
  {
  }

  lemma VisitStep(g: Graph, ordered: seq<Name>, name: Name, todo: seq<Name>, append: bool, pos: nat, next: seq<Name>)
    requires Closed(g) && name in ordered && (forall x :: x in todo ==> x in g) && todo != []
    requires IndexOf(ordered, name) == pos && UpdateList(g, ordered, todo[0], pos, append) == next
    ensures VisitNeighbours(g, ordered, name, todo, append) == VisitNeighbours(g, next, name, todo[1..], append)
  {
  }

  lemma DetourAtA(a: Name, x: Name, f: Name, h: Name)
    requires FourNames(a, x, f, h) && Closed(Detour(a, x, f, h))
    ensures UpdateList(Detour(a, x, f, h), [f, h], a, 1, false) == [f, a, x, h]
  {
    var g := Detour(a, x, f, h);
    assert InsertAt([f, h], 1, a) == [f, a, h];
    assert Placed(g, [f, h], a, 1, false) == [f, a, h];
    DetourAtX(a, x, f, h);
    assert [x, h][1..] == [h];
    VisitStep(g, [f, a, h], a, [x, h], true, 1, [f, a, x, h]);
    NothingLeft(g, [f, a, x, h], a, [h], true);
    UpdateStep(g, [f, h], a, 1, false, [f, a, h], [f, a, x, h]);
  }

  lemma DetourAtH(a: Name, x: Name, f: Name, h: Name)
    requires FourNames(a, x, f, h) && Closed(Detour(a, x, f, h))
    ensures UpdateList(Detour(a, x, f, h), [f], h, 0, true) == [f, a, x, h]
  {
    var g := Detour(a, x, f, h);
    assert InsertAt([f], 1, h) == [f, h];
    assert Placed(g, [f], h, 0, true) == [f, h];
    NothingLeft(g, [f, h], h, [], true);
    assert [f, a][1..] == [a] && [a][1..] == [];
    VisitStep(g, [f, h], h, [f, a], false, 1, [f, h]);
    DetourAtA(a, x, f, h);
    VisitStep(g, [f, h], h, [a], false, 1, [f, a, x, h]);
    UpdateStep(g, [f], h, 0, true, [f, h], [f, h]);
  }

  /** Started at `f`, the reordering of that specification puts `f` before `x`, its preceding
      controller. */
  lemma DetourIsMisordered(a: Name, x: Name, f: Name, h: Name)
    requires FourNames(a, x, f, h)
    ensures var g := Detour(a, x, f, h);
            && Closed(g) && Inverse(g)
            && OrderFrom(g, [], [f, a, x, h]) == [f, a, x, h]
            && !Sorted(g, [f, a, x, h])
  {
    var g := Detour(a, x, f, h);
    DetourIsClosed(a, x, f, h);
    DetourAtH(a, x, f, h);
    assert InsertAt([], 0, f) == [f];
    assert VisitNeighbours(g, [f], f, [h], true) == [f, a, x, h];
    NothingLeft(g, [f, a, x, h], f, [x], false);
    assert UpdateList(g, [], f, 0, false) == [f, a, x, h];
    assert [f, a, x, h][1..] == [a, x, h];
    NoneLeft(g, [f, a, x, h], [a, x, h]);
    assert IndexOf([f, a, x, h], f) == 0;
    assert f in g[x].following && !Before([f, a, x, h], x, f);
  }
}
