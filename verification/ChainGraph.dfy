/** The controller chain specification seen as a graph, and the depth-first search that groups
    controllers into full chains (controller_manager.cpp, get_full_chain_spec and
    build_controller_full_chain_map_cache). */
module ChainGraph {
  import opened Names

  /** The direct neighbours of one controller, as in ControllerChainSpec. */
  datatype ChainSpec = ChainSpec(following: seq<Name>, preceding: seq<Name>)

  type Graph = map<Name, ChainSpec>

  /** `b` is a direct neighbour of `a`, in either direction. */
  predicate Linked(g: Graph, a: Name, b: Name) {
    a in g && (b in g[a].following || b in g[a].preceding)
  }

  /** Every neighbour has an entry of its own. */
  ghost predicate Closed(g: Graph) {
    forall a, b :: Linked(g, a, b) ==> b in g
  }

  /** Following and preceding are inverse relations. */
  ghost predicate Inverse(g: Graph) {
    forall a, b :: a in g && b in g ==> (b in g[a].following <==> a in g[b].preceding)
  }

  /** A walk along neighbour links, staying inside the specification. */
  ghost predicate Walk(g: Graph, p: seq<Name>) {
    && p != []
    && (forall i :: 0 <= i < |p| ==> p[i] in g)
    && (forall i :: 0 <= i < |p| - 1 ==> Linked(g, p[i], p[i + 1]))
  }

  ghost predicate WalkBetween(g: Graph, p: seq<Name>, a: Name, b: Name) {
    Walk(g, p) && p[0] == a && p[|p| - 1] == b
  }

  /** Reachability through following and preceding links. */
  ghost predicate Connected(g: Graph, a: Name, b: Name) {
    exists p :: WalkBetween(g, p, a, b)
  }

  lemma ConnectedRefl(g: Graph, a: Name)
    requires a in g
    ensures Connected(g, a, a)
  {
    assert WalkBetween(g, [a], a, a);
  }

  lemma ConnectedTrans(g: Graph, a: Name, b: Name, c: Name)
    requires Connected(g, a, b) && Connected(g, b, c)
    ensures Connected(g, a, c)
  {
    var p :| WalkBetween(g, p, a, b);
    var q :| WalkBetween(g, q, b, c);
    var r := p + q[1..];
    forall i | 0 <= i < |r| - 1
      ensures Linked(g, r[i], r[i + 1])
    {
      if i >= |p| - 1 {
        assert r[i] == q[i - (|p| - 1)];
        assert r[i + 1] == q[i + 1 - (|p| - 1)];
      }
    }
    assert WalkBetween(g, r, a, c);
  }

  lemma ConnectedLink(g: Graph, a: Name, b: Name)
    requires Linked(g, a, b) && b in g
    ensures Connected(g, a, b)
  {
    assert WalkBetween(g, [a, b], a, b);
  }

  lemma ConnectedSym(g: Graph, a: Name, b: Name)
    requires Inverse(g) && Connected(g, a, b)
    ensures Connected(g, b, a)
  {
    var p :| WalkBetween(g, p, a, b);
    var r := seq(|p|, i requires 0 <= i < |p| => p[|p| - 1 - i]);
    forall i | 0 <= i < |r| - 1
      ensures Linked(g, r[i], r[i + 1])
    {
      assert Linked(g, p[|p| - 2 - i], p[|p| - 2 - i + 1]);
    }
    assert WalkBetween(g, r, b, a);
  }

  /** A set of names that contains the start of a walk and all neighbours of its members contains
      the end of the walk. */
  lemma {:induction false} WalkStaysInside(g: Graph, inside: set<Name>, p: seq<Name>)
    requires Walk(g, p) && p[0] in inside
    requires forall x, y :: x in inside && Linked(g, x, y) && y in g ==> y in inside
    ensures p[|p| - 1] in inside
  {
    if |p| > 1 {
      assert Linked(g, p[0], p[1]);
      WalkStaysInside(g, inside, p[1..]);
    }
  }

  /** The part of the specification that the search has not listed yet. */
  ghost function Unlisted(g: Graph, list: seq<Name>): set<Name> {
    g.Keys - Elements(list)
  }

  /** Everything the search promises about growing `list` into `out` from `name`: it only appends
      keys reachable from `name`, without repetition, and leaves no appended name - nor `name`
      itself - with an unlisted neighbour. */
  ghost predicate Explored(g: Graph, name: Name, list: seq<Name>, out: seq<Name>) {
    && list <= out
    && (Unique(list) ==> Unique(out))
    && (forall x :: x in out && x !in list ==> x in g && Connected(g, name, x))
    && (name in g ==> name in out)
    && (forall x, y :: x in out && (x !in list || x == name) && Linked(g, x, y) && y in g ==> y in out)
  }

  /** get_full_chain_spec: the recursive depth-first search over both neighbour lists. A name
      without an entry leaves the list as it is. */
  method GetFullChainSpec(name: Name, g: Graph, list: seq<Name>) returns (out: seq<Name>)
    ensures name !in g ==> out == list
    ensures Explored(g, name, list, out)
    decreases |Unlisted(g, list)|, if name in list then 1 else 0
  {
    hide Connected;
    if name !in g {
      return list;
    }
    out := AddItem(list, name);
    ConnectedRefl(g, name);
    ghost var entered := out;
    assert name !in list ==> Unlisted(g, entered) == Unlisted(g, list) - {name};
    assert name in list ==> entered == list;
    var following := g[name].following;
    for i := 0 to |following|
      invariant entered <= out && (Unique(entered) ==> Unique(out))
      invariant forall x :: x in out && x !in list ==> x in g && Connected(g, name, x)
      invariant forall x, y :: x in out && x !in entered && Linked(g, x, y) && y in g ==> y in out
      invariant forall j :: 0 <= j < i && following[j] in g ==> following[j] in out
    {
      if following[i] !in out {
        out := ExploreNeighbour(name, following[i], g, list, entered, out);
      }
    }
    var preceding := g[name].preceding;
    for i := 0 to |preceding|
      invariant entered <= out && (Unique(entered) ==> Unique(out))
      invariant forall x :: x in out && x !in list ==> x in g && Connected(g, name, x)
      invariant forall x, y :: x in out && x !in entered && Linked(g, x, y) && y in g ==> y in out
      invariant forall y :: y in following && y in g ==> y in out
      invariant forall j :: 0 <= j < i && preceding[j] in g ==> preceding[j] in out
    {
      if preceding[i] !in out {
        out := ExploreNeighbour(name, preceding[i], g, list, entered, out);
      }
    }
  }

  /** The recursive call of either loop, for a neighbour that is not listed yet. */
  method ExploreNeighbour(name: Name, next: Name, g: Graph, ghost list: seq<Name>, ghost entered: seq<Name>,
                          current: seq<Name>) returns (out: seq<Name>)
    requires name in g && Linked(g, name, next) && next !in current
    requires entered == AddItem(list, name) && entered <= current && (Unique(entered) ==> Unique(current))
    requires forall x :: x in current && x !in list ==> x in g && Connected(g, name, x)
    requires forall x, y :: x in current && x !in entered && Linked(g, x, y) && y in g ==> y in current
    ensures current <= out && entered <= out && (Unique(entered) ==> Unique(out))
    ensures next in g ==> next in out
    ensures forall x :: x in out && x !in list ==> x in g && Connected(g, name, x)
    ensures forall x, y :: x in out && x !in entered && Linked(g, x, y) && y in g ==> y in out
    decreases |Unlisted(g, list)|, if name in list then 1 else 0, 0
  {
    ghost var before := Unlisted(g, list);
    assert Unlisted(g, current) <= before;
    assert name !in list ==> name in before && name !in Unlisted(g, current);
    SmallerSet(Unlisted(g, current), before);
    out := GetFullChainSpec(next, g, current);
    forall x | x in out && x !in list
      ensures x in g && Connected(g, name, x)
    {
      if x !in current {
        ConnectedLink(g, name, next);
        ConnectedTrans(g, name, next, x);
      }
    }
  }

  lemma SmallerSet<T>(s: set<T>, t: set<T>)
    requires s <= t
    ensures |s| <= |t|
    ensures s != t ==> |s| < |t|
  {
    assert t == s + (t - s);
    assert |t| == |s| + |t - s|;
  }

  /** A finished search started from the name alone lists exactly the connected component. */
  lemma ExploredIsComponent(g: Graph, name: Name, start: seq<Name>, out: seq<Name>)
    requires name in g && (start == [] || start == [name])
    requires Explored(g, name, start, out)
    ensures Unique(out)
    ensures forall x :: x in out <==> Connected(g, name, x)
  {
    forall x
      ensures x in out <==> Connected(g, name, x)
    {
      if x in out {
        ConnectedRefl(g, name);
        assert x == name || x !in start;
      }
      if Connected(g, name, x) {
        var p :| WalkBetween(g, p, name, x);
        WalkStaysInside(g, Elements(out), p);
      }
    }
  }

  /** Every key of the specification is mapped to its connected component, listed once each. */
  ghost predicate ExactGroups(g: Graph, cache: map<Name, seq<Name>>) {
    && cache.Keys == g.Keys
    && (forall c :: c in cache ==> Unique(cache[c]))
    && (forall c, x :: c in cache ==> (x in cache[c] <==> Connected(g, c, x)))
  }

  /** build_controller_full_chain_map_cache: one search per key. `keys` is the iteration order of
      the hash map, any listing of its keys. */
  method BuildFullChainCache(g: Graph, keys: seq<Name>) returns (cache: map<Name, seq<Name>>)
    requires Elements(keys) == g.Keys
    ensures ExactGroups(g, cache)
  {
    cache := map[];
    for i := 0 to |keys|
      invariant cache.Keys == Elements(keys[..i])
      invariant forall c :: c in cache ==> Unique(cache[c])
      invariant forall c, x :: c in cache ==> (x in cache[c] <==> Connected(g, c, x))
    {
      assert keys[i] in Elements(keys);
      var group := GetFullChainSpec(keys[i], g, AddItem([], keys[i]));
      ExploredIsComponent(g, keys[i], [keys[i]], group);
      cache := cache[keys[i] := group];
      assert keys[..i + 1] == keys[..i] + [keys[i]];
    }
    assert keys[..|keys|] == keys;
  }

  /** The cached groups partition the controllers: every controller is in its own group, and two
      groups that share a controller list the same controllers. */
  lemma GroupsPartition(g: Graph, cache: map<Name, seq<Name>>)
    requires Inverse(g) && ExactGroups(g, cache)
    ensures forall c :: c in cache ==> c in cache[c]
    ensures forall c, x :: c in cache && x in cache[c] ==> x in cache
    ensures forall c, d, x, y :: c in cache && d in cache && x in cache[c] && x in cache[d] && y in cache[c]
              ==> y in cache[d]
  {
    forall c | c in cache
      ensures c in cache[c]
    {
      ConnectedRefl(g, c);
    }
    forall c, d, x, y | c in cache && d in cache && x in cache[c] && x in cache[d] && y in cache[c]
      ensures y in cache[d]
    {
      ConnectedSym(g, c, x);
      ConnectedTrans(g, d, x, c);
      ConnectedTrans(g, d, c, y);
    }
  }
}
