/**
 * The earlier, minimal route of route.h at the repository root: nodes are
 * only ever appended, and the cost is changed by the caller through the
 * reference getCost() returns.
 *
 * This Route is a class of its own, distinct from the Route of src/route.h,
 * so the vector vocabulary of Solutions (Distinct, Nodes, CachedCosts and
 * the EmptyRoutes constructor of a vector) is restated here over it.
 */
module LegacyRoutes {

  class Route {
    var route: seq<int>
    var cost: int

    /** Route() of route.h:15 with the member initialisers of route.h:11-12. */
    constructor ()
      ensures route == [] && cost == 0
    {
      route := [];
      cost := 0;
    }

    method GetSize() returns (n: int)
      ensures n == |route|
    {
      n := |route|;
    }

    /** A copy of the nodes, in the order they were appended. */
    method GetRoute() returns (r: seq<int>)
      ensures r == route
    {
      r := route;
    }

    /** Reads the cost; writing through the returned reference is `cost := ...` at the caller. */
    method GetCost() returns (c: int)
      ensures c == cost
    {
      c := cost;
    }

    method GetLastClient() returns (c: int)
      requires |route| > 0
      ensures c == route[|route| - 1]
    {
      c := route[|route| - 1];
    }

    method AddClient(client: int)
      modifies this
      ensures route == old(route) + [client] && cost == old(cost)
    {
      route := route + [client];
    }
  }

  /** No route object appears twice: each vector slot is its own Route. */
  ghost predicate Distinct(rs: seq<Route>) {
    forall a, b :: 0 <= a < b < |rs| ==> rs[a] != rs[b]
  }

  /** The node sequences of the routes, in order. */
  ghost function Nodes(rs: seq<Route>): (ns: seq<seq<int>>)
    reads rs
    ensures |ns| == |rs|
    ensures forall k :: 0 <= k < |rs| ==> ns[k] == rs[k].route
  {
    if rs == [] then [] else [rs[0].route] + Nodes(rs[1..])
  }

  /** The cached costs of the routes, in order. */
  ghost function CachedCosts(rs: seq<Route>): (cs: seq<int>)
    reads rs
    ensures |cs| == |rs|
    ensures forall k :: 0 <= k < |rs| ==> cs[k] == rs[k].cost
  {
    if rs == [] then [] else [rs[0].cost] + CachedCosts(rs[1..])
  }

  /** Routes holding the node sequences `ns`, slot by slot. */
  lemma NodesAre(rs: seq<Route>, ns: seq<seq<int>>)
    requires |ns| == |rs| && forall k :: 0 <= k < |rs| ==> rs[k].route == ns[k]
    ensures Nodes(rs) == ns
  {
    var fs := Nodes(rs);
    assert forall k :: 0 <= k < |rs| ==> fs[k] == ns[k];
  }

  /** Routes holding the cached costs `cs`, slot by slot. */
  lemma CostsAre(rs: seq<Route>, cs: seq<int>)
    requires |cs| == |rs| && forall k :: 0 <= k < |rs| ==> rs[k].cost == cs[k]
    ensures CachedCosts(rs) == cs
  {
    var es := CachedCosts(rs);
    assert forall k :: 0 <= k < |rs| ==> es[k] == cs[k];
  }

  /** `n` distinct default-constructed routes, as std::vector<Route>(n) holds. */
  method EmptyRoutes(n: int) returns (rs: seq<Route>)
    requires n >= 0
    ensures |rs| == n && Distinct(rs)
    ensures forall k :: 0 <= k < n ==> fresh(rs[k])
    ensures forall k :: 0 <= k < n ==> rs[k].route == [] && rs[k].cost == 0
  {
    rs := [];
    while |rs| < n
      invariant |rs| <= n && Distinct(rs)
      invariant forall k :: 0 <= k < |rs| ==> fresh(rs[k])
      invariant forall k :: 0 <= k < |rs| ==> rs[k].route == [] && rs[k].cost == 0
    {
      var r := new Route();
      rs := rs + [r];
    }
  }

}
