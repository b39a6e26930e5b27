/**
 * The solution of src/solution.h: a vector of routes held by value and an
 * aggregate cost that calculateCost() recomputes from the routes' cached costs.
 */
module Solutions {
  import opened Routes
  import opened SeqUtil

  /** No route object appears twice: each vector slot is its own Route. */
  ghost predicate Distinct(rs: seq<Route>) {
    forall a, b :: 0 <= a < b < |rs| ==> rs[a] != rs[b]
  }

  /** The node sequences of the routes, in order. */
  ghost function Nodes(rs: seq<Route>): (ns: seq<seq<int>>)
    reads rs
    ensures |ns| == |rs|
    ensures forall k :: 0 <= k < |rs| ==> ns[k] == rs[k].route
  {
    if rs == [] then [] else [rs[0].route] + Nodes(rs[1..])
  }

  /** The cached costs of the routes, in order. */
  ghost function CachedCosts(rs: seq<Route>): (cs: seq<int>)
    reads rs
    ensures |cs| == |rs|
    ensures forall k :: 0 <= k < |rs| ==> cs[k] == rs[k].cost
  {
    if rs == [] then [] else [rs[0].cost] + CachedCosts(rs[1..])
  }

  /** Routes holding the node sequences `ns`, slot by slot. */
  lemma NodesAre(rs: seq<Route>, ns: seq<seq<int>>)
    requires |ns| == |rs| && forall k :: 0 <= k < |rs| ==> rs[k].route == ns[k]
    ensures Nodes(rs) == ns
  {
    var fs := Nodes(rs);
    assert forall k :: 0 <= k < |rs| ==> fs[k] == ns[k];
  }

  /** Routes holding the cached costs `cs`, slot by slot. */
  lemma CostsAre(rs: seq<Route>, cs: seq<int>)
    requires |cs| == |rs| && forall k :: 0 <= k < |rs| ==> rs[k].cost == cs[k]
    ensures CachedCosts(rs) == cs
  {
    var es := CachedCosts(rs);
    assert forall k :: 0 <= k < |rs| ==> es[k] == cs[k];
  }

  /** Copying a std::vector<Route>: a fresh route with the same nodes and cost for every slot. */
  method CopyRoutes(rs: seq<Route>) returns (copies: seq<Route>)
    ensures |copies| == |rs| && Distinct(copies)
    ensures forall k :: 0 <= k < |rs| ==> fresh(copies[k])
    ensures Nodes(copies) == old(Nodes(rs)) && CachedCosts(copies) == old(CachedCosts(rs))
  {
    copies := [];
    while |copies| < |rs|
      invariant |copies| <= |rs| && Distinct(copies)
      invariant forall k :: 0 <= k < |copies| ==> fresh(copies[k])
      invariant forall k :: 0 <= k < |copies| ==> copies[k].route == rs[k].route && copies[k].cost == rs[k].cost
    {
      var c := new Route.Copy(rs[|copies|]);
      copies := copies + [c];
    }
  }

  /** `n` distinct default-constructed routes, as std::vector<Route>(n) holds. */
  method EmptyRoutes(n: int) returns (rs: seq<Route>)
    requires n >= 0
    ensures |rs| == n && Distinct(rs)
    ensures forall k :: 0 <= k < n ==> fresh(rs[k])
    ensures forall k :: 0 <= k < n ==> rs[k].route == [] && rs[k].cost == 0
  {
    rs := [];
    while |rs| < n
      invariant |rs| <= n && Distinct(rs)
      invariant forall k :: 0 <= k < |rs| ==> fresh(rs[k])
      invariant forall k :: 0 <= k < |rs| ==> rs[k].route == [] && rs[k].cost == 0
    {
      var r := new Route();
      rs := rs + [r];
    }
  }

  class Solution {
    var routes: seq<Route>
    var cost: int

    ghost predicate Valid()
      reads this
    {
      Distinct(routes)
    }

    /** Solution(num_vehicles): that many empty routes of cost 0 (routes_.resize). */
    constructor (numVehicles: int)
      requires numVehicles >= 0
      ensures Valid() && |routes| == numVehicles && cost == 0
      ensures forall k :: 0 <= k < |routes| ==> fresh(routes[k])
      ensures forall k :: 0 <= k < |routes| ==> routes[k].route == [] && routes[k].cost == 0
    {
      var rs := EmptyRoutes(numVehicles);
      routes := rs;
      cost := 0;
    }

    /** Appends a copy of `route`; the routes already held are untouched. */
    method AddRoute(route: Route)
      requires Valid()
      modifies this
      ensures Valid() && |routes| == |old(routes)| + 1
      ensures routes[..|old(routes)|] == old(routes)
      ensures fresh(routes[|old(routes)|])
      ensures routes[|old(routes)|].route == route.route && routes[|old(routes)|].cost == route.cost
      ensures cost == old(cost)
    {
      var copy := new Route.Copy(route);
      routes := routes + [copy];
    }

    /** Stores in `cost` and returns the sum of the routes' cached costs, changing no route. */
    method CalculateCost() returns (total: int)
      modifies this
      ensures total == cost && cost == Sum(CachedCosts(routes))
      ensures routes == old(routes)
    {
      ghost var cs := CachedCosts(routes);
      cost := 0;
      var i := 0;
      while i < |routes|
        invariant 0 <= i <= |routes| && routes == old(routes) && CachedCosts(routes) == cs
        invariant cost == Sum(cs[..i])
      {
        var c := routes[i].GetCost();
        assert c == cs[i];
        SumPrefix(cs, i);
        cost := cost + c;
        i := i + 1;
      }
      assert cs[..i] == cs;
      total := cost;
    }

    /** The vector itself: writes to its routes are writes to this solution's routes. */
    function GetRoutes(): (rs: seq<Route>)
      reads this
    {
      routes
    }
  }

  /**
   * The solution the local-search wrappers hand back, holding copies of `rs`
   * (src/local_search.cc:51 calls a Solution(routes) constructor that
   * src/solution.h does not declare; this builds the same value from
   * Solution(0) and addRoute).  Its `cost` is left at 0, as no constructor
   * computes it.
   */
  method WithRoutes(rs: seq<Route>) returns (s: Solution)
    ensures fresh(s) && s.Valid() && |s.routes| == |rs| && s.cost == 0
    ensures forall k :: 0 <= k < |rs| ==> fresh(s.routes[k])
    ensures Nodes(s.routes) == old(Nodes(rs)) && CachedCosts(s.routes) == old(CachedCosts(rs))
  {
    s := new Solution(0);
    var i := 0;
    while i < |rs|
      invariant 0 <= i <= |rs| && s.Valid() && |s.routes| == i && s.cost == 0
      invariant forall k :: 0 <= k < i ==> fresh(s.routes[k])
      invariant forall k :: 0 <= k < i ==> s.routes[k].route == rs[k].route && s.routes[k].cost == rs[k].cost
    {
      s.AddRoute(rs[i]);
      i := i + 1;
    }
  }

  /** Two calls of calculateCost() in a row give the same total. */
  method CalculateCostTwice(s: Solution) returns (first: int, second: int)
    modifies s
    ensures first == second
  {
    first := s.CalculateCost();
    second := s.CalculateCost();
  }

  /**
   * A cost written through getRoutes()[k].getCost() is seen by the next
   * calculateCost(): the total changes by exactly the difference.
   */
  method UpdateThroughRoutes(s: Solution, k: int, c: int) returns (total: int)
    requires s.Valid() && 0 <= k < |s.routes|
    modifies s, s.routes[k]
    ensures total == Sum(old(CachedCosts(s.routes))) - old(s.routes[k].cost) + c
  {
    ghost var before := CachedCosts(s.routes);
    var rs := s.GetRoutes();
    rs[k].cost := c;
    assert CachedCosts(s.routes) == before[k := c];
    SumUpdate(before, k, c);
    total := s.CalculateCost();
  }
}
