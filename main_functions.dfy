/**
 * The free functions of src/main.cc: allClientsVisited, findMinNotVisited
 * and greedySolver, the round-robin nearest-neighbour construction that
 * gives every vehicle in turn the nearest node not yet visited.
 */
module MainFunctions {
  import opened Problems
  import opened Costs
  import opened Routes
  import opened Solutions
  import opened Greedy

  /** allClientsVisited: true exactly when every entry is true. */
  method AllClientsVisited(visited: seq<bool>) returns (b: bool)
    ensures b == AllTrue(visited)
  {
    var i := 0;
    while i < |visited|
      invariant 0 <= i <= |visited|
      invariant forall k :: 0 <= k < i ==> visited[k]
    {
      if !visited[i] {
        return false;
      }
      i := i + 1;
    }
    return true;
  }

  /**
   * findMinNotVisited on the distances `row` from `current`: the eligible
   * node of least distance, the first one found on ties, with its distance;
   * (-1, INT_MAX) when no eligible node lies below INT_MAX.
   */
  method FindMinNotVisited(d: Matrix, visited: seq<bool>, current: int) returns (minIndex: int, min: int)
    requires 0 <= current < |d| && |visited| <= |d[current]|
    ensures minIndex == -1 ==> min == INT_MAX && NoneBelow(d[current], visited, current)
    ensures minIndex != -1 ==> IsNearest(d[current], visited, current, minIndex) && min == d[current][minIndex]
  {
    min := INT_MAX;
    minIndex := -1;
    var i := 0;
    while i < |visited|
      invariant 0 <= i <= |visited|
      invariant minIndex == -1 ==> min == INT_MAX
      invariant minIndex == -1 ==> forall y :: 0 <= y < i && Eligible(visited, current, y) ==> d[current][y] >= INT_MAX
      invariant minIndex != -1 ==> 0 <= minIndex < i && Eligible(visited, current, minIndex)
      invariant minIndex != -1 ==> min == d[current][minIndex] && min < INT_MAX
      invariant minIndex != -1 ==> forall y :: 0 <= y < i && Eligible(visited, current, y) ==> min <= d[current][y]
      invariant minIndex != -1 ==> forall y :: 0 <= y < minIndex && Eligible(visited, current, y) ==> min < d[current][y]
    {
      if visited[i] || i == current {
        i := i + 1;
        continue;
      }
      if d[current][i] < min {
        min := d[current][i];
        minIndex := i;
      }
      i := i + 1;
    }
  }

  /** The routes hold the node sequences `ns` and each caches the length of its sequence. */
  ghost predicate Mirrors(d: Matrix, routes: seq<Route>, ns: seq<seq<int>>)
    reads routes
  {
    IsSquare(d) && NodesAll(ns, |d|) && |ns| == |routes|
    && forall b :: 0 <= b < |routes| ==> routes[b].route == ns[b] && routes[b].cost == TrueCost(d, ns[b])
  }

  /** Routes mirroring `ns` hold exactly `ns`, and their cached costs are the true ones. */
  lemma MirrorsMatch(d: Matrix, routes: seq<Route>, ns: seq<seq<int>>)
    requires Mirrors(d, routes, ns)
    ensures Nodes(routes) == ns && CostsMatch(d, ns, CachedCosts(routes))
  {
    NodesAre(routes, ns);
    CostsAre(routes, seq(|ns|, b requires 0 <= b < |ns| => TrueCost(d, ns[b])));
  }

  /** The loop of greedySolver that starts every route at `init`. */
  method StartRoutes(init: int, routes: seq<Route>)
    requires Distinct(routes)
    requires forall k :: 0 <= k < |routes| ==> routes[k].route == [] && routes[k].cost == 0
    modifies routes
    ensures forall k :: 0 <= k < |routes| ==> routes[k].route == [init] && routes[k].cost == 0
  {
    var k := 0;
    while k < |routes|
      invariant 0 <= k <= |routes|
      invariant forall b :: 0 <= b < k ==> routes[b].route == [init] && routes[b].cost == 0
      invariant forall b :: k <= b < |routes| ==> routes[b].route == [] && routes[b].cost == 0
    {
      routes[k].AddClient(init);
      k := k + 1;
    }
  }

  /**
   * One turn of the for loop of greedySolver (src/main.cc:160-166): route
   * `i` receives the nearest unvisited node from its last one, the node is
   * marked visited and the distance is added to the route's cost.
   */
  method Turn(d: Matrix, init: int, routes: seq<Route>, i: int, visited: seq<bool>, ghost ns: seq<seq<int>>, ghost L: int)
    returns (visited': seq<bool>, ghost ns': seq<seq<int>>)
    requires BelowIntMax(d) && Distinct(routes) && 0 <= i < |routes|
    requires Building(d, init, visited, ns) && RoundAt(ns, i, L) && Mirrors(d, routes, ns)
    requires !AllTrue(visited)
    modifies routes[i]
    ensures Building(d, init, visited', ns') && RoundAt(ns', i + 1, L) && Mirrors(d, routes, ns')
    ensures Unvisited(visited') < Unvisited(visited)
  {
    var actualNode := routes[i].GetLastClient();
    TurnFindsNode(d, init, visited, ns, i);
    var next, c := FindMinNotVisited(d, visited, actualNode);
    BuildingStep(d, init, visited, ns, i, L, next);
    TrueCostAppend(d, ns[i], next);
    visited' := visited[next := true];
    routes[i].AddClient(next);
    var c0 := routes[i].GetCost();
    routes[i].cost := c0 + c;
    ns' := ns[i := ns[i] + [next]];
  }

  /**
   * One pass of the for loop of greedySolver: each vehicle in turn, until
   * every node is visited, receives the nearest unvisited node from its
   * last one and pays the distance.  At least one vehicle gets a node; the
   * pass stops early only once every node is visited.
   */
  method Round(d: Matrix, init: int, routes: seq<Route>, visited: seq<bool>, ghost ns: seq<seq<int>>, ghost L: int)
    returns (visited': seq<bool>, i: int, ghost ns': seq<seq<int>>)
    requires BelowIntMax(d) && Distinct(routes) && |routes| >= 1
    requires Building(d, init, visited, ns) && RoundAt(ns, 0, L) && Mirrors(d, routes, ns)
    requires !AllTrue(visited)
    modifies routes
    ensures Building(d, init, visited', ns') && RoundAt(ns', i, L) && Mirrors(d, routes, ns')
    ensures 1 <= i <= |routes| && (i < |routes| ==> AllTrue(visited'))
    ensures Unvisited(visited') < Unvisited(visited)
  {
    visited', ns' := visited, ns;
    i := 0;
    while i < |routes|
      invariant 0 <= i <= |routes| && Building(d, init, visited', ns') && RoundAt(ns', i, L)
      invariant Mirrors(d, routes, ns')
      invariant i == 0 ==> visited' == visited
      invariant i > 0 ==> Unvisited(visited') < Unvisited(visited)
    {
      var all := AllClientsVisited(visited');
      if all {
        break;
      }
      visited', ns' := Turn(d, init, routes, i, visited', ns', L);
      i := i + 1;
    }
  }

  /** The closing loop of greedySolver: every route pays its way back to `init` and ends there. */
  method CloseRoutes(d: Matrix, init: int, routes: seq<Route>, ghost ns: seq<seq<int>>) returns (ghost fs: seq<seq<int>>)
    requires Distinct(routes) && Mirrors(d, routes, ns) && 0 <= init < |d|
    requires forall b :: 0 <= b < |ns| ==> |ns[b]| >= 1
    modifies routes
    ensures |fs| == |ns| && forall b :: 0 <= b < |ns| ==> fs[b] == ns[b] + [init]
    ensures Mirrors(d, routes, fs)
  {
    var k := 0;
    while k < |routes|
      invariant 0 <= k <= |routes|
      invariant forall b :: 0 <= b < k ==> routes[b].route == ns[b] + [init] && NodesIn(ns[b] + [init], |d|)
      invariant forall b :: 0 <= b < k ==> routes[b].cost == TrueCost(d, ns[b] + [init])
      invariant forall b :: k <= b < |routes| ==> routes[b].route == ns[b] && routes[b].cost == TrueCost(d, ns[b])
    {
      var last := routes[k].GetLastClient();
      TrueCostAppend(d, ns[k], init);
      var c0 := routes[k].GetCost();
      routes[k].cost := c0 + d[last][init];
      routes[k].AddClient(init);
      k := k + 1;
    }
    fs := seq(|ns|, b requires 0 <= b < |ns| => ns[b] + [init]);
  }

  /** The while loop of greedySolver: passes of the for loop until every node is visited. */
  method Rounds(d: Matrix, init: int, routes: seq<Route>, visited: seq<bool>, ghost ns: seq<seq<int>>)
    returns (visited': seq<bool>, ghost ns': seq<seq<int>>, ghost j: int, ghost L: int)
    requires BelowIntMax(d) && Distinct(routes)
    requires Building(d, init, visited, ns) && RoundAt(ns, 0, 1) && Mirrors(d, routes, ns)
    requires |routes| >= 1 || AllTrue(visited)
    modifies routes
    ensures Building(d, init, visited', ns') && RoundAt(ns', j, L) && Mirrors(d, routes, ns')
    ensures AllTrue(visited')
  {
    visited', ns', j, L := visited, ns, 0, 1;
    var done := AllClientsVisited(visited');
    while !done
      invariant Building(d, init, visited', ns') && RoundAt(ns', j, L) && Mirrors(d, routes, ns')
      invariant done == AllTrue(visited') && (j == 0 || done)
      invariant |routes| >= 1 || done
      decreases Unvisited(visited')
    {
      var i;
      visited', i, ns' := Round(d, init, routes, visited', ns', L);
      if i == |routes| {
        RoundWraps(ns', L);
        L := L + 1;
        j := 0;
      } else {
        j := i;
      }
      done := AllClientsVisited(visited');
    }
  }

  /**
   * The body of greedySolver once the routes exist: every route starts at
   * `init`, the vehicles take turns receiving the nearest unvisited node
   * until every node is visited, then every route returns to `init`.  A
   * route's cost is accumulated through the reference getCost() returns.
   */
  method FillRoutes(d: Matrix, init: int, routes: seq<Route>)
    requires IsSquare(d) && BelowIntMax(d) && 0 <= init < |d|
    requires |routes| >= 1 || |d| == 1
    requires Distinct(routes)
    requires forall k :: 0 <= k < |routes| ==> routes[k].route == [] && routes[k].cost == 0
    modifies routes
    ensures Closed(d, init, Nodes(routes)) && Covers(d, init, Nodes(routes))
    ensures Balanced(Nodes(routes)) && NearestOrder(d, Nodes(routes), init, 1)
    ensures CostsMatch(d, Nodes(routes), CachedCosts(routes))
  {
    var visited := seq(|d|, x => false);
    visited := visited[init := true];
    StartRoutes(init, routes);
    ghost var ns := seq(|routes|, b => [init]);
    assert visited == Marked(|d|, {init});
    BuildingStart(d, init, |routes|, ns);
    assert Mirrors(d, routes, ns);
    if |d| == 1 {
      assert AllTrue(visited);
    }
    ghost var j, L;
    visited, ns, j, L := Rounds(d, init, routes, visited, ns);
    ghost var fs := CloseRoutes(d, init, routes, ns);
    MirrorsMatch(d, routes, fs);
    BuildingClose(d, init, visited, ns, j, L, fs);
  }

  /**
   * greedySolver: `nVehicles` routes from `init` back to `init` that
   * together visit every other node exactly once, built by turns; each
   * cost is the route's length.
   */
  method GreedySolver(d: Matrix, nVehicles: int, init: int) returns (routes: seq<Route>)
    requires IsSquare(d) && BelowIntMax(d) && 0 <= init < |d|
    requires nVehicles >= 0 && (nVehicles >= 1 || |d| == 1)
    ensures |routes| == nVehicles && Distinct(routes)
    ensures Closed(d, init, Nodes(routes)) && Covers(d, init, Nodes(routes))
    ensures Balanced(Nodes(routes)) && NearestOrder(d, Nodes(routes), init, 1)
    ensures CostsMatch(d, Nodes(routes), CachedCosts(routes))
  {
    routes := EmptyRoutes(nVehicles);
    FillRoutes(d, init, routes);
  }
}
