/**
 * The local search of src/local_search.cc.  Each descent procedure repeats
 * a best-improvement scan over one neighbourhood of a route (or of a pair
 * of routes) and applies the best move while it lowers the cached cost.
 * The cached cost is updated from the O(1) evaluation, never recomputed;
 * the contracts show that it moves in step with the true cost of the
 * nodes, so whatever gap the caller left between the two is kept.
 */
module LocalSearches {
  import opened Problems
  import opened Costs
  import opened Routes
  import opened Solutions
  import opened SeqUtil
  import opened DeltaCosts
  import opened Scans

  /** `t` has the first and the last node of `s` (the depot at both ends of a closed route). */
  predicate SameEnds(s: seq<int>, t: seq<int>) {
    |s| >= 1 ==> |t| >= 1 && t[0] == s[0] && t[|t| - 1] == s[|s| - 1]
  }

  lemma SameEndsTrans(r: seq<int>, s: seq<int>, t: seq<int>)
    requires SameEnds(r, s) && SameEnds(s, t)
    ensures SameEnds(r, t)
  {
  }

  /** `t` is `s` with its interior nodes reordered. */
  predicate Rearranged(s: seq<int>, t: seq<int>) {
    |t| == |s| && multiset(t) == multiset(s) && SameEnds(s, t)
  }

  /** How far the cached cost `c` is from the true cost of the nodes `s`. */
  function Gap(d: Matrix, s: seq<int>, c: int): int
    requires IsSquare(d) && NodesIn(s, |d|)
  {
    c - TrueCost(d, s)
  }

  /**
   * The length limit of interRouteReinsertionProcedure: the vehicles' share
   * of the clients plus a tenth of the clients, both with C++ integer division.
   */
  function UpperLimit(p: Problem): (u: int)
    requires p.numVehicles != 0
    ensures p.numClients >= 0 && p.numVehicles > 0 ==> u == p.numClients / p.numVehicles + p.numClients / 10
  {
    CDiv(p.numClients, p.numVehicles) + CDiv(p.numClients, 10)
  }

  /**
   * The guards of interRouteReinsertionProcedure, on the pair `s1`, `s2`
   * that became `t1`, `t2`: a first route that changed still has at least
   * four nodes, a second route that changed has at most `limit` nodes, and a
   * pair that starts at either limit is left as it was.
   */
  predicate WithinLimits(s1: seq<int>, c1: int, s2: seq<int>, c2: int, t1: seq<int>, e1: int, t2: seq<int>, e2: int, limit: int) {
    (t1 == s1 || |t1| >= 4) && (t2 == s2 || |t2| <= limit) &&
    (|s1| <= 4 || |s2| >= limit ==> t1 == s1 && t2 == s2 && e1 == c1 && e2 == c2)
  }

  /** Route `t` with cached cost `e` is what the intra-route descent may leave of `s` with cost `c`. */
  predicate Descended(d: Matrix, s: seq<int>, c: int, t: seq<int>, e: int)
    requires IsSquare(d) && NodesIn(s, |d|)
  {
    NodesIn(t, |d|) && Rearranged(s, t) && Gap(d, t, e) == Gap(d, s, c) && e <= c
  }

  /**
   * What the inter-route wrappers keep of the routes `ns` with costs `cs`
   * when they leave routes `fs` with costs `es`: every route keeps its ends,
   * its gap and (with `sameSize`) its length, the nodes of all routes
   * together stay the same, and the total cached cost does not grow.
   */
  predicate Kept(d: Matrix, ns: seq<seq<int>>, cs: seq<int>, fs: seq<seq<int>>, es: seq<int>, sameSize: bool) {
    |ns| == |fs| && |cs| == |fs| && |es| == |fs| && IsSquare(d) && NodesAll(ns, |d|) &&
    (forall k :: 0 <= k < |fs| ==>
       NodesIn(fs[k], |d|) && SameEnds(ns[k], fs[k]) && (sameSize ==> |fs[k]| == |ns[k]|) &&
       Gap(d, fs[k], es[k]) == Gap(d, ns[k], cs[k])) &&
    multiset(Concat(fs)) == multiset(Concat(ns)) &&
    Sum(es) <= Sum(cs)
  }

  /**
   * Routes `t1`, `t2` with costs `e1`, `e2` are what an inter-route descent
   * may leave of `s1`, `s2` with costs `c1`, `c2`: the nodes of the pair
   * stay the same, each route keeps its ends and its gap, and either nothing
   * changed or the total cost went strictly down.
   */
  predicate PairKept(d: Matrix, s1: seq<int>, c1: int, s2: seq<int>, c2: int, t1: seq<int>, e1: int, t2: seq<int>, e2: int)
    requires IsSquare(d) && NodesIn(s1, |d|) && NodesIn(s2, |d|)
  {
    NodesIn(t1, |d|) && NodesIn(t2, |d|) && |t1| + |t2| == |s1| + |s2| &&
    SameEnds(s1, t1) && SameEnds(s2, t2) &&
    multiset(t1) + multiset(t2) == multiset(s1) + multiset(s2) &&
    Gap(d, t1, e1) == Gap(d, s1, c1) && Gap(d, t2, e2) == Gap(d, s2, c2) &&
    ((t1 == s1 && t2 == s2 && e1 == c1 && e2 == c2) || e1 + e2 < c1 + c2)
  }

  /** Two descents in a row are a descent. */
  lemma PairKeptTrans(d: Matrix, s1: seq<int>, c1: int, s2: seq<int>, c2: int,
                      t1: seq<int>, e1: int, t2: seq<int>, e2: int, u1: seq<int>, f1: int, u2: seq<int>, f2: int)
    requires IsSquare(d) && NodesIn(s1, |d|) && NodesIn(s2, |d|)
    requires PairKept(d, s1, c1, s2, c2, t1, e1, t2, e2) && PairKept(d, t1, e1, t2, e2, u1, f1, u2, f2)
    ensures PairKept(d, s1, c1, s2, c2, u1, f1, u2, f2)
  {
    SameEndsTrans(s1, t1, u1);
    SameEndsTrans(s2, t2, u2);
  }

  /** The inter-route swap of nodes i and j, as interRouteSwapProcedure applies it, on values. */
  lemma InterSwapStep(d: Matrix, s1: seq<int>, c1: int, s2: seq<int>, c2: int, i: int, j: int)
    requires IsSquare(d) && NodesIn(s1, |d|) && NodesIn(s2, |d|)
    requires 1 <= i < |s1| - 1 && 1 <= j < |s2| - 1
    ensures NodesIn(s1[i := s2[j]], |d|) && NodesIn(s2[j := s1[i]], |d|)
    ensures SameEnds(s1, s1[i := s2[j]]) && SameEnds(s2, s2[j := s1[i]])
    ensures multiset(s1[i := s2[j]]) + multiset(s2[j := s1[i]]) == multiset(s1) + multiset(s2)
    ensures Gap(d, s1[i := s2[j]], InterSwapCost(d, s1, c1, s2, c2, i, j).0) == Gap(d, s1, c1)
    ensures Gap(d, s2[j := s1[i]], InterSwapCost(d, s1, c1, s2, c2, i, j).1) == Gap(d, s2, c2)
    ensures Total(InterSwapCost(d, s1, c1, s2, c2, i, j)) < c1 + c2 ==>
              PairKept(d, s1, c1, s2, c2, s1[i := s2[j]], InterSwapCost(d, s1, c1, s2, c2, i, j).0,
                       s2[j := s1[i]], InterSwapCost(d, s1, c1, s2, c2, i, j).1)
  {
    InterSwapCostExact(d, s1, c1, s2, c2, i, j);
    UpdateMultiset(s1, i, s2[j]);
    UpdateMultiset(s2, j, s1[i]);
    var m1, m2 := multiset(s1[i := s2[j]]), multiset(s2[j := s1[i]]);
    forall v ensures (m1 + m2)[v] == (multiset(s1) + multiset(s2))[v] {
      assert (m1 + multiset{s1[i]})[v] == (multiset(s1) + multiset{s2[j]})[v];
      assert (m2 + multiset{s2[j]})[v] == (multiset(s2) + multiset{s1[i]})[v];
    }
  }

  /** The intra-route reinsertion (i, j), as Displace applies it, on values. */
  lemma IntraReinsertionStep(d: Matrix, s: seq<int>, c: int, i: int, j: int)
    requires IsSquare(d) && NodesIn(s, |d|) && ReinsertionMove(|s|, i, j)
    ensures NodesIn(Displaced(s, i, j), |d|) && Rearranged(s, Displaced(s, i, j))
    ensures Gap(d, Displaced(s, i, j), ReinsertionCost(d, s, c, i, j)) == Gap(d, s, c)
  {
    ReinsertionCostExact(d, s, c, i, j);
    if i < j {
      DisplacedForward(s, i, j);
    } else {
      DisplacedBackward(s, i, j);
    }
  }

  /** The inter-route reinsertion (i, j), as `insert(j, remove(i))` applies it, on values. */
  lemma InterReinsertionStep(d: Matrix, s1: seq<int>, c1: int, s2: seq<int>, c2: int, i: int, j: int)
    requires IsSquare(d) && NodesIn(s1, |d|) && NodesIn(s2, |d|)
    requires 1 <= i < |s1| - 1 && 0 <= j < |s2| - 1
    ensures NodesIn(EraseAt(s1, i), |d|) && NodesIn(InsertAt(s2, j + 1, s1[i]), |d|)
    ensures SameEnds(s1, EraseAt(s1, i)) && SameEnds(s2, InsertAt(s2, j + 1, s1[i]))
    ensures multiset(EraseAt(s1, i)) + multiset(InsertAt(s2, j + 1, s1[i])) == multiset(s1) + multiset(s2)
    ensures Gap(d, EraseAt(s1, i), InterReinsertionCost(d, s1, c1, s2, c2, i, j).0) == Gap(d, s1, c1)
    ensures Gap(d, InsertAt(s2, j + 1, s1[i]), InterReinsertionCost(d, s1, c1, s2, c2, i, j).1) == Gap(d, s2, c2)
    ensures Total(InterReinsertionCost(d, s1, c1, s2, c2, i, j)) < c1 + c2 ==>
              PairKept(d, s1, c1, s2, c2, EraseAt(s1, i), InterReinsertionCost(d, s1, c1, s2, c2, i, j).0,
                       InsertAt(s2, j + 1, s1[i]), InterReinsertionCost(d, s1, c1, s2, c2, i, j).1)
  {
    InterReinsertionCostExact(d, s1, c1, s2, c2, i, j);
  }

  /**
   * The move of interRouteReinsertionProcedure: `second.insert(j,
   * first.remove(i))`, then both cached costs set from the evaluation.
   */
  method MoveAcross(d: Matrix, first: Route, second: Route, i: int, j: int, best: (int, int))
    requires IsSquare(d) && first != second && NodesIn(first.route, |d|) && NodesIn(second.route, |d|)
    requires 1 <= i < |first.route| - 1 && 0 <= j < |second.route| - 1
    requires best == InterReinsertionCost(d, first.route, first.cost, second.route, second.cost, i, j)
    requires Total(best) < first.cost + second.cost
    modifies first, second
    ensures first.route == EraseAt(old(first.route), i) && second.route == InsertAt(old(second.route), j + 1, old(first.route[i]))
    ensures first.cost == best.0 && second.cost == best.1
    ensures PairKept(d, old(first.route), old(first.cost), old(second.route), old(second.cost),
                     first.route, first.cost, second.route, second.cost)
  {
    InterReinsertionStep(d, first.route, first.cost, second.route, second.cost, i, j);
    var node := first.Remove(i);
    second.Insert(j, node);
    first.cost := best.0;
    second.cost := best.1;
  }

  class LocalSearch {
    var problem: Option<Problem>

    /** LocalSearch(): no problem set yet (problem_ = NULL). */
    constructor ()
      ensures problem == None
    {
      problem := None;
    }

    method SetProblem(p: Problem)
      modifies this
      ensures problem == Some(p)
    {
      problem := Some(p);
    }

    /** The distance matrix of the problem set. */
    function Distances(): Matrix
      reads this
      requires problem.Some?
    {
      problem.value.d
    }

    /** intraRouteSwapProcedure: swap two interior nodes while that lowers the cost. */
    method IntraRouteSwapProcedure(route: Route)
      requires problem.Some? && IsSquare(Distances()) && NonNegative(Distances())
      requires NodesIn(route.route, |Distances()|)
      modifies route
      ensures Descended(Distances(), old(route.route), old(route.cost), route.route, route.cost)
      ensures (route.route == old(route.route) && route.cost == old(route.cost)) || route.cost < old(route.cost)
      ensures IntraSwapOptimal(Distances(), route.route, route.cost, route.cost)
    {
      var d := Distances();
      var bestCost := route.GetCost();
      var firstIndex, secondIndex := -1, -1;
      var improved := true;
      while improved
        invariant Descended(d, old(route.route), old(route.cost), route.route, route.cost)
        invariant (route.route == old(route.route) && route.cost == old(route.cost)) || route.cost < old(route.cost)
        invariant bestCost == route.cost && firstIndex == -1 && secondIndex == -1
        invariant !improved ==> IntraSwapOptimal(d, route.route, route.cost, route.cost)
        decreases TrueCost(d, route.route), improved
      {
        improved := false;
        bestCost, firstIndex, secondIndex := BestIntraSwap(d, route.route, route.cost, bestCost);
        if firstIndex != -1 && secondIndex != -1 {
          SwapCostExact(d, route.route, route.cost, firstIndex, secondIndex);
          route.Swap(firstIndex, secondIndex);
          route.cost := bestCost;
          firstIndex, secondIndex := -1, -1;
          improved := true;
        }
      }
    }

    /** interRouteSwapProcedure: exchange an interior node of each route while that lowers their total cost. */
    method InterRouteSwapProcedure(first: Route, second: Route)
      requires problem.Some? && IsSquare(Distances()) && NonNegative(Distances())
      requires first != second && NodesIn(first.route, |Distances()|) && NodesIn(second.route, |Distances()|)
      modifies first, second
      ensures PairKept(Distances(), old(first.route), old(first.cost), old(second.route), old(second.cost),
                       first.route, first.cost, second.route, second.cost)
      ensures |first.route| == |old(first.route)| && |second.route| == |old(second.route)|
      ensures InterSwapOptimal(Distances(), first.route, first.cost, second.route, second.cost, first.cost + second.cost)
    {
      var d := Distances();
      ghost var s1, c1, s2, c2 := first.route, first.cost, second.route, second.cost;
      var cost1 := first.GetCost();
      var cost2 := second.GetCost();
      var bestCost := (cost1, cost2);
      var firstIndex, secondIndex := -1, -1;
      var improved := true;
      while improved
        invariant PairKept(d, s1, c1, s2, c2, first.route, first.cost, second.route, second.cost)
        invariant |first.route| == |s1| && |second.route| == |s2|
        invariant bestCost == (first.cost, second.cost) && firstIndex == -1 && secondIndex == -1
        invariant !improved ==> InterSwapOptimal(d, first.route, first.cost, second.route, second.cost, first.cost + second.cost)
        decreases TrueCost(d, first.route) + TrueCost(d, second.route), improved
      {
        improved := false;
        bestCost, firstIndex, secondIndex := BestInterSwap(d, first.route, first.cost, second.route, second.cost, bestCost);
        if firstIndex != -1 && secondIndex != -1 {
          InterSwapStep(d, first.route, first.cost, second.route, second.cost, firstIndex, secondIndex);
          PairKeptTrans(d, s1, c1, s2, c2, first.route, first.cost, second.route, second.cost,
                        first.route[firstIndex := second.route[secondIndex]], bestCost.0,
                        second.route[secondIndex := first.route[firstIndex]], bestCost.1);
          var temp := first.At(firstIndex);
          var other := second.At(secondIndex);
          first.Put(firstIndex, other);
          second.Put(secondIndex, temp);
          first.cost := bestCost.0;
          second.cost := bestCost.1;
          firstIndex, secondIndex := -1, -1;
          improved := true;
        }
      }
    }

    /** intraRouteReinsertionProcedure: move one interior node elsewhere in the route while that lowers the cost. */
    method IntraRouteReinsertionProcedure(route: Route)
      requires problem.Some? && IsSquare(Distances()) && NonNegative(Distances())
      requires NodesIn(route.route, |Distances()|)
      modifies route
      ensures Descended(Distances(), old(route.route), old(route.cost), route.route, route.cost)
      ensures (route.route == old(route.route) && route.cost == old(route.cost)) || route.cost < old(route.cost)
      ensures IntraReinsertionOptimal(Distances(), route.route, route.cost, route.cost)
    {
      var d := Distances();
      var bestCost := route.GetCost();
      var firstIndex, secondIndex := -1, -1;
      var improved := true;
      while improved
        invariant Descended(d, old(route.route), old(route.cost), route.route, route.cost)
        invariant (route.route == old(route.route) && route.cost == old(route.cost)) || route.cost < old(route.cost)
        invariant bestCost == route.cost && firstIndex == -1 && secondIndex == -1
        invariant !improved ==> IntraReinsertionOptimal(d, route.route, route.cost, route.cost)
        decreases TrueCost(d, route.route), improved
      {
        improved := false;
        bestCost, firstIndex, secondIndex := BestIntraReinsertion(d, route.route, route.cost, bestCost);
        if firstIndex != -1 && secondIndex != -1 {
          IntraReinsertionStep(d, route.route, route.cost, firstIndex, secondIndex);
          route.Displace(firstIndex, secondIndex);
          route.cost := bestCost;
          firstIndex, secondIndex := -1, -1;
          improved := true;
        }
      }
    }

    /**
     * interRouteReinsertionProcedure: move an interior node of the first
     * route into the second while that lowers their total cost, stopping as
     * soon as the first route has at most 4 nodes or the second has reached
     * the upper limit.
     */
    method InterRouteReinsertionProcedure(first: Route, second: Route)
      requires problem.Some? && problem.value.numVehicles != 0
      requires IsSquare(Distances()) && NonNegative(Distances())
      requires first != second && NodesIn(first.route, |Distances()|) && NodesIn(second.route, |Distances()|)
      modifies first, second
      ensures PairKept(Distances(), old(first.route), old(first.cost), old(second.route), old(second.cost),
                       first.route, first.cost, second.route, second.cost)
      ensures WithinLimits(old(first.route), old(first.cost), old(second.route), old(second.cost),
                           first.route, first.cost, second.route, second.cost, UpperLimit(problem.value))
      ensures |first.route| <= 4 || |second.route| >= UpperLimit(problem.value) ||
              InterReinsertionOptimal(Distances(), first.route, first.cost, second.route, second.cost, first.cost + second.cost)
    {
      var d := Distances();
      ghost var s1, c1, s2, c2 := first.route, first.cost, second.route, second.cost;
      var upperLimit := CDiv(problem.value.numClients, problem.value.numVehicles);
      upperLimit := upperLimit + CDiv(problem.value.numClients, 10);
      var cost1 := first.GetCost();
      var cost2 := second.GetCost();
      var bestCost := (cost1, cost2);
      var firstIndex, secondIndex := -1, -1;
      var improved := true;
      while improved
        invariant PairKept(d, s1, c1, s2, c2, first.route, first.cost, second.route, second.cost)
        invariant first.route == s1 || |first.route| >= 4
        invariant second.route == s2 || |second.route| <= upperLimit
        invariant |s1| <= 4 || |s2| >= upperLimit ==>
                    first.route == s1 && second.route == s2 && first.cost == c1 && second.cost == c2
        invariant bestCost == (first.cost, second.cost) && firstIndex == -1 && secondIndex == -1
        invariant !improved ==> InterReinsertionOptimal(d, first.route, first.cost, second.route, second.cost, first.cost + second.cost)
        decreases TrueCost(d, first.route) + TrueCost(d, second.route), improved
      {
        var size1 := first.GetSize();
        if size1 <= 4 {
          break;
        }
        var size2 := second.GetSize();
        if size2 >= upperLimit {
          break;
        }
        improved := false;
        bestCost, firstIndex, secondIndex := BestInterReinsertion(d, first.route, first.cost, second.route, second.cost, bestCost);
        if firstIndex != -1 && secondIndex != -1 {
          ghost var t1, e1, t2, e2 := first.route, first.cost, second.route, second.cost;
          MoveAcross(d, first, second, firstIndex, secondIndex, bestCost);
          PairKeptTrans(d, s1, c1, s2, c2, t1, e1, t2, e2, first.route, first.cost, second.route, second.cost);
          firstIndex, secondIndex := -1, -1;
          improved := true;
        }
      }
    }

    /** The for loop of swapIntraRoute: the swap descent on each route in turn. */
    method SwapEach(routes: seq<Route>)
      requires problem.Some? && IsSquare(Distances()) && NonNegative(Distances())
      requires Distinct(routes) && NodesAll(Nodes(routes), |Distances()|)
      modifies routes
      ensures forall k :: 0 <= k < |routes| ==>
                Descended(Distances(), old(routes[k].route), old(routes[k].cost), routes[k].route, routes[k].cost) &&
                IntraSwapOptimal(Distances(), routes[k].route, routes[k].cost, routes[k].cost)
    {
      var d := Distances();
      ghost var ns, cs := Nodes(routes), CachedCosts(routes);
      var i := 0;
      while i < |routes|
        invariant 0 <= i <= |routes|
        invariant forall k :: 0 <= k < i ==>
                    Descended(d, ns[k], cs[k], routes[k].route, routes[k].cost) &&
                    IntraSwapOptimal(d, routes[k].route, routes[k].cost, routes[k].cost)
        invariant forall k :: i <= k < |routes| ==> routes[k].route == ns[k] && routes[k].cost == cs[k]
      {
        IntraRouteSwapProcedure(routes[i]);
        i := i + 1;
      }
    }

    /** swapIntraRoute: the intra-route swap descent on a copy of every route. */
    method SwapIntraRoute(initial: Solution) returns (result: Solution)
      requires problem.Some? && IsSquare(Distances()) && NonNegative(Distances())
      requires NodesAll(Nodes(initial.routes), |Distances()|)
      ensures fresh(result) && result.Valid() && |result.routes| == |initial.routes| && result.cost == 0
      ensures forall k :: 0 <= k < |initial.routes| ==>
                Descended(Distances(), initial.routes[k].route, initial.routes[k].cost, result.routes[k].route, result.routes[k].cost) &&
                IntraSwapOptimal(Distances(), result.routes[k].route, result.routes[k].cost, result.routes[k].cost)
    {
      var rs := initial.GetRoutes();
      var routes := CopyRoutes(rs);
      SwapEach(routes);
      result := WithRoutes(routes);
    }

    /** The for loop of reinsertionIntraRoute: the reinsertion descent on each route in turn. */
    method ReinsertEach(routes: seq<Route>)
      requires problem.Some? && IsSquare(Distances()) && NonNegative(Distances())
      requires Distinct(routes) && NodesAll(Nodes(routes), |Distances()|)
      modifies routes
      ensures forall k :: 0 <= k < |routes| ==>
                Descended(Distances(), old(routes[k].route), old(routes[k].cost), routes[k].route, routes[k].cost) &&
                IntraReinsertionOptimal(Distances(), routes[k].route, routes[k].cost, routes[k].cost)
    {
      var d := Distances();
      ghost var ns, cs := Nodes(routes), CachedCosts(routes);
      var i := 0;
      while i < |routes|
        invariant 0 <= i <= |routes|
        invariant forall k :: 0 <= k < i ==>
                    Descended(d, ns[k], cs[k], routes[k].route, routes[k].cost) &&
                    IntraReinsertionOptimal(d, routes[k].route, routes[k].cost, routes[k].cost)
        invariant forall k :: i <= k < |routes| ==> routes[k].route == ns[k] && routes[k].cost == cs[k]
      {
        IntraRouteReinsertionProcedure(routes[i]);
        i := i + 1;
      }
    }

    /** reinsertionIntraRoute: the intra-route reinsertion descent on a copy of every route. */
    method ReinsertionIntraRoute(initial: Solution) returns (result: Solution)
      requires problem.Some? && IsSquare(Distances()) && NonNegative(Distances())
      requires NodesAll(Nodes(initial.routes), |Distances()|)
      ensures fresh(result) && result.Valid() && |result.routes| == |initial.routes| && result.cost == 0
      ensures forall k :: 0 <= k < |initial.routes| ==>
                Descended(Distances(), initial.routes[k].route, initial.routes[k].cost, result.routes[k].route, result.routes[k].cost) &&
                IntraReinsertionOptimal(Distances(), result.routes[k].route, result.routes[k].cost, result.routes[k].cost)
    {
      var rs := initial.GetRoutes();
      var routes := CopyRoutes(rs);
      ReinsertEach(routes);
      result := WithRoutes(routes);
    }

    /** One visit of the pair (i, j) in the loops of swapInterRoute. */
    method SwapPair(routes: seq<Route>, i: int, j: int, ghost ns: seq<seq<int>>, ghost cs: seq<int>)
      requires problem.Some? && IsSquare(Distances()) && NonNegative(Distances())
      requires Distinct(routes) && 0 <= i < j < |routes|
      requires Kept(Distances(), ns, cs, Nodes(routes), CachedCosts(routes), true)
      modifies routes[i], routes[j]
      ensures Kept(Distances(), ns, cs, Nodes(routes), CachedCosts(routes), true)
    {
      var d := Distances();
      ghost var before, costs := Nodes(routes), CachedCosts(routes);
      var first, second := routes[i], routes[j];
      InterRouteSwapProcedure(first, second);
      ghost var t1, e1, t2, e2 := first.route, first.cost, second.route, second.cost;
      assert PairKept(d, before[i], costs[i], before[j], costs[j], t1, e1, t2, e2);
      forall k | 0 <= k < |routes| && k != i && k != j
        ensures routes[k].route == before[k] && routes[k].cost == costs[k]
      {
        assert routes[k] != routes[i] && routes[k] != routes[j];
      }
      PairNodes(routes, before, costs, i, j);
      PairStep(d, ns, cs, before, costs, i, j, t1, e1, t2, e2, true);
    }

    /** The nested for loops of swapInterRoute: the swap descent on every pair i < j. */
    method SwapPairs(routes: seq<Route>)
      requires problem.Some? && IsSquare(Distances()) && NonNegative(Distances())
      requires Distinct(routes) && NodesAll(Nodes(routes), |Distances()|)
      modifies routes
      ensures Kept(Distances(), old(Nodes(routes)), old(CachedCosts(routes)), Nodes(routes), CachedCosts(routes), true)
    {
      var d := Distances();
      ghost var ns, cs := Nodes(routes), CachedCosts(routes);
      var i := 0;
      while i < |routes|
        invariant 0 <= i <= |routes| && Kept(d, ns, cs, Nodes(routes), CachedCosts(routes), true)
      {
        var j := i + 1;
        while j < |routes|
          invariant i + 1 <= j <= |routes| && Kept(d, ns, cs, Nodes(routes), CachedCosts(routes), true)
        {
          SwapPair(routes, i, j, ns, cs);
          j := j + 1;
        }
        i := i + 1;
      }
    }

    /** swapInterRoute: the inter-route swap descent on every pair i < j of copied routes. */
    method SwapInterRoute(initial: Solution) returns (result: Solution)
      requires problem.Some? && IsSquare(Distances()) && NonNegative(Distances())
      requires NodesAll(Nodes(initial.routes), |Distances()|)
      ensures fresh(result) && result.Valid() && result.cost == 0
      ensures Kept(Distances(), old(Nodes(initial.routes)), old(CachedCosts(initial.routes)), Nodes(result.routes), CachedCosts(result.routes), true)
    {
      var rs := initial.GetRoutes();
      var routes := CopyRoutes(rs);
      SwapPairs(routes);
      result := WithRoutes(routes);
    }

    /** One visit of the pair (i, j) in the loops of reinsertionInterRoute. */
    method ReinsertPair(routes: seq<Route>, i: int, j: int, ghost ns: seq<seq<int>>, ghost cs: seq<int>)
      requires problem.Some? && problem.value.numVehicles != 0
      requires IsSquare(Distances()) && NonNegative(Distances())
      requires Distinct(routes) && 0 <= i < j < |routes|
      requires Kept(Distances(), ns, cs, Nodes(routes), CachedCosts(routes), false)
      modifies routes[i], routes[j]
      ensures Kept(Distances(), ns, cs, Nodes(routes), CachedCosts(routes), false)
    {
      var d := Distances();
      ghost var before, costs := Nodes(routes), CachedCosts(routes);
      var first, second := routes[i], routes[j];
      InterRouteReinsertionProcedure(first, second);
      ghost var t1, e1, t2, e2 := first.route, first.cost, second.route, second.cost;
      assert PairKept(d, before[i], costs[i], before[j], costs[j], t1, e1, t2, e2);
      forall k | 0 <= k < |routes| && k != i && k != j
        ensures routes[k].route == before[k] && routes[k].cost == costs[k]
      {
        assert routes[k] != routes[i] && routes[k] != routes[j];
      }
      PairNodes(routes, before, costs, i, j);
      PairStep(d, ns, cs, before, costs, i, j, t1, e1, t2, e2, false);
    }

    /** The nested for loops of reinsertionInterRoute: the reinsertion descent on every pair i < j. */
    method ReinsertPairs(routes: seq<Route>)
      requires problem.Some? && problem.value.numVehicles != 0
      requires IsSquare(Distances()) && NonNegative(Distances())
      requires Distinct(routes) && NodesAll(Nodes(routes), |Distances()|)
      modifies routes
      ensures Kept(Distances(), old(Nodes(routes)), old(CachedCosts(routes)), Nodes(routes), CachedCosts(routes), false)
    {
      var d := Distances();
      ghost var ns, cs := Nodes(routes), CachedCosts(routes);
      var i := 0;
      while i < |routes|
        invariant 0 <= i <= |routes| && Kept(d, ns, cs, Nodes(routes), CachedCosts(routes), false)
      {
        var j := i + 1;
        while j < |routes|
          invariant i + 1 <= j <= |routes| && Kept(d, ns, cs, Nodes(routes), CachedCosts(routes), false)
        {
          ReinsertPair(routes, i, j, ns, cs);
          j := j + 1;
        }
        i := i + 1;
      }
    }

    /** reinsertionInterRoute: the inter-route reinsertion descent on every pair i < j of copied routes. */
    method ReinsertionInterRoute(initial: Solution) returns (result: Solution)
      requires problem.Some? && problem.value.numVehicles != 0
      requires IsSquare(Distances()) && NonNegative(Distances())
      requires NodesAll(Nodes(initial.routes), |Distances()|)
      ensures fresh(result) && result.Valid() && result.cost == 0
      ensures Kept(Distances(), old(Nodes(initial.routes)), old(CachedCosts(initial.routes)), Nodes(result.routes), CachedCosts(result.routes), false)
    {
      var rs := initial.GetRoutes();
      var routes := CopyRoutes(rs);
      ReinsertPairs(routes);
      result := WithRoutes(routes);
    }

    /** run: the only neighbourhood it reaches is the intra-route swap. */
    method Run(initial: Solution) returns (result: Solution)
      requires problem.Some? && IsSquare(Distances()) && NonNegative(Distances())
      requires NodesAll(Nodes(initial.routes), |Distances()|)
      ensures fresh(result) && result.Valid() && |result.routes| == |initial.routes| && result.cost == 0
      ensures forall k :: 0 <= k < |initial.routes| ==>
                Descended(Distances(), initial.routes[k].route, initial.routes[k].cost, result.routes[k].route, result.routes[k].cost) &&
                IntraSwapOptimal(Distances(), result.routes[k].route, result.routes[k].cost, result.routes[k].cost)
    {
      result := SwapIntraRoute(initial);
    }
  }

  /** After the pair (i, j) is visited, the routes hold the two new routes in place of the old ones. */
  lemma PairNodes(rs: seq<Route>, before: seq<seq<int>>, costs: seq<int>, i: int, j: int)
    requires |before| == |rs| && |costs| == |rs| && 0 <= i < j < |rs|
    requires forall k :: 0 <= k < |rs| && k != i && k != j ==> rs[k].route == before[k] && rs[k].cost == costs[k]
    ensures Nodes(rs) == before[i := rs[i].route][j := rs[j].route]
    ensures CachedCosts(rs) == costs[i := rs[i].cost][j := rs[j].cost]
  {
    var ns, es := Nodes(rs), before[i := rs[i].route][j := rs[j].route];
    forall k | 0 <= k < |rs| ensures ns[k] == es[k] {
      if k != i && k != j {
        assert es[k] == before[k];
      }
    }
    var cs, fs := CachedCosts(rs), costs[i := rs[i].cost][j := rs[j].cost];
    forall k | 0 <= k < |rs| ensures cs[k] == fs[k] {
      if k != i && k != j {
        assert fs[k] == costs[k];
      }
    }
  }

  /**
   * One pair step of an inter-route wrapper keeps `Kept`: the routes at
   * `i` and `j` become `a` and `b`, which trade nodes only between
   * themselves, keep their ends and gaps, and do not raise their total.
   */
  lemma PairStep(d: Matrix, ns: seq<seq<int>>, cs: seq<int>, fs: seq<seq<int>>, es: seq<int>, i: int, j: int,
                 a: seq<int>, ca: int, b: seq<int>, cb: int, sameSize: bool)
    requires Kept(d, ns, cs, fs, es, sameSize) && 0 <= i < j < |fs|
    requires PairKept(d, fs[i], es[i], fs[j], es[j], a, ca, b, cb)
    requires sameSize ==> |a| == |fs[i]| && |b| == |fs[j]|
    ensures Kept(d, ns, cs, fs[i := a][j := b], es[i := ca][j := cb], sameSize)
  {
    var gs, ds := fs[i := a][j := b], es[i := ca][j := cb];
    forall k | 0 <= k < |gs|
      ensures NodesIn(gs[k], |d|) && SameEnds(ns[k], gs[k]) && (sameSize ==> |gs[k]| == |ns[k]|)
      ensures Gap(d, gs[k], ds[k]) == Gap(d, ns[k], cs[k])
    {
      if k != i && k != j {
        assert gs[k] == fs[k] && ds[k] == es[k];
      }
    }
    ConcatPairUpdate(fs, i, j, a, b);
    SumPairUpdate(es, i, j, ca, cb);
  }

}
