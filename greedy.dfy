/**
 * What the round-robin nearest-neighbour construction of greedySolver
 * produces, stated on node sequences: every route starts and ends at the
 * initial node, every other node is visited exactly once, the routes take
 * turns (so their lengths differ by at most one), and each node a route
 * receives is the nearest node not yet visited at the moment of its turn,
 * the lowest id winning ties, as findMinNotVisited chooses it.
 */
module Greedy {
  import opened Problems
  import opened Costs
  import opened SeqUtil

  /** allClientsVisited: no entry of `v` is false. */
  predicate AllTrue(v: seq<bool>) {
    forall k :: 0 <= k < |v| ==> v[k]
  }

  /** The number of nodes still to visit. */
  function Unvisited(v: seq<bool>): nat {
    if v == [] then 0 else (if v[0] then 0 else 1) + Unvisited(v[1..])
  }

  /** The nodes marked visited. */
  ghost function VisitedSet(v: seq<bool>): set<int> {
    set x | 0 <= x < |v| && v[x]
  }

  /** The visited vector of `n` nodes in which exactly the nodes of `s` are marked. */
  ghost function Marked(n: nat, s: set<int>): (v: seq<bool>)
    ensures |v| == n && forall x :: 0 <= x < n ==> (v[x] <==> x in s)
  {
    seq(n, x => x in s)
  }

  /** A node findMinNotVisited may consider: not visited and not the current node. */
  predicate Eligible(visited: seq<bool>, current: int, x: int) {
    0 <= x < |visited| && !visited[x] && x != current
  }

  /**
   * `x` is what findMinNotVisited returns on the row `row` of the current node:
   * an eligible node strictly below INT_MAX, no farther than any other
   * eligible node and strictly nearer than every eligible node of lower id.
   */
  ghost predicate IsNearest(row: seq<int>, visited: seq<bool>, current: int, x: int)
    requires |visited| <= |row|
  {
    Eligible(visited, current, x) && row[x] < INT_MAX
    && (forall y :: Eligible(visited, current, y) ==> row[x] <= row[y])
    && (forall y :: Eligible(visited, current, y) && y < x ==> row[x] < row[y])
  }

  /** No eligible node is reachable below INT_MAX: findMinNotVisited answers (-1, INT_MAX). */
  ghost predicate NoneBelow(row: seq<int>, visited: seq<bool>, current: int)
    requires |visited| <= |row|
  {
    forall y :: Eligible(visited, current, y) ==> row[y] >= INT_MAX
  }

  function Last(s: seq<int>): int
    requires |s| >= 1
  {
    s[|s| - 1]
  }

  /** The nodes of `s` between the first one and the last `e` ones. */
  function Middle(s: seq<int>, e: nat): seq<int> {
    if |s| >= 1 + e then s[1..|s| - e] else []
  }

  /** The middles of all routes, in order. */
  function Inner(ns: seq<seq<int>>, e: nat): (r: seq<seq<int>>)
    ensures |r| == |ns| && forall b :: 0 <= b < |ns| ==> r[b] == Middle(ns[b], e)
  {
    if ns == [] then [] else [Middle(ns[0], e)] + Inner(ns[1..], e)
  }

  /** Each route is under way: it starts at `init` and all its nodes are in range. */
  predicate Started(d: Matrix, init: int, ns: seq<seq<int>>) {
    IsSquare(d) && 0 <= init < |d| && NodesAll(ns, |d|)
    && forall b :: 0 <= b < |ns| ==> |ns[b]| >= 1 && ns[b][0] == init
  }

  /** Position `p` of route `b` was filled before position `q` of route `a`. */
  predicate RoundRobinBefore(b: int, p: int, a: int, q: int) {
    p < q || (p == q && b < a)
  }

  /** The first `i` routes have had their turn of the current round, which brought them to `L + 1` nodes. */
  predicate RoundAt(ns: seq<seq<int>>, i: int, L: int) {
    0 <= i <= |ns| && forall b :: 0 <= b < |ns| ==> |ns[b]| == (if b < i then L + 1 else L)
  }

  /** The nodes chosen so far, ignoring the first node and the last `e` nodes of each route. */
  ghost function Present(ns: seq<seq<int>>, e: nat): set<int> {
    set b, p | 0 <= b < |ns| && 1 <= p < |ns[b]| - e :: ns[b][p]
  }

  /** The nodes chosen before position `q` of route `a` was filled. */
  ghost function ChosenBefore(ns: seq<seq<int>>, a: int, q: int, e: nat): set<int> {
    set b, p | 0 <= b < |ns| && 1 <= p < |ns[b]| - e && RoundRobinBefore(b, p, a, q) :: ns[b][p]
  }

  /**
   * Every chosen node (the last `e` nodes of each route aside) is the
   * nearest one from its predecessor among the nodes unvisited at its turn.
   */
  ghost predicate NearestOrder(d: Matrix, ns: seq<seq<int>>, init: int, e: nat)
    requires IsSquare(d) && NodesAll(ns, |d|)
  {
    forall a, q :: 0 <= a < |ns| && 1 <= q < |ns[a]| - e ==>
      IsNearest(d[ns[a][q - 1]], Marked(|d|, {init} + ChosenBefore(ns, a, q, e)), ns[a][q - 1], ns[a][q])
  }

  /** The loop invariant of greedySolver's while loop, on the routes' node sequences. */
  ghost predicate Building(d: Matrix, init: int, visited: seq<bool>, ns: seq<seq<int>>) {
    Started(d, init, ns) && |visited| == |d| && visited[init]
    && (forall x :: 0 <= x < |d| ==> (visited[x] <==> x == init || x in Present(ns, 0)))
    && multiset(Concat(Inner(ns, 0))) == multiset(VisitedSet(visited) - {init})
    && NearestOrder(d, ns, init, 0)
  }

  /** Finished routes: at least two nodes, from `init` back to `init`. */
  predicate Closed(d: Matrix, init: int, fs: seq<seq<int>>) {
    IsSquare(d) && 0 <= init < |d| && NodesAll(fs, |d|)
    && forall b :: 0 <= b < |fs| ==> |fs[b]| >= 2 && fs[b][0] == init && Last(fs[b]) == init
  }

  /** Between their endpoints the routes hold every node except `init`, each exactly once. */
  ghost predicate Covers(d: Matrix, init: int, fs: seq<seq<int>>) {
    multiset(Concat(Inner(fs, 1))) == multiset(OtherNodes(|d|, init))
  }

  /** The nodes of the matrix other than `init`. */
  ghost function OtherNodes(n: nat, init: int): (r: set<int>)
    ensures forall x :: x in r <==> 0 <= x < n && x != init
  {
    VisitedSet(seq(n, x => x != init))
  }

  /** A route is never shorter than a later one nor more than one node longer. */
  predicate Balanced(fs: seq<seq<int>>) {
    forall a, b :: 0 <= a < b < |fs| ==> |fs[b]| <= |fs[a]| <= |fs[b]| + 1
  }

  /** Every route's cached cost is its closed length. */
  predicate CostsMatch(d: Matrix, fs: seq<seq<int>>, cs: seq<int>)
    requires IsSquare(d) && NodesAll(fs, |d|)
  {
    |cs| == |fs| && forall b :: 0 <= b < |fs| ==> cs[b] == TrueCost(d, fs[b])
  }

  // ---------------------------------------------------------------------
  // Lemmas: the invariant holds initially, each turn keeps it, a turn is
  // always possible while a node is unvisited, and closing the routes
  // turns it into the specification above.
  // ---------------------------------------------------------------------

  lemma {:induction false} MarkDecreases(v: seq<bool>, x: int)
    requires 0 <= x < |v| && !v[x]
    ensures Unvisited(v[x := true]) == Unvisited(v) - 1
  {
    if x == 0 {
      assert v[x := true][1..] == v[1..];
    } else {
      assert v[x := true][1..] == v[1..][x - 1 := true];
      MarkDecreases(v[1..], x - 1);
    }
  }

  /** Before the first turn: every route is `[init]` and only `init` is visited. */
  lemma BuildingStart(d: Matrix, init: int, m: nat, ns: seq<seq<int>>)
    requires IsSquare(d) && 0 <= init < |d|
    requires |ns| == m && forall b :: 0 <= b < m ==> ns[b] == [init]
    ensures Building(d, init, Marked(|d|, {init}), ns) && RoundAt(ns, 0, 1)
  {
    var visited := Marked(|d|, {init});
    assert Present(ns, 0) == {};
    assert VisitedSet(visited) == {init};
    EmptyConcat(Inner(ns, 0));
  }

  lemma {:induction false} EmptyConcat(ss: seq<seq<int>>)
    requires forall b :: 0 <= b < |ss| ==> ss[b] == []
    ensures Concat(ss) == []
  {
    if ss != [] {
      EmptyConcat(ss[1..]);
    }
  }

  /** The last node of every route under way is visited. */
  lemma LastVisited(d: Matrix, init: int, visited: seq<bool>, ns: seq<seq<int>>, b: int)
    requires Building(d, init, visited, ns) && 0 <= b < |ns|
    ensures visited[Last(ns[b])]
  {
    if |ns[b]| > 1 {
      var p := |ns[b]| - 1;
      assert ns[b][p] in Present(ns, 0);
    }
  }

  /**
   * While some node is unvisited, the turn of route `b` finds a node: the
   * unvisited node differs from the route's visited last node, and
   * distances between different nodes are below INT_MAX.
   */
  lemma TurnFindsNode(d: Matrix, init: int, visited: seq<bool>, ns: seq<seq<int>>, b: int)
    requires Building(d, init, visited, ns) && 0 <= b < |ns| && BelowIntMax(d)
    requires !AllTrue(visited)
    ensures !NoneBelow(d[Last(ns[b])], visited, Last(ns[b]))
  {
    LastVisited(d, init, visited, ns, b);
    var y :| 0 <= y < |visited| && !visited[y];
    assert Eligible(visited, Last(ns[b]), y);
  }

  /** One turn of route `i`: it receives the nearest unvisited node `v`, which is marked. */
  lemma BuildingStep(d: Matrix, init: int, visited: seq<bool>, ns: seq<seq<int>>, i: int, L: int, v: int)
    requires Building(d, init, visited, ns) && RoundAt(ns, i, L) && 0 <= i < |ns|
    requires IsNearest(d[Last(ns[i])], visited, Last(ns[i]), v)
    ensures Building(d, init, visited[v := true], ns[i := ns[i] + [v]])
    ensures RoundAt(ns[i := ns[i] + [v]], i + 1, L)
    ensures Unvisited(visited[v := true]) == Unvisited(visited) - 1
  {
    var ns' := ns[i := ns[i] + [v]];
    var visited' := visited[v := true];
    MarkDecreases(visited, v);
    assert Started(d, init, ns');
    StepPresent(ns, i, v);
    forall x | 0 <= x < |d| ensures visited'[x] <==> x == init || x in Present(ns', 0) {
      assert visited[x] <==> x == init || x in Present(ns, 0);
    }
    StepCoverage(d, init, visited, ns, i, v);
    StepNearest(d, init, visited, ns, i, L, v);
  }

  lemma StepPresent(ns: seq<seq<int>>, i: int, v: int)
    requires 0 <= i < |ns| && |ns[i]| >= 1
    ensures Present(ns[i := ns[i] + [v]], 0) == Present(ns, 0) + {v}
  {
    var ns' := ns[i := ns[i] + [v]];
    forall x | x in Present(ns', 0) ensures x in Present(ns, 0) + {v} {
      var b, p :| 0 <= b < |ns'| && 1 <= p < |ns'[b]| && ns'[b][p] == x;
      if b != i || p < |ns[i]| {
        assert ns[b][p] == x;
      }
    }
    forall x | x in Present(ns, 0) + {v} ensures x in Present(ns', 0) {
      if x == v {
        assert ns'[i][|ns[i]|] == v;
      } else {
        var b, p :| 0 <= b < |ns| && 1 <= p < |ns[b]| && ns[b][p] == x;
        assert ns'[b][p] == x;
      }
    }
  }

  lemma StepCoverage(d: Matrix, init: int, visited: seq<bool>, ns: seq<seq<int>>, i: int, v: int)
    requires Building(d, init, visited, ns) && 0 <= i < |ns|
    requires 0 <= v < |visited| && !visited[v]
    ensures multiset(Concat(Inner(ns[i := ns[i] + [v]], 0))) == multiset(VisitedSet(visited[v := true]) - {init})
  {
    var ns' := ns[i := ns[i] + [v]];
    var old_ := Middle(ns[i], 0);
    var new_ := Middle(ns'[i], 0);
    assert new_ == old_ + [v];
    assert Inner(ns', 0) == Inner(ns, 0)[i := new_];
    ConcatUpdate(Inner(ns, 0), i, new_);
    var a := VisitedSet(visited) - {init};
    assert VisitedSet(visited[v := true]) - {init} == a + {v};
    assert v !in a;
    assert multiset(a + {v}) == multiset(a) + multiset{v};
    MultisetCancelBy(multiset(Concat(Inner(ns', 0))), multiset(Concat(Inner(ns, 0))) + multiset{v}, multiset(old_));
  }

  lemma MultisetCancelBy(a: multiset<int>, b: multiset<int>, c: multiset<int>)
    requires a + c == b + c
    ensures a == b
  {
    forall x ensures a[x] == b[x] {
      assert (a + c)[x] == (b + c)[x];
    }
  }

  lemma StepNearest(d: Matrix, init: int, visited: seq<bool>, ns: seq<seq<int>>, i: int, L: int, v: int)
    requires Building(d, init, visited, ns) && RoundAt(ns, i, L) && 0 <= i < |ns|
    requires IsNearest(d[Last(ns[i])], visited, Last(ns[i]), v)
    ensures NodesAll(ns[i := ns[i] + [v]], |d|)
    ensures NearestOrder(d, ns[i := ns[i] + [v]], init, 0)
  {
    var ns' := ns[i := ns[i] + [v]];
    assert NodesAll(ns', |d|);
    NewTurnSees(ns, i, L, v);
    assert Marked(|d|, {init} + Present(ns, 0)) == visited;
    forall a, q | 0 <= a < |ns'| && 1 <= q < |ns'[a]|
      ensures IsNearest(d[ns'[a][q - 1]], Marked(|d|, {init} + ChosenBefore(ns', a, q, 0)), ns'[a][q - 1], ns'[a][q])
    {
      if a != i || q != L {
        OldTurnSees(ns, i, L, v, a, q);
      }
    }
  }

  /** The new turn sees exactly the nodes chosen so far. */
  lemma NewTurnSees(ns: seq<seq<int>>, i: int, L: int, v: int)
    requires RoundAt(ns, i, L) && 0 <= i < |ns|
    ensures ChosenBefore(ns[i := ns[i] + [v]], i, L, 0) == Present(ns, 0)
  {
    var ns' := ns[i := ns[i] + [v]];
    forall x | x in ChosenBefore(ns', i, L, 0) ensures x in Present(ns, 0) {
      var b, p :| 0 <= b < |ns'| && 1 <= p < |ns'[b]| && RoundRobinBefore(b, p, i, L) && ns'[b][p] == x;
      assert ns[b][p] == x;
    }
    forall x | x in Present(ns, 0) ensures x in ChosenBefore(ns', i, L, 0) {
      var b, p :| 0 <= b < |ns| && 1 <= p < |ns[b]| && ns[b][p] == x;
      assert ns'[b][p] == x && RoundRobinBefore(b, p, i, L);
    }
  }

  /** An earlier turn sees the same nodes after the new one is added. */
  lemma OldTurnSees(ns: seq<seq<int>>, i: int, L: int, v: int, a: int, q: int)
    requires RoundAt(ns, i, L) && 0 <= i < |ns|
    requires 0 <= a < |ns| && 1 <= q < |ns[i := ns[i] + [v]][a]| && (a != i || q != L)
    ensures q < |ns[a]| && ns[i := ns[i] + [v]][a][..q + 1] == ns[a][..q + 1]
    ensures ChosenBefore(ns[i := ns[i] + [v]], a, q, 0) == ChosenBefore(ns, a, q, 0)
  {
    var ns' := ns[i := ns[i] + [v]];
    forall x | x in ChosenBefore(ns', a, q, 0) ensures x in ChosenBefore(ns, a, q, 0) {
      var b, p :| 0 <= b < |ns'| && 1 <= p < |ns'[b]| && RoundRobinBefore(b, p, a, q) && ns'[b][p] == x;
      assert ns[b][p] == x;
    }
    forall x | x in ChosenBefore(ns, a, q, 0) ensures x in ChosenBefore(ns', a, q, 0) {
      var b, p :| 0 <= b < |ns| && 1 <= p < |ns[b]| && RoundRobinBefore(b, p, a, q) && ns[b][p] == x;
      assert ns'[b][p] == x;
    }
  }

  /** A completed round is the start of the next one. */
  lemma RoundWraps(ns: seq<seq<int>>, L: int)
    requires RoundAt(ns, |ns|, L)
    ensures RoundAt(ns, 0, L + 1)
  {
  }

  /**
   * Closing every route with `init` once all nodes are visited yields the
   * specification: closed, covering, balanced and in nearest order.
   */
  lemma BuildingClose(d: Matrix, init: int, visited: seq<bool>, ns: seq<seq<int>>, j: int, L: int, fs: seq<seq<int>>)
    requires Building(d, init, visited, ns) && AllTrue(visited) && RoundAt(ns, j, L)
    requires |fs| == |ns| && forall b :: 0 <= b < |ns| ==> fs[b] == ns[b] + [init]
    ensures Closed(d, init, fs) && Covers(d, init, fs) && Balanced(fs)
    ensures NearestOrder(d, fs, init, 1)
  {
    CloseShape(d, init, ns, j, L, fs);
    CloseCovers(d, init, visited, ns, fs);
    CloseNearest(d, init, visited, ns, fs);
  }

  /** Appending `init` closes every started route and keeps the lengths balanced. */
  lemma CloseShape(d: Matrix, init: int, ns: seq<seq<int>>, j: int, L: int, fs: seq<seq<int>>)
    requires Started(d, init, ns) && RoundAt(ns, j, L)
    requires |fs| == |ns| && forall b :: 0 <= b < |ns| ==> fs[b] == ns[b] + [init]
    ensures Closed(d, init, fs) && Balanced(fs)
  {
    forall b | 0 <= b < |fs| ensures NodesIn(fs[b], |d|) && |fs[b]| >= 2 && fs[b][0] == init && Last(fs[b]) == init {
      assert fs[b] == ns[b] + [init];
    }
  }

  lemma CloseCovers(d: Matrix, init: int, visited: seq<bool>, ns: seq<seq<int>>, fs: seq<seq<int>>)
    requires |visited| == |d| && AllTrue(visited)
    requires multiset(Concat(Inner(ns, 0))) == multiset(VisitedSet(visited) - {init})
    requires |fs| == |ns| && forall b :: 0 <= b < |ns| ==> fs[b] == ns[b] + [init]
    ensures Covers(d, init, fs)
  {
    CloseInner(init, ns, fs);
    AllVisitedOthers(visited, init);
  }

  /** Once every node is visited, the visited nodes other than `init` are all the others. */
  lemma AllVisitedOthers(visited: seq<bool>, init: int)
    requires AllTrue(visited)
    ensures VisitedSet(visited) - {init} == OtherNodes(|visited|, init)
  {
    forall x | x in OtherNodes(|visited|, init) ensures x in VisitedSet(visited) - {init} {
      assert visited[x];
    }
  }

  /** Appending `init` to every route leaves the middles as they were. */
  lemma MiddleClosed(s: seq<int>, init: int)
    ensures Middle(s + [init], 1) == Middle(s, 0)
  {
    if |s| >= 1 {
      assert (s + [init])[1..|s|] == s[1..];
    }
  }

  lemma CloseInner(init: int, ns: seq<seq<int>>, fs: seq<seq<int>>)
    requires |fs| == |ns| && forall b :: 0 <= b < |ns| ==> fs[b] == ns[b] + [init]
    ensures Inner(fs, 1) == Inner(ns, 0)
  {
    var r1, r2 := Inner(fs, 1), Inner(ns, 0);
    forall b | 0 <= b < |ns| ensures r1[b] == r2[b] {
      MiddleClosed(ns[b], init);
    }
    assert r1 == r2;
  }

  lemma CloseNearest(d: Matrix, init: int, visited: seq<bool>, ns: seq<seq<int>>, fs: seq<seq<int>>)
    requires Building(d, init, visited, ns)
    requires |fs| == |ns| && forall b :: 0 <= b < |ns| ==> fs[b] == ns[b] + [init]
    ensures NodesAll(fs, |d|) && NearestOrder(d, fs, init, 1)
  {
    assert NodesAll(fs, |d|);
    forall a, q | 0 <= a < |fs| && 1 <= q < |fs[a]| - 1
      ensures IsNearest(d[fs[a][q - 1]], Marked(|d|, {init} + ChosenBefore(fs, a, q, 1)), fs[a][q - 1], fs[a][q])
    {
      ClosedTurnSees(ns, init, fs, a, q);
      assert fs[a][q - 1] == ns[a][q - 1] && fs[a][q] == ns[a][q];
    }
  }

  lemma ClosedTurnSees(ns: seq<seq<int>>, init: int, fs: seq<seq<int>>, a: int, q: int)
    requires |fs| == |ns| && forall b :: 0 <= b < |ns| ==> fs[b] == ns[b] + [init]
    requires 0 <= a < |ns|
    ensures ChosenBefore(fs, a, q, 1) == ChosenBefore(ns, a, q, 0)
  {
    forall x | x in ChosenBefore(fs, a, q, 1) ensures x in ChosenBefore(ns, a, q, 0) {
      var b, p :| 0 <= b < |fs| && 1 <= p < |fs[b]| - 1 && RoundRobinBefore(b, p, a, q) && fs[b][p] == x;
      assert ns[b][p] == x;
    }
    forall x | x in ChosenBefore(ns, a, q, 0) ensures x in ChosenBefore(fs, a, q, 1) {
      var b, p :| 0 <= b < |ns| && 1 <= p < |ns[b]| && RoundRobinBefore(b, p, a, q) && ns[b][p] == x;
      assert fs[b][p] == x;
    }
  }

  /** With a node other than `init`, the first route visits at least one node. */
  lemma FirstRouteVisits(d: Matrix, init: int, fs: seq<seq<int>>)
    requires Closed(d, init, fs) && Covers(d, init, fs) && Balanced(fs)
    requires |fs| >= 1 && |d| >= 2
    ensures |fs[0]| >= 3
  {
    var x := if init == 0 then 1 else 0;
    assert x in OtherNodes(|d|, init);
    ConcatMember(Inner(fs, 1), x);
    var b, p :| 0 <= b < |fs| && 0 <= p < |Inner(fs, 1)[b]| && Inner(fs, 1)[b][p] == x;
    assert |fs[b]| >= 3;
    if b != 0 {
      assert |fs[b]| <= |fs[0]|;
    }
  }

  /**
   * The first node greedySolver chooses, the second node of the first route,
   * is the node nearest to `init` among all the others, the lowest id on
   * ties, whenever there is another node at all.
   */
  lemma FirstChoice(d: Matrix, init: int, fs: seq<seq<int>>)
    requires Closed(d, init, fs) && Covers(d, init, fs) && Balanced(fs)
    requires NearestOrder(d, fs, init, 1)
    requires |fs| >= 1 && |d| >= 2
    ensures |fs[0]| >= 3 && fs[0][1] != init && d[init][fs[0][1]] < INT_MAX
    ensures forall y :: 0 <= y < |d| && y != init ==> d[init][fs[0][1]] <= d[init][y]
    ensures forall y :: 0 <= y < fs[0][1] && y != init ==> d[init][fs[0][1]] < d[init][y]
  {
    FirstRouteVisits(d, init, fs);
    assert ChosenBefore(fs, 0, 1, 1) == {};
    var visited := Marked(|d|, {init});
    assert IsNearest(d[init], visited, init, fs[0][1]);
    forall y | 0 <= y < |d| && y != init ensures Eligible(visited, init, y) {
    }
  }
}
