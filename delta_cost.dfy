/**
 * The four O(1) move evaluations of src/local_search.cc.  Each receives its
 * routes by value (their nodes `s` and cached cost `cost`) and answers what
 * the cached cost would become after the move; the lemmas show that the
 * answer changes the cost by exactly the change of TrueCost the move causes.
 */
module DeltaCosts {
  import opened Problems
  import opened Costs
  import opened Routes

  /**
   * swapCost(i, j, route): the cost after exchanging the interior nodes at
   * `i` and `j`, with a separate formula for neighbours (j == i + 1).
   */
  function SwapCost(d: Matrix, s: seq<int>, cost: int, i: int, j: int): (c: int)
    requires IsSquare(d) && NodesIn(s, |d|)
    requires 1 <= i < |s| - 1 && 1 <= j < |s| - 1
  {
    var x, xp, xn := s[i], s[i - 1], s[i + 1];
    var y, yp, yn := s[j], s[j - 1], s[j + 1];
    var common := cost - d[xp][x] - d[x][xn] - d[y][yn] + d[xp][y] + d[x][yn];
    if j - i == 1 then common + d[y][x]
    else common - d[yp][y] + d[yp][x] + d[y][xn]
  }

  /**
   * swapCost(i, j, first_route, second_route): the two costs after
   * exchanging the interior node `i` of the first route with the interior
   * node `j` of the second.
   */
  function InterSwapCost(d: Matrix, s1: seq<int>, c1: int, s2: seq<int>, c2: int, i: int, j: int): (r: (int, int))
    requires IsSquare(d) && NodesIn(s1, |d|) && NodesIn(s2, |d|)
    requires 1 <= i < |s1| - 1 && 1 <= j < |s2| - 1
  {
    var x, xp, xn := s1[i], s1[i - 1], s1[i + 1];
    var y, yp, yn := s2[j], s2[j - 1], s2[j + 1];
    (c1 - d[xp][x] - d[x][xn] + d[xp][y] + d[y][xn],
     c2 - d[yp][y] - d[y][yn] + d[yp][x] + d[x][yn])
  }

  /**
   * reinsertionCost(i, j, route): the cost after moving the interior node
   * at `i` between the nodes at `j` and `j + 1`.
   */
  function ReinsertionCost(d: Matrix, s: seq<int>, cost: int, i: int, j: int): (c: int)
    requires IsSquare(d) && NodesIn(s, |d|)
    requires 1 <= i < |s| - 1 && 0 <= j < |s| - 1
  {
    var x, xp, xn := s[i], s[i - 1], s[i + 1];
    var y, yn := s[j], s[j + 1];
    cost - d[xp][x] - d[x][xn] - d[y][yn] + d[xp][xn] + d[y][x] + d[x][yn]
  }

  /**
   * reinsertionCost(i, j, first_route, second_route): the two costs after
   * moving the interior node `i` of the first route between the nodes `j`
   * and `j + 1` of the second.  The node before `j`, which the source reads
   * without using (out of range for j == 0), is not read here.
   */
  function InterReinsertionCost(d: Matrix, s1: seq<int>, c1: int, s2: seq<int>, c2: int, i: int, j: int): (r: (int, int))
    requires IsSquare(d) && NodesIn(s1, |d|) && NodesIn(s2, |d|)
    requires 1 <= i < |s1| - 1 && 0 <= j < |s2| - 1
  {
    var x, xp, xn := s1[i], s1[i - 1], s1[i + 1];
    var y, yn := s2[j], s2[j + 1];
    (c1 - d[xp][x] - d[x][xn] + d[xp][xn],
     c2 - d[y][yn] + d[y][x] + d[x][yn])
  }

  // ---------------------------------------------------------------------
  // Exactness: each evaluation equals the cached cost plus the change of
  // TrueCost the corresponding route mutation brings about.
  // ---------------------------------------------------------------------

  lemma SwappedNodesIn(s: seq<int>, n: int, i: int, j: int)
    requires NodesIn(s, n) && 0 <= i < |s| && 0 <= j < |s|
    ensures NodesIn(Swapped(s, i, j), n)
  {
    var r := Swapped(s, i, j);
    forall k | 0 <= k < |r| ensures 0 <= r[k] < n {
      if k != i && k != j {
        assert r[k] == s[k];
      }
    }
  }

  /** swapCost is exact for every interior pair i < j, adjacent or not. */
  lemma SwapCostExact(d: Matrix, s: seq<int>, cost: int, i: int, j: int)
    requires IsSquare(d) && NodesIn(s, |d|)
    requires 1 <= i < j < |s| - 1
    ensures NodesIn(Swapped(s, i, j), |d|)
    ensures SwapCost(d, s, cost, i, j) == cost + TrueCost(d, Swapped(s, i, j)) - TrueCost(d, s)
  {
    SwappedNodesIn(s, |d|, i, j);
    var t := s[i := s[j]];
    TrueCostReplace(d, s, i, s[j]);
    TrueCostReplace(d, t, j, s[i]);
    assert t[j := s[i]] == Swapped(s, i, j);
  }

  /** Both halves of the inter-route swapCost are exact. */
  lemma InterSwapCostExact(d: Matrix, s1: seq<int>, c1: int, s2: seq<int>, c2: int, i: int, j: int)
    requires IsSquare(d) && NodesIn(s1, |d|) && NodesIn(s2, |d|)
    requires 1 <= i < |s1| - 1 && 1 <= j < |s2| - 1
    ensures NodesIn(s1[i := s2[j]], |d|) && NodesIn(s2[j := s1[i]], |d|)
    ensures InterSwapCost(d, s1, c1, s2, c2, i, j).0 == c1 + TrueCost(d, s1[i := s2[j]]) - TrueCost(d, s1)
    ensures InterSwapCost(d, s1, c1, s2, c2, i, j).1 == c2 + TrueCost(d, s2[j := s1[i]]) - TrueCost(d, s2)
  {
    TrueCostReplace(d, s1, i, s2[j]);
    TrueCostReplace(d, s2, j, s1[i]);
  }

  /** Moving forward, Displace is an erase followed by an insert at `j`. */
  lemma DisplacedForwardIsEraseInsert(s: seq<int>, i: int, j: int)
    requires 0 <= i < j < |s|
    ensures Displaced(s, i, j) == InsertAt(EraseAt(s, i), j, s[i])
  {
    assert Displaced(s, i, j) == EraseAt(InsertAt(s, j + 1, s[i]), i);
    var r, e := EraseAt(InsertAt(s, j + 1, s[i]), i), InsertAt(EraseAt(s, i), j, s[i]);
    forall k | 0 <= k < |s| ensures r[k] == e[k] {
      if k < i {} else if k < j {} else if k == j {} else {}
    }
  }

  /** reinsertionCost is exact for every move the descent considers. */
  lemma ReinsertionCostExact(d: Matrix, s: seq<int>, cost: int, i: int, j: int)
    requires IsSquare(d) && NodesIn(s, |d|)
    requires 1 <= i < |s| - 1 && 0 <= j < |s| - 1 && i != j && i != j + 1
    ensures NodesIn(Displaced(s, i, j), |d|)
    ensures ReinsertionCost(d, s, cost, i, j) == cost + TrueCost(d, Displaced(s, i, j)) - TrueCost(d, s)
  {
    var e := EraseAt(s, i);
    TrueCostErase(d, s, i);
    if i < j {
      DisplacedForwardIsEraseInsert(s, i, j);
      TrueCostInsert(d, e, j, s[i]);
    } else {
      TrueCostInsert(d, e, j + 1, s[i]);
    }
  }

  /** Both halves of the inter-route reinsertionCost are exact for `insert(j, remove(i))`. */
  lemma InterReinsertionCostExact(d: Matrix, s1: seq<int>, c1: int, s2: seq<int>, c2: int, i: int, j: int)
    requires IsSquare(d) && NodesIn(s1, |d|) && NodesIn(s2, |d|)
    requires 1 <= i < |s1| - 1 && 0 <= j < |s2| - 1
    ensures NodesIn(EraseAt(s1, i), |d|) && NodesIn(InsertAt(s2, j + 1, s1[i]), |d|)
    ensures InterReinsertionCost(d, s1, c1, s2, c2, i, j).0 == c1 + TrueCost(d, EraseAt(s1, i)) - TrueCost(d, s1)
    ensures InterReinsertionCost(d, s1, c1, s2, c2, i, j).1 == c2 + TrueCost(d, InsertAt(s2, j + 1, s1[i])) - TrueCost(d, s2)
  {
    TrueCostErase(d, s1, i);
    TrueCostInsert(d, s2, j + 1, s1[i]);
  }

  // ---------------------------------------------------------------------
  // The inter-route reinsertionCost as written also reads the node before
  // `j` of the second route.  The scan starts at j == 0, where that read is
  // at index -1, outside the vector; None stands for that undefined read.
  // ---------------------------------------------------------------------

  function InterReinsertionCostAsWritten(d: Matrix, s1: seq<int>, c1: int, s2: seq<int>, c2: int, i: int, j: int): (r: Option<(int, int)>)
    requires IsSquare(d) && NodesIn(s1, |d|) && NodesIn(s2, |d|)
    requires 1 <= i < |s1| - 1 && 0 <= j < |s2| - 1
    ensures r.Some? <==> j >= 1
  {
    var readsInRange := 0 <= j - 1 < |s2|;
    if readsInRange then Some(InterReinsertionCost(d, s1, c1, s2, c2, i, j)) else None
  }

  /**
   * The first move of every scan, insertion after the second route's first
   * node, makes the read out of range; every other move reads in range and
   * gets the value of the corrected evaluation, which does not depend on the
   * extra read.
   */
  lemma AsWrittenReadsOutside(d: Matrix, s1: seq<int>, c1: int, s2: seq<int>, c2: int, i: int)
    requires IsSquare(d) && NodesIn(s1, |d|) && NodesIn(s2, |d|)
    requires 1 <= i < |s1| - 1 && |s2| >= 2
    ensures InterReinsertionCostAsWritten(d, s1, c1, s2, c2, i, 0) == None
    ensures forall j :: 1 <= j < |s2| - 1 ==>
              InterReinsertionCostAsWritten(d, s1, c1, s2, c2, i, j) == Some(InterReinsertionCost(d, s1, c1, s2, c2, i, j))
  {
  }
}
