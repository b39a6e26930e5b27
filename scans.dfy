/**
 * The nested for loops of the four descent procedures of
 * src/local_search.cc: a best-improvement scan over every move of a
 * neighbourhood, in index order, keeping the first move whose evaluation is
 * strictly below the best seen so far.  None of them changes a route.
 */
module Scans {
  import opened Problems
  import opened DeltaCosts

  /** Move (a, b) comes before move (c, e) in the scan: i is the outer index, j the inner one. */
  predicate ScanBefore(a: int, b: int, c: int, e: int) {
    a < c || (a == c && b < e)
  }

  /** The combined cost of a pair of routes, which the inter-route scans compare. */
  function Total(p: (int, int)): int {
    p.0 + p.1
  }

  // ---------------------------------------------------------------------
  // Local optimality of each neighbourhood: no move evaluates below `best`.
  // ---------------------------------------------------------------------

  predicate IntraSwapOptimal(d: Matrix, s: seq<int>, cost: int, best: int)
    requires IsSquare(d) && NodesIn(s, |d|)
  {
    forall i, j :: 1 <= i < j < |s| - 1 ==> SwapCost(d, s, cost, i, j) >= best
  }

  predicate InterSwapOptimal(d: Matrix, s1: seq<int>, c1: int, s2: seq<int>, c2: int, best: int)
    requires IsSquare(d) && NodesIn(s1, |d|) && NodesIn(s2, |d|)
  {
    forall i, j :: 1 <= i < |s1| - 1 && 1 <= j < |s2| - 1 ==> Total(InterSwapCost(d, s1, c1, s2, c2, i, j)) >= best
  }

  /** The moves of intraRouteReinsertionProcedure: it skips i == j and i == j + 1, which change nothing. */
  predicate ReinsertionMove(n: int, i: int, j: int) {
    1 <= i < n - 1 && 0 <= j < n - 1 && i != j && i != j + 1
  }

  ghost predicate IntraReinsertionOptimal(d: Matrix, s: seq<int>, cost: int, best: int)
    requires IsSquare(d) && NodesIn(s, |d|)
  {
    forall i, j :: ReinsertionMove(|s|, i, j) ==> ReinsertionCost(d, s, cost, i, j) >= best
  }

  predicate InterReinsertionOptimal(d: Matrix, s1: seq<int>, c1: int, s2: seq<int>, c2: int, best: int)
    requires IsSquare(d) && NodesIn(s1, |d|) && NodesIn(s2, |d|)
  {
    forall i, j :: 1 <= i < |s1| - 1 && 0 <= j < |s2| - 1 ==> Total(InterReinsertionCost(d, s1, c1, s2, c2, i, j)) >= best
  }

  // ---------------------------------------------------------------------
  // The scans.  On return either no move beats `best` (indices -1), or the
  // indices name the first move, in scan order, of least evaluation, and
  // that evaluation is strictly below `best`.
  // ---------------------------------------------------------------------

  /** The scan of intraRouteSwapProcedure (src/local_search.cc:65-74). */
  method BestIntraSwap(d: Matrix, s: seq<int>, cost: int, best: int) returns (newBest: int, fi: int, si: int)
    requires IsSquare(d) && NodesIn(s, |d|)
    ensures (fi == -1) == (si == -1)
    ensures fi == -1 ==> newBest == best && IntraSwapOptimal(d, s, cost, best)
    ensures fi != -1 ==> 1 <= fi < si < |s| - 1 && newBest == SwapCost(d, s, cost, fi, si) && newBest < best
    ensures fi != -1 ==> IntraSwapOptimal(d, s, cost, newBest)
    ensures fi != -1 ==> forall i, j :: 1 <= i < j < |s| - 1 && ScanBefore(i, j, fi, si) ==> SwapCost(d, s, cost, i, j) > newBest
  {
    newBest, fi, si := best, -1, -1;
    var i := 1;
    while i < |s| - 1
      invariant 1 <= i && (|s| >= 2 ==> i <= |s| - 1)
      invariant (fi == -1) == (si == -1)
      invariant fi == -1 ==> newBest == best
      invariant fi != -1 ==> 1 <= fi < si < |s| - 1 && fi < i && newBest == SwapCost(d, s, cost, fi, si) && newBest < best
      invariant forall a, b :: 1 <= a < b < |s| - 1 && a < i ==> SwapCost(d, s, cost, a, b) >= newBest
      invariant fi != -1 ==> forall a, b :: 1 <= a < b < |s| - 1 && ScanBefore(a, b, fi, si) ==> SwapCost(d, s, cost, a, b) > newBest
    {
      var j := i + 1;
      while j < |s| - 1
        invariant i + 1 <= j <= |s| - 1
        invariant (fi == -1) == (si == -1)
        invariant fi == -1 ==> newBest == best
        invariant fi != -1 ==> 1 <= fi < si < |s| - 1 && ScanBefore(fi, si, i, j) && newBest == SwapCost(d, s, cost, fi, si) && newBest < best
        invariant forall a, b :: 1 <= a < b < |s| - 1 && ScanBefore(a, b, i, j) ==> SwapCost(d, s, cost, a, b) >= newBest
        invariant fi != -1 ==> forall a, b :: 1 <= a < b < |s| - 1 && ScanBefore(a, b, fi, si) ==> SwapCost(d, s, cost, a, b) > newBest
      {
        var c := SwapCost(d, s, cost, i, j);
        if c < newBest {
          newBest, fi, si := c, i, j;
        }
        j := j + 1;
      }
      i := i + 1;
    }
  }

  /** The scan of interRouteSwapProcedure (src/local_search.cc:149-158). */
  method BestInterSwap(d: Matrix, s1: seq<int>, c1: int, s2: seq<int>, c2: int, best: (int, int))
    returns (newBest: (int, int), fi: int, si: int)
    requires IsSquare(d) && NodesIn(s1, |d|) && NodesIn(s2, |d|)
    ensures (fi == -1) == (si == -1)
    ensures fi == -1 ==> newBest == best && InterSwapOptimal(d, s1, c1, s2, c2, Total(best))
    ensures fi != -1 ==> 1 <= fi < |s1| - 1 && 1 <= si < |s2| - 1
    ensures fi != -1 ==> newBest == InterSwapCost(d, s1, c1, s2, c2, fi, si) && Total(newBest) < Total(best)
    ensures fi != -1 ==> InterSwapOptimal(d, s1, c1, s2, c2, Total(newBest))
    ensures fi != -1 ==> forall i, j :: 1 <= i < |s1| - 1 && 1 <= j < |s2| - 1 && ScanBefore(i, j, fi, si) ==>
                           Total(InterSwapCost(d, s1, c1, s2, c2, i, j)) > Total(newBest)
  {
    newBest, fi, si := best, -1, -1;
    var i := 1;
    while i < |s1| - 1
      invariant 1 <= i && (|s1| >= 2 ==> i <= |s1| - 1)
      invariant (fi == -1) == (si == -1)
      invariant fi == -1 ==> newBest == best
      invariant fi != -1 ==> 1 <= fi < |s1| - 1 && 1 <= si < |s2| - 1 && fi < i
      invariant fi != -1 ==> newBest == InterSwapCost(d, s1, c1, s2, c2, fi, si) && Total(newBest) < Total(best)
      invariant forall a, b :: 1 <= a < |s1| - 1 && 1 <= b < |s2| - 1 && a < i ==>
                  Total(InterSwapCost(d, s1, c1, s2, c2, a, b)) >= Total(newBest)
      invariant fi != -1 ==> forall a, b :: 1 <= a < |s1| - 1 && 1 <= b < |s2| - 1 && ScanBefore(a, b, fi, si) ==>
                  Total(InterSwapCost(d, s1, c1, s2, c2, a, b)) > Total(newBest)
    {
      var j := 1;
      while j < |s2| - 1
        invariant 1 <= j && (|s2| >= 2 ==> j <= |s2| - 1)
        invariant (fi == -1) == (si == -1)
        invariant fi == -1 ==> newBest == best
        invariant fi != -1 ==> 1 <= fi < |s1| - 1 && 1 <= si < |s2| - 1 && ScanBefore(fi, si, i, j)
        invariant fi != -1 ==> newBest == InterSwapCost(d, s1, c1, s2, c2, fi, si) && Total(newBest) < Total(best)
        invariant forall a, b :: 1 <= a < |s1| - 1 && 1 <= b < |s2| - 1 && ScanBefore(a, b, i, j) ==>
                    Total(InterSwapCost(d, s1, c1, s2, c2, a, b)) >= Total(newBest)
        invariant fi != -1 ==> forall a, b :: 1 <= a < |s1| - 1 && 1 <= b < |s2| - 1 && ScanBefore(a, b, fi, si) ==>
                    Total(InterSwapCost(d, s1, c1, s2, c2, a, b)) > Total(newBest)
      {
        var c := InterSwapCost(d, s1, c1, s2, c2, i, j);
        if Total(c) < Total(newBest) {
          newBest, fi, si := c, i, j;
        }
        j := j + 1;
      }
      i := i + 1;
    }
  }

  /** The scan of intraRouteReinsertionProcedure (src/local_search.cc:234-245). */
  method BestIntraReinsertion(d: Matrix, s: seq<int>, cost: int, best: int) returns (newBest: int, fi: int, si: int)
    requires IsSquare(d) && NodesIn(s, |d|)
    ensures (fi == -1) == (si == -1)
    ensures fi == -1 ==> newBest == best && IntraReinsertionOptimal(d, s, cost, best)
    ensures fi != -1 ==> ReinsertionMove(|s|, fi, si) && newBest == ReinsertionCost(d, s, cost, fi, si) && newBest < best
    ensures fi != -1 ==> IntraReinsertionOptimal(d, s, cost, newBest)
    ensures fi != -1 ==> forall i, j :: ReinsertionMove(|s|, i, j) && ScanBefore(i, j, fi, si) ==> ReinsertionCost(d, s, cost, i, j) > newBest
  {
    newBest, fi, si := best, -1, -1;
    var i := 1;
    while i < |s| - 1
      invariant 1 <= i && (|s| >= 2 ==> i <= |s| - 1)
      invariant (fi == -1) == (si == -1)
      invariant fi == -1 ==> newBest == best
      invariant fi != -1 ==> ReinsertionMove(|s|, fi, si) && fi < i && newBest == ReinsertionCost(d, s, cost, fi, si) && newBest < best
      invariant forall a, b :: ReinsertionMove(|s|, a, b) && a < i ==> ReinsertionCost(d, s, cost, a, b) >= newBest
      invariant fi != -1 ==> forall a, b :: ReinsertionMove(|s|, a, b) && ScanBefore(a, b, fi, si) ==> ReinsertionCost(d, s, cost, a, b) > newBest
    {
      var j := 0;
      while j < |s| - 1
        invariant 0 <= j <= |s| - 1
        invariant (fi == -1) == (si == -1)
        invariant fi == -1 ==> newBest == best
        invariant fi != -1 ==> ReinsertionMove(|s|, fi, si) && ScanBefore(fi, si, i, j)
        invariant fi != -1 ==> newBest == ReinsertionCost(d, s, cost, fi, si) && newBest < best
        invariant forall a, b :: ReinsertionMove(|s|, a, b) && ScanBefore(a, b, i, j) ==> ReinsertionCost(d, s, cost, a, b) >= newBest
        invariant fi != -1 ==> forall a, b :: ReinsertionMove(|s|, a, b) && ScanBefore(a, b, fi, si) ==> ReinsertionCost(d, s, cost, a, b) > newBest
      {
        if i == j || i == j + 1 {
          j := j + 1;
          continue;
        }
        var c := ReinsertionCost(d, s, cost, i, j);
        if c < newBest {
          newBest, fi, si := c, i, j;
        }
        j := j + 1;
      }
      i := i + 1;
    }
  }

  /** The scan of interRouteReinsertionProcedure (src/local_search.cc:314-323). */
  method BestInterReinsertion(d: Matrix, s1: seq<int>, c1: int, s2: seq<int>, c2: int, best: (int, int))
    returns (newBest: (int, int), fi: int, si: int)
    requires IsSquare(d) && NodesIn(s1, |d|) && NodesIn(s2, |d|)
    ensures (fi == -1) == (si == -1)
    ensures fi == -1 ==> newBest == best && InterReinsertionOptimal(d, s1, c1, s2, c2, Total(best))
    ensures fi != -1 ==> 1 <= fi < |s1| - 1 && 0 <= si < |s2| - 1
    ensures fi != -1 ==> newBest == InterReinsertionCost(d, s1, c1, s2, c2, fi, si) && Total(newBest) < Total(best)
    ensures fi != -1 ==> InterReinsertionOptimal(d, s1, c1, s2, c2, Total(newBest))
    ensures fi != -1 ==> forall i, j :: 1 <= i < |s1| - 1 && 0 <= j < |s2| - 1 && ScanBefore(i, j, fi, si) ==>
                           Total(InterReinsertionCost(d, s1, c1, s2, c2, i, j)) > Total(newBest)
  {
    newBest, fi, si := best, -1, -1;
    var i := 1;
    while i < |s1| - 1
      invariant 1 <= i && (|s1| >= 2 ==> i <= |s1| - 1)
      invariant (fi == -1) == (si == -1)
      invariant fi == -1 ==> newBest == best
      invariant fi != -1 ==> 1 <= fi < |s1| - 1 && 0 <= si < |s2| - 1 && fi < i
      invariant fi != -1 ==> newBest == InterReinsertionCost(d, s1, c1, s2, c2, fi, si) && Total(newBest) < Total(best)
      invariant forall a, b :: 1 <= a < |s1| - 1 && 0 <= b < |s2| - 1 && a < i ==>
                  Total(InterReinsertionCost(d, s1, c1, s2, c2, a, b)) >= Total(newBest)
      invariant fi != -1 ==> forall a, b :: 1 <= a < |s1| - 1 && 0 <= b < |s2| - 1 && ScanBefore(a, b, fi, si) ==>
                  Total(InterReinsertionCost(d, s1, c1, s2, c2, a, b)) > Total(newBest)
    {
      var j := 0;
      while j < |s2| - 1
        invariant 0 <= j && (|s2| >= 1 ==> j <= |s2| - 1)
        invariant (fi == -1) == (si == -1)
        invariant fi == -1 ==> newBest == best
        invariant fi != -1 ==> 1 <= fi < |s1| - 1 && 0 <= si < |s2| - 1 && ScanBefore(fi, si, i, j)
        invariant fi != -1 ==> newBest == InterReinsertionCost(d, s1, c1, s2, c2, fi, si) && Total(newBest) < Total(best)
        invariant forall a, b :: 1 <= a < |s1| - 1 && 0 <= b < |s2| - 1 && ScanBefore(a, b, i, j) ==>
                    Total(InterReinsertionCost(d, s1, c1, s2, c2, a, b)) >= Total(newBest)
        invariant fi != -1 ==> forall a, b :: 1 <= a < |s1| - 1 && 0 <= b < |s2| - 1 && ScanBefore(a, b, fi, si) ==>
                    Total(InterReinsertionCost(d, s1, c1, s2, c2, a, b)) > Total(newBest)
      {
        var c := InterReinsertionCost(d, s1, c1, s2, c2, i, j);
        if Total(c) < Total(newBest) {
          newBest, fi, si := c, i, j;
        }
        j := j + 1;
      }
      i := i + 1;
    }
  }
}
