/**
 * The cost a route's cached `cost_` is meant to hold: the sum of the
 * distances between consecutive nodes, including the closing edge back to
 * the depot, and how it changes when one node is replaced, erased or inserted.
 */
module Costs {
  import opened Problems

  /** Sum of `d[s[k]][s[k+1]]` over the consecutive pairs of `s`. */
  function TrueCost(d: Matrix, s: seq<int>): (c: int)
    requires IsSquare(d) && NodesIn(s, |d|)
    ensures NonNegative(d) ==> c >= 0
  {
    if |s| < 2 then 0 else d[s[0]][s[1]] + TrueCost(d, s[1..])
  }

  /** Cutting a route in two loses exactly the edge between the pieces. */
  lemma {:induction false} TrueCostSplit(d: Matrix, a: seq<int>, b: seq<int>)
    requires IsSquare(d) && NodesIn(a, |d|) && NodesIn(b, |d|)
    requires |a| >= 1 && |b| >= 1
    ensures NodesIn(a + b, |d|)
    ensures TrueCost(d, a + b) == TrueCost(d, a) + d[a[|a| - 1]][b[0]] + TrueCost(d, b)
  {
    assert (a + b)[1..] == a[1..] + b;
    if |a| > 1 {
      TrueCostSplit(d, a[1..], b);
    }
  }

  /** Appending a node adds the edge from the old last node to it. */
  lemma TrueCostAppend(d: Matrix, s: seq<int>, v: int)
    requires IsSquare(d) && NodesIn(s, |d|) && |s| >= 1 && 0 <= v < |d|
    ensures NodesIn(s + [v], |d|)
    ensures TrueCost(d, s + [v]) == TrueCost(d, s) + d[s[|s| - 1]][v]
  {
    TrueCostSplit(d, s, [v]);
  }

  /** A node `x` between two non-empty pieces contributes its two edges. */
  lemma TrueCostAround(d: Matrix, a: seq<int>, x: int, b: seq<int>)
    requires IsSquare(d) && NodesIn(a, |d|) && NodesIn(b, |d|) && 0 <= x < |d|
    requires |a| >= 1 && |b| >= 1
    ensures NodesIn(a + [x] + b, |d|)
    ensures TrueCost(d, a + [x] + b)
         == TrueCost(d, a) + d[a[|a| - 1]][x] + d[x][b[0]] + TrueCost(d, b)
  {
    TrueCostSplit(d, a, [x]);
    TrueCostSplit(d, a + [x], b);
  }

  /** Replacing the interior node at `i` by `v` swaps its two edges for two new ones. */
  lemma TrueCostReplace(d: Matrix, s: seq<int>, i: int, v: int)
    requires IsSquare(d) && NodesIn(s, |d|) && 0 <= v < |d|
    requires 1 <= i < |s| - 1
    ensures NodesIn(s[i := v], |d|)
    ensures TrueCost(d, s[i := v])
         == TrueCost(d, s) - d[s[i - 1]][s[i]] - d[s[i]][s[i + 1]] + d[s[i - 1]][v] + d[v][s[i + 1]]
  {
    var a, b := s[..i], s[i + 1..];
    assert s == a + [s[i]] + b;
    assert s[i := v] == a + [v] + b;
    TrueCostAround(d, a, s[i], b);
    TrueCostAround(d, a, v, b);
  }

  /** Erasing the interior node at `i` replaces its two edges by one shortcut. */
  lemma {:induction false} TrueCostErase(d: Matrix, s: seq<int>, i: int)
    requires IsSquare(d) && NodesIn(s, |d|)
    requires 1 <= i < |s| - 1
    ensures NodesIn(s[..i] + s[i + 1..], |d|)
    ensures TrueCost(d, s[..i] + s[i + 1..])
         == TrueCost(d, s) - d[s[i - 1]][s[i]] - d[s[i]][s[i + 1]] + d[s[i - 1]][s[i + 1]]
  {
    var r := s[..i] + s[i + 1..];
    if i == 1 {
      assert r == [s[0]] + s[2..];
      assert r[1..] == s[2..];
      assert s[1..][1..] == s[2..];
    } else {
      var t := s[1..];
      TrueCostErase(d, t, i - 1);
      assert t[..i - 1] + t[i..] == r[1..];
    }
  }

  /** Inserting `v` at position `pos` (not first, not after the last) breaks one edge into two. */
  lemma TrueCostInsert(d: Matrix, s: seq<int>, pos: int, v: int)
    requires IsSquare(d) && NodesIn(s, |d|) && 0 <= v < |d|
    requires 1 <= pos < |s|
    ensures NodesIn(s[..pos] + [v] + s[pos..], |d|)
    ensures TrueCost(d, s[..pos] + [v] + s[pos..])
         == TrueCost(d, s) - d[s[pos - 1]][s[pos]] + d[s[pos - 1]][v] + d[v][s[pos]]
  {
    var a, b := s[..pos], s[pos..];
    assert s == a + b;
    assert a[|a| - 1] == s[pos - 1] && b[0] == s[pos];
    TrueCostAround(d, a, v, b);
    TrueCostSplit(d, a, b);
  }
}
