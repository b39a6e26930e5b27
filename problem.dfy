/**
 * The problem instance of src/problem.h: a number of vehicles, a number of
 * clients and a square matrix of distances, read once and never changed.
 */
module Problems {

  /** The largest C++ `int`; findMinNotVisited starts its minimum here. */
  const INT_MAX: int := 0x7fff_ffff

  /** Row-major distance matrix: `d[a][b]` is the cost of going from `a` to `b`. */
  type Matrix = seq<seq<int>>

  /** Every row has as many entries as the matrix has rows. */
  predicate IsSquare(d: Matrix) {
    forall a :: 0 <= a < |d| ==> |d[a]| == |d|
  }

  /** No distance is negative. */
  predicate NonNegative(d: Matrix) {
    forall a, b :: 0 <= a < |d| && 0 <= b < |d[a]| ==> d[a][b] >= 0
  }

  /** Every distance between two different nodes is strictly below INT_MAX, so findMinNotVisited can pick it. */
  predicate BelowIntMax(d: Matrix) {
    forall a, b :: 0 <= a < |d| && 0 <= b < |d[a]| && a != b ==> d[a][b] < INT_MAX
  }

  /** Every node of `s` is a valid index `0 <= v < n`. */
  predicate NodesIn(s: seq<int>, n: int) {
    forall k :: 0 <= k < |s| ==> 0 <= s[k] < n
  }

  /** Every node of every route is a node of the matrix. */
  predicate NodesAll(ns: seq<seq<int>>, n: int) {
    forall b :: 0 <= b < |ns| ==> NodesIn(ns[b], n)
  }

  datatype Option<T> = None | Some(value: T)

  /** The values of src/problem.h:24-26, as handed to the solvers. */
  datatype Problem = Problem(numVehicles: int, numClients: int, d: Matrix)

  /** C++ integer division, which truncates toward zero. */
  function CDiv(a: int, b: int): (q: int)
    requires b != 0
    ensures a >= 0 && b > 0 ==> q == a / b
  {
    var m := Abs(a) / Abs(b);
    if (a < 0) == (b < 0) then m else -m
  }

  function Abs(x: int): (r: nat)
    ensures r == x || r == -x
  {
    if x < 0 then -x else x
  }
}
