/**
 * The route of src/route.h: a vector of node ids changed in place, and a
 * cached cost that only the callers change, through the reference that
 * getCost() returns.  The value-level operations below say what each
 * mutator does to the node sequence.
 */
module Routes {
  import opened Problems

  /** `s` with the nodes at `p` and `q` exchanged (std::swap on two positions). */
  function Swapped(s: seq<int>, p: int, q: int): (r: seq<int>)
    requires 0 <= p < |s| && 0 <= q < |s|
    ensures |r| == |s| && r[p] == s[q] && r[q] == s[p]
    ensures forall k :: 0 <= k < |s| && k != p && k != q ==> r[k] == s[k]
    ensures multiset(r) == multiset(s)
  {
    s[p := s[q]][q := s[p]]
  }

  /** `s` with `v` placed at index `pos` and the tail shifted right (vector::insert). */
  function InsertAt(s: seq<int>, pos: int, v: int): (r: seq<int>)
    requires 0 <= pos <= |s|
    ensures |r| == |s| + 1 && r[pos] == v
    ensures forall k :: 0 <= k < pos ==> r[k] == s[k]
    ensures forall k :: pos <= k < |s| ==> r[k + 1] == s[k]
    ensures multiset(r) == multiset(s) + multiset{v}
  {
    assert s == s[..pos] + s[pos..];
    s[..pos] + [v] + s[pos..]
  }

  /** `s` without its node at `pos`, the tail shifted left (vector::erase). */
  function EraseAt(s: seq<int>, pos: int): (r: seq<int>)
    requires 0 <= pos < |s|
    ensures |r| == |s| - 1
    ensures forall k :: 0 <= k < pos ==> r[k] == s[k]
    ensures forall k :: pos <= k < |r| ==> r[k] == s[k + 1]
    ensures multiset(r) + multiset{s[pos]} == multiset(s)
  {
    assert s == s[..pos] + [s[pos]] + s[pos + 1..];
    s[..pos] + s[pos + 1..]
  }

  /**
   * What Displace(i, j) does (src/route.h:106-116): for i < j a copy of the node
   * at i is inserted after position j and then the original is erased; for
   * i > j the node is erased and then inserted after position j; for i == j
   * nothing changes.
   */
  function Displaced(s: seq<int>, i: int, j: int): (r: seq<int>)
    requires 0 <= i < |s| && -1 <= j < |s|
    ensures |r| == |s| && multiset(r) == multiset(s)
    ensures i == j ==> r == s
  {
    if i < j then
      var t := InsertAt(s, j + 1, s[i]);
      MultisetCancel(multiset(EraseAt(t, i)), multiset(s), t[i]);
      EraseAt(t, i)
    else if i > j then
      var t := EraseAt(s, i);
      MultisetCancel(multiset(InsertAt(t, j + 1, s[i])), multiset(s), s[i]);
      InsertAt(t, j + 1, s[i])
    else s
  }

  /** Moving forward: the node ends at index j, the nodes between shift one to the left. */
  lemma DisplacedForward(s: seq<int>, i: int, j: int)
    requires 0 <= i < j < |s|
    ensures Displaced(s, i, j)[j] == s[i]
    ensures forall k :: 0 <= k < i ==> Displaced(s, i, j)[k] == s[k]
    ensures forall k :: i <= k < j ==> Displaced(s, i, j)[k] == s[k + 1]
    ensures forall k :: j < k < |s| ==> Displaced(s, i, j)[k] == s[k]
  {
  }

  /** Moving backward: the node ends at index j + 1, the nodes between shift one to the right. */
  lemma DisplacedBackward(s: seq<int>, i: int, j: int)
    requires -1 <= j < i < |s|
    ensures Displaced(s, i, j)[j + 1] == s[i]
    ensures forall k :: 0 <= k <= j ==> Displaced(s, i, j)[k] == s[k]
    ensures forall k :: j + 1 < k <= i ==> Displaced(s, i, j)[k] == s[k - 1]
    ensures forall k :: i < k < |s| ==> Displaced(s, i, j)[k] == s[k]
  {
    var t := EraseAt(s, i);
    var r := InsertAt(t, j + 1, s[i]);
    assert Displaced(s, i, j) == r;
    forall k | j + 1 < k < |s| ensures r[k] == t[k - 1] {
      assert r[(k - 1) + 1] == t[k - 1];
    }
  }

  lemma MultisetCancel(a: multiset<int>, b: multiset<int>, x: int)
    requires a + multiset{x} == b + multiset{x}
    ensures a == b
  {
    forall v ensures a[v] == b[v] {
      assert (a + multiset{x})[v] == (b + multiset{x})[v];
    }
  }

  /** Overwriting one position trades that node for the new one. */
  lemma UpdateMultiset(s: seq<int>, i: int, v: int)
    requires 0 <= i < |s|
    ensures multiset(s[i := v]) + multiset{s[i]} == multiset(s) + multiset{v}
  {
    assert s == s[..i] + [s[i]] + s[i + 1..];
    assert s[i := v] == s[..i] + [v] + s[i + 1..];
  }

  /** Putting back what was removed restores the route: `insert(k - 1, remove(k))`. */
  lemma RemoveInsertRoundTrip(s: seq<int>, k: int)
    requires 0 <= k < |s|
    ensures InsertAt(EraseAt(s, k), k, s[k]) == s
  {
    var r := InsertAt(EraseAt(s, k), k, s[k]);
    assert forall m :: 0 <= m < |s| ==> r[m] == s[m];
  }

  /** A route: its node sequence `route` and its cached cost `cost`. */
  class Route {
    var route: seq<int>
    var cost: int

    /** Route() of src/route.h:30: no nodes, cost 0. */
    constructor ()
      ensures route == [] && cost == 0
    {
      route := [];
      cost := 0;
    }

    /** The implicit copy constructor: a distinct route with the same nodes and cost. */
    constructor Copy(other: Route)
      ensures route == other.route && cost == other.cost
    {
      route := other.route;
      cost := other.cost;
    }

    method GetSize() returns (n: int)
      ensures n == |route|
    {
      n := |route|;
    }

    /** A copy of the node sequence. */
    method GetRoute() returns (r: seq<int>)
      ensures r == route
    {
      r := route;
    }

    method SetRoute(r: seq<int>)
      modifies this
      ensures route == r && cost == old(cost)
    {
      route := r;
    }

    /** Reads the cost; writing through the returned reference is `cost := ...` at the caller. */
    method GetCost() returns (c: int)
      ensures c == cost
    {
      c := cost;
    }

    /** The last node; `back()` on an empty vector is undefined, hence the requires. */
    method GetLastClient() returns (c: int)
      requires |route| > 0
      ensures c == route[|route| - 1]
    {
      c := route[|route| - 1];
    }

    method AddClient(client: int)
      modifies this
      ensures route == old(route) + [client] && cost == old(cost)
    {
      route := route + [client];
    }

    /** Reading through operator[]. */
    method At(pos: int) returns (v: int)
      requires 0 <= pos < |route|
      ensures v == route[pos]
    {
      v := route[pos];
    }

    /** Writing through the reference operator[] returns. */
    method Put(pos: int, v: int)
      requires 0 <= pos < |route|
      modifies this
      ensures route == old(route)[pos := v] && cost == old(cost)
    {
      route := route[pos := v];
    }

    method Swap(pos1: int, pos2: int)
      requires 0 <= pos1 < |route| && 0 <= pos2 < |route|
      modifies this
      ensures route == Swapped(old(route), pos1, pos2) && cost == old(cost)
    {
      route := route[pos1 := route[pos2]][pos2 := route[pos1]];
    }

    method Displace(firstIndex: int, secondIndex: int)
      requires 0 <= firstIndex < |route| && -1 <= secondIndex < |route|
      modifies this
      ensures route == Displaced(old(route), firstIndex, secondIndex) && cost == old(cost)
    {
      if firstIndex < secondIndex {
        route := InsertAt(route, secondIndex + 1, route[firstIndex]);
        route := EraseAt(route, firstIndex);
      }
      if firstIndex > secondIndex {
        var temp := route[firstIndex];
        route := EraseAt(route, firstIndex);
        route := InsertAt(route, secondIndex + 1, temp);
      }
    }

    /** Inserts `node` after position `index`. */
    method Insert(index: int, node: int)
      requires -1 <= index < |route|
      modifies this
      ensures route == InsertAt(old(route), index + 1, node) && cost == old(cost)
    {
      route := InsertAt(route, index + 1, node);
    }

    method Remove(index: int) returns (node: int)
      requires 0 <= index < |route|
      modifies this
      ensures node == old(route)[index]
      ensures route == EraseAt(old(route), index) && cost == old(cost)
    {
      node := route[index];
      route := EraseAt(route, index);
    }
  }
}
