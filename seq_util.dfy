/**
 * Concatenation of a list of routes and the sum of a list of costs, with
 * how each changes when one entry is replaced.
 */
module SeqUtil {

  /** All the sequences of `ss`, one after the other. */
  function Concat(ss: seq<seq<int>>): (r: seq<int>)
  {
    if ss == [] then [] else ss[0] + Concat(ss[1..])
  }

  /** Replacing entry `i` by `a` trades the nodes of the old entry for those of `a`. */
  lemma {:induction false} ConcatUpdate(ss: seq<seq<int>>, i: int, a: seq<int>)
    requires 0 <= i < |ss|
    ensures multiset(Concat(ss[i := a])) + multiset(ss[i]) == multiset(Concat(ss)) + multiset(a)
  {
    if i > 0 {
      var rest := ss[1..][i - 1 := a];
      assert ss[i := a] == [ss[0]] + rest;
      assert ss[i := a][1..] == rest;
      ConcatUpdate(ss[1..], i - 1, a);
      calc {
        multiset(Concat(ss[i := a])) + multiset(ss[i]);
        multiset(ss[0]) + multiset(Concat(rest)) + multiset(ss[1..][i - 1]);
        multiset(ss[0]) + (multiset(Concat(rest)) + multiset(ss[1..][i - 1]));
        multiset(ss[0]) + (multiset(Concat(ss[1..])) + multiset(a));
        multiset(Concat(ss)) + multiset(a);
      }
    } else {
      assert ss[i := a][1..] == ss[1..];
    }
  }

  /** Two distinct entries that trade nodes only between themselves leave the nodes of the whole unchanged. */
  lemma ConcatPairUpdate(ss: seq<seq<int>>, i: int, j: int, a: seq<int>, b: seq<int>)
    requires 0 <= i < |ss| && 0 <= j < |ss| && i != j
    requires multiset(a) + multiset(b) == multiset(ss[i]) + multiset(ss[j])
    ensures multiset(Concat(ss[i := a][j := b])) == multiset(Concat(ss))
  {
    ConcatUpdate(ss, i, a);
    ConcatUpdate(ss[i := a], j, b);
    var m0, m1, m2 := multiset(Concat(ss)), multiset(Concat(ss[i := a])), multiset(Concat(ss[i := a][j := b]));
    assert ss[i := a][j] == ss[j];
    forall v ensures m2[v] == m0[v] {
      assert (m1 + multiset(ss[i]))[v] == (m0 + multiset(a))[v];
      assert (m2 + multiset(ss[j]))[v] == (m1 + multiset(b))[v];
      assert (multiset(a) + multiset(b))[v] == (multiset(ss[i]) + multiset(ss[j]))[v];
    }
  }

  /** A value occurs in the concatenation exactly when it occurs in one of the parts. */
  lemma {:induction false} ConcatMember(ss: seq<seq<int>>, v: int)
    ensures v in multiset(Concat(ss)) <==> exists k, p :: 0 <= k < |ss| && 0 <= p < |ss[k]| && ss[k][p] == v
  {
    if ss != [] {
      ConcatMember(ss[1..], v);
      if v in multiset(Concat(ss[1..])) {
        var k, p :| 0 <= k < |ss[1..]| && 0 <= p < |ss[1..][k]| && ss[1..][k][p] == v;
        assert ss[k + 1][p] == v;
      }
      if v in multiset(ss[0]) {
        assert v in ss[0];
        var p :| 0 <= p < |ss[0]| && ss[0][p] == v;
        assert ss[0][p] == v;
      }
      if exists k, p :: 0 <= k < |ss| && 0 <= p < |ss[k]| && ss[k][p] == v {
        var k, p :| 0 <= k < |ss| && 0 <= p < |ss[k]| && ss[k][p] == v;
        if k == 0 {
          assert v in ss[0];
        } else {
          assert ss[1..][k - 1][p] == v;
        }
      }
    }
  }

  /** The total of a list of costs. */
  function Sum(cs: seq<int>): (r: int)
  {
    if cs == [] then 0 else cs[0] + Sum(cs[1..])
  }

  /** Replacing entry `i` by `c` changes the total by the difference. */
  lemma {:induction false} SumUpdate(cs: seq<int>, i: int, c: int)
    requires 0 <= i < |cs|
    ensures Sum(cs[i := c]) == Sum(cs) - cs[i] + c
  {
    if i > 0 {
      assert cs[i := c][1..] == cs[1..][i - 1 := c];
      SumUpdate(cs[1..], i - 1, c);
    } else {
      assert cs[i := c][1..] == cs[1..];
    }
  }

  /** Replacing two distinct entries changes the total by both differences. */
  lemma SumPairUpdate(cs: seq<int>, i: int, j: int, a: int, b: int)
    requires 0 <= i < |cs| && 0 <= j < |cs| && i != j
    ensures Sum(cs[i := a][j := b]) == Sum(cs) - cs[i] - cs[j] + a + b
  {
    SumUpdate(cs, i, a);
    SumUpdate(cs[i := a], j, b);
  }

  /** The total of a prefix grows by the next entry. */
  lemma {:induction false} SumPrefix(cs: seq<int>, i: int)
    requires 0 <= i < |cs|
    ensures Sum(cs[..i + 1]) == Sum(cs[..i]) + cs[i]
  {
    if i > 0 {
      assert cs[..i + 1][1..] == cs[1..][..i];
      assert cs[..i][1..] == cs[1..][..i - 1];
      SumPrefix(cs[1..], i - 1);
    }
  }
}
