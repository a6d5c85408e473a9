/**
 * The ascending key order of a ConcurrentSkipListMap<Integer, _>: its keySet()
 * iterates from the smallest key upwards.
 */
module OrderedKeys {

  predicate StrictlyIncreasing(q: seq<int>) {
    forall i, j | 0 <= i < j < |q| :: q[i] < q[j]
  }

  predicate IsLeast(m: int, s: set<int>) {
    m in s && forall k | k in s :: m <= k
  }

  /** Every non-empty finite set of keys has a least element. */
  lemma {:induction false} LeastExists(s: set<int>)
    requires s != {}
    ensures exists m :: IsLeast(m, s)
    decreases |s|
  {
    if forall k :: k !in s {
      assert false;
    }
    var x :| x in s;
    if s == {x} {
      assert IsLeast(x, s);
    } else {
      LeastExists(s - {x});
      var m :| IsLeast(m, s - {x});
      assert forall k | k in s :: k == x || k in s - {x};
      if x < m {
        assert IsLeast(x, s);
      } else {
        assert IsLeast(m, s);
      }
    }
  }

  ghost function Least(s: set<int>): (m: int)
    requires s != {}
    ensures IsLeast(m, s)
  {
    LeastExists(s);
    var m :| IsLeast(m, s); m
  }

  /** The keys of a map in the order keySet() yields them. */
  ghost function SortedKeys(s: set<int>): (q: seq<int>)
    ensures |q| == |s|
    ensures forall k :: k in q <==> k in s
    ensures StrictlyIncreasing(q)
    decreases |s|
  {
    if s == {} then []
    else
      var m := Least(s);
      var rest := SortedKeys(s - {m});
      assert forall k | k in rest :: m < k;
      [m] + rest
  }

  /** The unfolding a min-extraction loop relies on: the first key is the least one. */
  lemma SortedKeysFirst(s: set<int>, m: int)
    requires IsLeast(m, s)
    ensures SortedKeys(s) == [m] + SortedKeys(s - {m})
  {
    var l := Least(s);
    assert l <= m && m <= l;
  }
}
