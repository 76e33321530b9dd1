/**
 * The `ORDER BY` of a query over a keyed table: the keys of the selected rows
 * listed according to a strict total order on them. A result with no tie
 * between two rows is determined by that order alone, which is why every order
 * used in this model ends with a tie-break on the key.
 */
module Ordering {

  /** `lt` is a strict total order on the keys in `ks`. */
  ghost predicate StrictTotalOn<K(!new)>(ks: set<K>, lt: (K, K) -> bool) {
    && (forall a | a in ks :: !lt(a, a))
    && (forall a, b | a in ks && b in ks :: a == b || lt(a, b) || lt(b, a))
    && (forall a, b, c | a in ks && b in ks && c in ks :: lt(a, b) && lt(b, c) ==> lt(a, c))
  }

  /** `k` comes before every other key of `ks`. */
  predicate IsFirst<K(!new)>(k: K, ks: set<K>, lt: (K, K) -> bool) {
    k in ks && forall j | j in ks :: j == k || lt(k, j)
  }

  lemma {:induction false} FirstExists<K(!new)>(ks: set<K>, lt: (K, K) -> bool)
    requires ks != {} && StrictTotalOn(ks, lt)
    ensures exists k :: IsFirst(k, ks, lt)
    decreases |ks|
  {
    var x :| x in ks;
    if ks - {x} == {} {
      assert ks == {x};
      assert IsFirst(x, ks, lt);
    } else {
      FirstExists(ks - {x}, lt);
      var m :| IsFirst(m, ks - {x}, lt);
      if lt(x, m) {
        assert IsFirst(x, ks, lt);
      } else {
        assert IsFirst(m, ks, lt);
      }
    }
  }

  /** The keys of `ks` in `lt` order: every key exactly once, each before
    * every key that follows it. */
  function SortedKeys<K(!new)>(ks: set<K>, lt: (K, K) -> bool): (r: seq<K>)
    requires StrictTotalOn(ks, lt)
    ensures |r| == |ks|
    ensures forall k :: k in r <==> k in ks
    ensures forall i, j :: 0 <= i < j < |r| ==> lt(r[i], r[j])
    decreases |ks|
  {
    if ks == {} then []
    else
      FirstExists(ks, lt);
      var k :| IsFirst(k, ks, lt);
      [k] + SortedKeys(ks - {k}, lt)
  }
}
