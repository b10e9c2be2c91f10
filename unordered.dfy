/** Iteration over std::unordered_map visits every key once, in an order the program cannot
    rely on. A serialiser is modelled with that order as an explicit parameter, and every
    property about it is proved for all orders. */
module Unordered {

  /** `order` lists every element of `keys` exactly once. */
  predicate IsOrdering<T>(order: seq<T>, keys: set<T>)
  {
    (forall i, j :: 0 <= i < j < |order| ==> order[i] != order[j])
    && (forall i :: 0 <= i < |order| ==> order[i] in keys)
    && (forall k :: k in keys ==> k in order)
  }

  /** Every finite set has an iteration order. */
  lemma {:induction false} OrderingExists<T>(keys: set<T>)
    ensures exists order :: IsOrdering(order, keys)
    decreases |keys|
  {
    if keys == {} {
      assert IsOrdering([], keys);
    } else {
      var x :| x in keys;
      OrderingExists(keys - {x});
      var rest :| IsOrdering(rest, keys - {x});
      var order := [x] + rest;
      assert forall i :: 1 <= i < |order| ==> order[i] == rest[i - 1];
      assert IsOrdering(order, keys);
    }
  }

  /** An ordering has exactly as many entries as the set has elements. */
  lemma {:induction false} OrderingLength<T>(order: seq<T>, keys: set<T>)
    requires IsOrdering(order, keys)
    ensures |order| == |keys|
    decreases |order|
  {
    if |order| > 0 {
      var x := order[0];
      var rest := order[1..];
      assert forall i :: 0 <= i < |rest| ==> rest[i] == order[i + 1];
      assert IsOrdering(rest, keys - {x}) by {
        forall k | k in keys - {x} ensures k in rest {
          var i :| 0 <= i < |order| && order[i] == k;
          assert i != 0;
          assert rest[i - 1] == k;
        }
      }
      OrderingLength(rest, keys - {x});
    } else {
      assert forall k :: k in keys ==> k in order;
    }
  }

  /** The tail of an ordering orders the set without its first element. */
  lemma {:induction false} OrderingTail<T>(order: seq<T>, keys: set<T>)
    requires IsOrdering(order, keys) && |order| > 0
    ensures IsOrdering(order[1..], keys - {order[0]})
  {
    var rest := order[1..];
    assert forall i :: 0 <= i < |rest| ==> rest[i] == order[i + 1];
    forall k | k in keys - {order[0]} ensures k in rest {
      var i :| 0 <= i < |order| && order[i] == k;
      assert i != 0;
      assert rest[i - 1] == k;
    }
  }
}
