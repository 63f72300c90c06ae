/**
  Iteration over a map with integer keys. A Java `HashMap<Integer, …>`
  whose keys are the small non-negative positions of a CSV header keeps
  each key in the bucket of the same index, so its entry set is visited in
  ascending key order; the loops of the model visit keys in that order by
  repeatedly taking the least key not yet visited.
 */
module IntKeys {

  /** `k` is the least element of `s`. */
  predicate IsLeast(s: set<int>, k: int)
  {
    k in s && forall j :: j in s ==> k <= j
  }

  /** Every non-empty finite set of integers has a least element. */
  lemma {:induction false} LeastExists(s: set<int>)
    requires s != {}
    ensures exists k :: IsLeast(s, k)
    decreases |s|
  {
    if forall x :: x !in s {
      assert false;
    }
    var x :| x in s;
    if s != {x} {
      var rest := s - {x};
      LeastExists(rest);
      var y :| IsLeast(rest, y);
      assert s == rest + {x};
      if x < y {
        assert IsLeast(s, x);
      } else {
        assert IsLeast(s, y);
      }
    } else {
      assert IsLeast(s, x);
    }
  }

  /** The least element of a non-empty set. */
  method Least(s: set<int>) returns (k: int)
    requires s != {}
    ensures IsLeast(s, k)
  {
    LeastExists(s);
    k :| IsLeast(s, k);
  }
}
