/**
Sizes of finite sets.
*/
module SetFacts {

  /** A sequence without repetitions is as long as the set of its elements is large. */
  lemma {:induction false} DistinctSize(q: seq<int>, keys: set<int>)
    requires forall i, j | 0 <= i < j < |q| :: q[i] != q[j]
    requires keys == set x | x in q
    ensures |q| == |keys|
  {
    if q != [] {
      var rest := set x | x in q[1..];
      assert keys == rest + {q[0]} && q[0] !in rest;
      DistinctSize(q[1..], rest);
    }
  }

  /** A sequence is at least as long as the set of its elements is large, and longer if it repeats one. */
  lemma {:induction false} ElementsSize(q: seq<int>, keys: set<int>)
    requires keys == set x | x in q
    ensures |keys| <= |q|
    ensures |keys| == |q| ==> forall i, j | 0 <= i < j < |q| :: q[i] != q[j]
  {
    if q != [] {
      var rest := set x | x in q[1..];
      ElementsSize(q[1..], rest);
      assert keys == rest + {q[0]};
      if |keys| == |q| {
        assert q[0] !in rest;
        forall i, j | 0 <= i < j < |q| ensures q[i] != q[j] {
          assert q[j] == q[1..][j - 1];
        }
      }
    }
  }

  lemma {:induction false} SubsetSize<T>(a: set<T>, b: set<T>)
    requires a <= b
    ensures |a| <= |b| && (|a| == |b| ==> a == b)
  {
    assert b == a + (b - a);
    if |a| == |b| {
      assert |b - a| == 0;
    }
  }

  lemma {:induction false} MemberOrEmpty(a: set<int>)
    ensures a == {} || exists x: int :: x in a
  {
    if forall x :: x !in a {
      assert a == {};
    }
  }
}
