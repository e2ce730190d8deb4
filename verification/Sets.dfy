/** Elements of sets. */
module Sets {
  /** Some element of a set. */
  ghost function Pick<T>(s: set<T>): (x: T)
    requires s != {}
    ensures x in s
  {
    var x :| x in s;
    x
  }

  lemma Empty(s: set<int>)
    requires forall x :: x !in s
    ensures s == {} && |s| == 0
  {
    if s != {} {
      var x: int := Pick(s);
    }
  }

  lemma Same(a: set<int>, b: set<int>)
    requires forall x :: x in a <==> x in b
    ensures a == b
  {
    Empty(a - b);
    Empty(b - a);
  }

  lemma Without(a: set<int>, x: int)
    ensures |a - {x}| == |a| - if x in a then 1 else 0
  {
    if x in a {
      assert a == a - {x} + {x};
    } else {
      assert a == a - {x};
    }
  }

  lemma HeadOrTail(q: seq<int>, x: int)
    requires |q| > 0
    ensures x in q <==> x == q[0] || x in q[1..]
  {
    if x in q {
      var i :| 0 <= i < |q| && q[i] == x;
      assert i > 0 ==> q[1..][i - 1] == x;
    }
  }
}
