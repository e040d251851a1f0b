/** Finite sets of integers: picking, counting, sizes. */
module Sets {

  /** Some element of a nonempty set. */
  ghost function Pick(s: set<int>): (x: int)
    ensures s != {} ==> x in s
  {
    if exists x :: x in s then (var x :| x in s; x) else assert s == {}; 0
  }

  /** The numbers from 0 up to n. */
  ghost function Below(n: nat): (s: set<int>)
    ensures forall x :: x in s <==> 0 <= x < n
    ensures |s| == n
  {
    if n == 0 then {} else Below(n - 1) + {n - 1}
  }

  lemma SubsetSize(s: set<int>, t: set<int>)
    requires s <= t
    ensures |s| <= |t| && (|s| == |t| ==> s == t)
  {
    assert t == s + (t - s);
    if t - s != {} {
      var x := Pick(t - s);
      assert t - s == (t - s - {x}) + {x};
    }
  }

  lemma AddOne(s: set<int>, x: int)
    ensures |s + {x}| == |s| + if x in s then 0 else 1
    ensures |s - {x}| == |s| - if x in s then 1 else 0
  {
    if x in s {
      assert s == s - {x} + {x};
      assert s + {x} == s;
    } else {
      assert s - {x} == s;
    }
  }
}
