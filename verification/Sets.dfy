/** Counting in finite sets. */
module Sets {
  /** The numbers below n. */
  function Below(n: nat): (s: set<int>)
    ensures |s| == n && forall x :: x in s <==> 0 <= x < n
  {
    if n == 0 then {} else Below(n - 1) + {n - 1}
  }

  /** A subset is not larger, and as large only if it is the whole set. */
  lemma SubsetSize(a: set<int>, b: set<int>)
    requires a <= b
    ensures |a| <= |b|
    ensures |a| == |b| ==> a == b
  {
    assert b == a + (b - a);
    assert |b| == |a| + |b - a|;
  }

  /** Of two disjoint parts one has at least half of the elements. */
  lemma OtherHalf(s: set<int>, n: set<int>, all: set<int>, half: nat)
    requires s !! n && s + n <= all && |all| == 2 * half && |s| >= half
    ensures |n| <= |s|
  {
    assert |s + n| == |s| + |n|;
    SubsetSize(s + n, all);
  }

  ghost function Any<T>(s: set<T>): (e: T)
    requires s != {}
    ensures e in s
  {
    var e :| e in s; e
  }

  /** An injective image has as many elements. */
  lemma {:induction false} InjectiveImage(s: set<int>, f: int -> int)
    requires forall x, y :: x in s && y in s && f(x) == f(y) ==> x == y
    ensures |set x | x in s :: f(x)| == |s|
  {
    if s != {} {
      var e := Any(s);
      var t := s - {e};
      InjectiveImage(t, f);
      var image := set x | x in t :: f(x);
      assert f(e) !in image;
      assert (set x | x in s :: f(x)) == image + {f(e)};
    }
  }

  method Pick<T(==)>(s: set<T>) returns (e: T)
    requires s != {}
    ensures e in s
  {
    e :| e in s;
  }
}
