/** Sizes of finite sets and of sequences without repetition. */
module Sets {
  lemma SubsetSize<T>(A: set<T>, B: set<T>)
    requires A <= B
    ensures |A| <= |B|
  {
    assert |B| == |A| + |B - A| by { assert B == A + (B - A); }
  }

  predicate NoneTwice<T(==)>(xs: seq<T>) {
    forall i, j :: 0 <= i < j < |xs| ==> xs[i] != xs[j]
  }

  lemma {:induction false} NoneTwiceSize<T>(xs: seq<T>)
    requires NoneTwice(xs)
    ensures |set x | x in xs| == |xs|
  {
    if xs != [] {
      var n := |xs| - 1;
      NoneTwiceSize(xs[..n]);
      assert xs == xs[..n] + [xs[n]];
      assert (set x | x in xs) == (set x | x in xs[..n]) + {xs[n]};
    }
  }

  function NumbersBelow(n: nat): (s: set<int>)
    ensures |s| == n && forall x :: x in s <==> 0 <= x < n
  {
    if n == 0 then {} else NumbersBelow(n - 1) + {n - 1}
  }

  /** A list without repetition of members of `A` leaves some out exactly when it is
      shorter than `A` is large. */
  lemma NoneTwiceInside<T>(xs: seq<T>, A: set<T>)
    requires NoneTwice(xs) && forall x :: x in xs ==> x in A
    ensures |xs| <= |A| && (|xs| == |A| <==> forall x :: x in A ==> x in xs)
  {
    var members := set x | x in xs;
    NoneTwiceSize(xs);
    SubsetSize(members, A);
    if x :| x in A && x !in xs {
      SubsetSize(members + {x}, A);
    } else {
      assert members == A;
    }
  }
}
