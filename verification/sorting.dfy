/**
 Descending sort of a sequence by a real-valued key, generic in the
 element type. The order among elements with equal keys is not part of
 any contract here: only "permutation, non-increasing key" is promised,
 and the key column of the result is shown not to depend on tie order.
 */
module Sorting {

  import opened Seqs

  /** Non-increasing in `key`. */
  ghost predicate Descending<T>(r: seq<T>, key: T -> real)
  {
    forall i, j | 0 <= i < j < |r| :: key(r[i]) >= key(r[j])
  }

  /** Every element of `r` has a key at most `bound`. */
  ghost predicate AllAtMost<T>(r: seq<T>, key: T -> real, bound: real)
  {
    forall i | 0 <= i < |r| :: key(r[i]) <= bound
  }

  /** Putting an element no smaller than all of `r` in front keeps it descending. */
  lemma ConsDescending<T>(y: T, r: seq<T>, key: T -> real)
    requires Descending(r, key) && AllAtMost(r, key, key(y))
    ensures Descending([y] + r, key)
  {
    var q := [y] + r;
    forall i, j | 0 <= i < j < |q|
      ensures key(q[i]) >= key(q[j])
    {
      assert q[j] == r[j - 1];
      if i > 0 {
        assert q[i] == r[i - 1];
      }
    }
  }

  /** The rest of a descending list is descending and bounded by its head. */
  lemma TailDescending<T>(r: seq<T>, key: T -> real)
    requires Descending(r, key) && r != []
    ensures Descending(r[1..], key)
    ensures AllAtMost(r[1..], key, key(r[0]))
  {
    var tail := r[1..];
    forall i, j | 0 <= i < j < |tail|
      ensures key(tail[i]) >= key(tail[j])
    {
      assert tail[i] == r[i + 1] && tail[j] == r[j + 1];
    }
    forall i | 0 <= i < |tail|
      ensures key(tail[i]) <= key(r[0])
    {
      assert tail[i] == r[i + 1];
    }
  }

  /** A bound on every element carries over to a permutation with `x` added. */
  lemma AtMostPerm<T>(a: seq<T>, b: seq<T>, x: T, key: T -> real, bound: real)
    requires AllAtMost(b, key, bound) && key(x) <= bound
    requires multiset(a) == multiset(b) + multiset{x}
    ensures AllAtMost(a, key, bound)
  {
    forall i | 0 <= i < |a|
      ensures key(a[i]) <= bound
    {
      assert a[i] in multiset(a);
      if a[i] != x {
        assert a[i] in multiset(b);
        var m :| 0 <= m < |b| && b[m] == a[i];
      }
    }
  }

  /** Places `x` into the descending list `r`. */
  function Insert<T(==)>(x: T, r: seq<T>, key: T -> real): (q: seq<T>)
    requires Descending(r, key)
    ensures multiset(q) == multiset(r) + multiset{x}
    ensures Descending(q, key)
    decreases |r|
  {
    if r == [] then [x]
    else if key(x) >= key(r[0]) then
      assert AllAtMost(r, key, key(x)) by {
        forall i | 0 <= i < |r| ensures key(r[i]) <= key(x) { }
      }
      ConsDescending(x, r, key);
      [x] + r
    else
      TailDescending(r, key);
      var rest := Insert(x, r[1..], key);
      AtMostPerm(rest, r[1..], x, key, key(r[0]));
      ConsDescending(r[0], rest, key);
      assert r == [r[0]] + r[1..];
      [r[0]] + rest
  }

  /** A permutation of `t` in non-increasing order of `key`. */
  function SortDesc<T(==)>(t: seq<T>, key: T -> real): (r: seq<T>)
    ensures multiset(r) == multiset(t)
    ensures |r| == |t|
    ensures Descending(r, key)
    decreases |t|
  {
    if t == [] then []
    else
      assert t == [t[0]] + t[1..];
      Insert(t[0], SortDesc(t[1..], key), key)
  }

  /** The first `k` elements of a descending list are descending, and every
      element after them has a key no larger than any of theirs. */
  lemma HeadKeepsLargest<T>(sorted: seq<T>, key: T -> real, k: nat)
    requires Descending(sorted, key) && k <= |sorted|
    ensures Descending(sorted[..k], key)
    ensures multiset(sorted[..k]) <= multiset(sorted)
    ensures forall x, i | x in multiset(sorted) - multiset(sorted[..k]) && 0 <= i < k ::
      key(x) <= key(sorted[i])
  {
    var head, tail := sorted[..k], sorted[k..];
    assert sorted == head + tail;
    assert multiset(sorted) == multiset(head) + multiset(tail);
    assert multiset(sorted) - multiset(head) == multiset(tail);
    forall x, i | x in multiset(sorted) - multiset(head) && 0 <= i < k
      ensures key(x) <= key(sorted[i])
    {
      assert x in tail;
      var j :| 0 <= j < |tail| && tail[j] == x;
      assert sorted[k + j] == x;
    }
  }

  /** Non-increasing list of numbers. */
  ghost predicate NonIncreasing(c: seq<real>)
  {
    forall i, j | 0 <= i < j < |c| :: c[i] >= c[j]
  }

  /** Two non-increasing lists with the same elements start with the same
      (largest) number. */
  lemma SameMaximum(c: seq<real>, d: seq<real>)
    requires NonIncreasing(c) && NonIncreasing(d)
    requires multiset(c) == multiset(d) && c != []
    ensures d != [] && c[0] == d[0]
  {
    assert |c| == |multiset(c)| == |multiset(d)| == |d|;
    assert d[0] in multiset(c);
    var i :| 0 <= i < |c| && c[i] == d[0];
    assert c[0] in multiset(d);
    var j :| 0 <= j < |d| && d[j] == c[0];
  }

  /** Dropping the first number keeps a list non-increasing and removes one
      copy of that number. */
  lemma DropFirst(c: seq<real>)
    requires NonIncreasing(c) && c != []
    ensures NonIncreasing(c[1..])
    ensures multiset(c[1..]) == multiset(c) - multiset{c[0]}
  {
    assert c == [c[0]] + c[1..];
    forall i, j | 0 <= i < j < |c[1..]|
      ensures c[1..][i] >= c[1..][j]
    {
      assert c[1..][i] == c[i + 1] && c[1..][j] == c[j + 1];
    }
  }

  /** A multiset of numbers has only one non-increasing listing. */
  lemma {:induction false} NonIncreasingUnique(c: seq<real>, d: seq<real>)
    requires NonIncreasing(c) && NonIncreasing(d)
    requires multiset(c) == multiset(d)
    ensures c == d
    decreases |c|
  {
    if c == [] {
      assert |d| == |multiset(d)| == 0;
    } else {
      SameMaximum(c, d);
      DropFirst(c);
      DropFirst(d);
      NonIncreasingUnique(c[1..], d[1..]);
      assert c == [c[0]] + c[1..];
      assert d == [d[0]] + d[1..];
    }
  }

  /** Two descending orders of the same elements differ at most in how they
      order ties: their key columns are identical. */
  lemma TieOrderIrrelevant<T>(a: seq<T>, b: seq<T>, key: T -> real)
    requires multiset(a) == multiset(b)
    requires Descending(a, key) && Descending(b, key)
    ensures Map(a, key) == Map(b, key)
  {
    MapPerm(a, b, key);
    NonIncreasingUnique(Map(a, key), Map(b, key));
  }
}
