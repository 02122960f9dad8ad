/**
 Generic facts about sequences: the subsequence relation and the
 order-preserving row filter that the dashboard uses both for the team
 selector and for the boxscore's zero-minutes rows.
 */
module Seqs {

  /** `a` can be obtained from `b` by deleting elements, keeping the rest in order. */
  predicate Subseq<T(==)>(a: seq<T>, b: seq<T>)
    decreases |b|
  {
    if a == [] then true
    else if b == [] then false
    else (a[0] == b[0] && Subseq(a[1..], b[1..])) || Subseq(a, b[1..])
  }

  /** Keeps the elements of `s` that satisfy `p`, in their original order
      (a boolean-mask row selection). */
  function Filter<T(==)>(s: seq<T>, p: T -> bool): (r: seq<T>)
    ensures Subseq(r, s)
    ensures forall i | 0 <= i < |r| :: p(r[i])
    ensures |r| <= |s|
  {
    if s == [] then []
    else
      var rest := Filter(s[1..], p);
      if p(s[0]) then
        var r := [s[0]] + rest;
        assert r[1..] == rest;
        r
      else
        rest
  }

  /** `Filter` keeps every `p`-element as often as `s` holds it. */
  lemma {:induction false} FilterCounts<T(!new)>(s: seq<T>, p: T -> bool)
    ensures forall x | p(x) :: multiset(Filter(s, p))[x] == multiset(s)[x]
    decreases |s|
  {
    if s != [] {
      FilterCounts(s[1..], p);
      assert s == [s[0]] + s[1..];
      var rest := Filter(s[1..], p);
      if p(s[0]) {
        assert Filter(s, p) == [s[0]] + rest;
      }
    }
  }

  /** A subsequence never holds an element more often than the sequence it comes from. */
  lemma {:induction false} SubseqMultiset<T>(a: seq<T>, b: seq<T>)
    requires Subseq(a, b)
    ensures multiset(a) <= multiset(b)
    decreases |b|
  {
    if a == [] {
    } else {
      assert b != [];
      assert b == [b[0]] + b[1..];
      if a[0] == b[0] && Subseq(a[1..], b[1..]) {
        SubseqMultiset(a[1..], b[1..]);
        assert a == [a[0]] + a[1..];
      } else {
        SubseqMultiset(a, b[1..]);
      }
    }
  }

  /** The three properties promised by `Filter` determine its result: any
      subsequence of `s` made only of `p`-elements and keeping every
      `p`-element as often as `s` does is exactly `Filter(s, p)`. */
  lemma {:induction false} FilterUnique<T(!new)>(s: seq<T>, p: T -> bool, r: seq<T>)
    requires Subseq(r, s)
    requires forall i | 0 <= i < |r| :: p(r[i])
    requires forall x | p(x) :: multiset(r)[x] == multiset(s)[x]
    ensures r == Filter(s, p)
    decreases |s|
  {
    if s == [] {
    } else {
      FilterCounts(s, p);
      var x := s[0];
      assert s == [x] + s[1..];
      if r != [] && r[0] == x && Subseq(r[1..], s[1..]) {
        assert r == [x] + r[1..];
        forall i | 0 <= i < |r[1..]|
          ensures p(r[1..][i])
        {
          assert r[1..][i] == r[i + 1];
        }
        FilterUnique(s[1..], p, r[1..]);
      } else {
        // r skips s[0]
        assert Subseq(r, s[1..]);
        SubseqMultiset(r, s[1..]);
        assert !p(x);
        forall y | p(y)
          ensures multiset(r)[y] == multiset(s[1..])[y]
        {
          assert y != x;
        }
        FilterUnique(s[1..], p, r);
      }
    }
  }

  /** Filtering distributes over concatenation. */
  lemma {:induction false} FilterAppend<T(!new)>(a: seq<T>, b: seq<T>, p: T -> bool)
    ensures Filter(a + b, p) == Filter(a, p) + Filter(b, p)
    decreases |a|
  {
    if a == [] {
      assert a + b == b;
    } else {
      assert (a + b)[1..] == a[1..] + b;
      assert (a + b)[0] == a[0];
      FilterAppend(a[1..], b, p);
    }
  }

  /** A filter every element passes is the identity. */
  lemma {:induction false} FilterAll<T(!new)>(s: seq<T>, p: T -> bool)
    requires forall i | 0 <= i < |s| :: p(s[i])
    ensures Filter(s, p) == s
    decreases |s|
  {
    if s != [] {
      FilterAll(s[1..], p);
    }
  }

  /** A filter no element passes is empty. */
  lemma {:induction false} FilterNone<T(!new)>(s: seq<T>, p: T -> bool)
    requires forall i | 0 <= i < |s| :: !p(s[i])
    ensures Filter(s, p) == []
    decreases |s|
  {
    if s != [] {
      FilterNone(s[1..], p);
    }
  }

  /** Applies `f` to every element (a column selection). */
  function Map<T, U>(s: seq<T>, f: T -> U): (r: seq<U>)
    ensures |r| == |s|
    ensures forall i | 0 <= i < |s| :: r[i] == f(s[i])
  {
    seq(|s|, i requires 0 <= i < |s| => f(s[i]))
  }

  /** Deleting the element at `k` removes one copy of it. */
  lemma RemoveAt<T>(r: seq<T>, k: nat)
    requires k < |r|
    ensures multiset(r[..k] + r[k + 1..]) == multiset(r) - multiset{r[k]}
  {
    assert r == r[..k] + [r[k]] + r[k + 1..];
  }

  lemma MapRemoveAt<T, U>(r: seq<T>, k: nat, f: T -> U)
    requires k < |r|
    ensures multiset(Map(r, f)) == multiset(Map(r[..k] + r[k + 1..], f)) + multiset{f(r[k])}
  {
    var c := Map(r, f);
    assert Map(r[..k] + r[k + 1..], f) == c[..k] + c[k + 1..];
    RemoveAt(c, k);
  }

  /** Some position of `r` holds `x`. */
  lemma IndexOf<T>(r: seq<T>, x: T) returns (k: nat)
    requires x in multiset(r)
    ensures k < |r| && r[k] == x
  {
    assert x in r;
    k :| 0 <= k < |r| && r[k] == x;
  }

  /** Deleting position `k` removes one copy of `r[k]` from `r` and one copy
      of `f(r[k])` from its image. */
  lemma DeleteAt<T, U>(r: seq<T>, k: nat, f: T -> U) returns (r': seq<T>)
    requires k < |r|
    ensures |r'| == |r| - 1
    ensures multiset(r') == multiset(r) - multiset{r[k]}
    ensures multiset(Map(r, f)) == multiset(Map(r', f)) + multiset{f(r[k])}
  {
    r' := r[..k] + r[k + 1..];
    RemoveAt(r, k);
    MapRemoveAt(r, k, f);
  }

  /** Permuting a sequence permutes its image. */
  lemma {:induction false} MapPerm<T, U>(a: seq<T>, b: seq<T>, f: T -> U)
    requires multiset(a) == multiset(b)
    ensures multiset(Map(a, f)) == multiset(Map(b, f))
    decreases |a|
  {
    if a != [] {
      var k := IndexOf(b, a[0]);
      var a' := DeleteAt(a, 0, f);
      var b' := DeleteAt(b, k, f);
      MapPerm(a', b', f);
    }
  }
}
