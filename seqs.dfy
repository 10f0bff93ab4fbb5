/**
 * Sequence facts shared by the two elimination loops and the normaliser:
 * sums, filters and maps over sequences, the invariance of a sum under
 * reordering, and the "overwrite with the last live element" step both
 * loops use.
 */
module Seqs {

  /** Sum of `f` over the elements of `s`. */
  function SumOf<T>(s: seq<T>, f: T -> int): int
  {
    if s == [] then 0 else f(s[0]) + SumOf(s[1..], f)
  }

  lemma {:induction false} SumOfConcat<T>(a: seq<T>, b: seq<T>, f: T -> int)
    ensures SumOf(a + b, f) == SumOf(a, f) + SumOf(b, f)
  {
    if a == [] {
      assert a + b == b;
    } else {
      assert (a + b)[1..] == a[1..] + b;
      SumOfConcat(a[1..], b, f);
    }
  }

  /** A sum does not depend on the order of the elements. */
  lemma {:induction false} SumOfPerm<T>(a: seq<T>, b: seq<T>, f: T -> int)
    requires multiset(a) == multiset(b)
    ensures SumOf(a, f) == SumOf(b, f)
    decreases |a|
  {
    if a == [] {
      assert |b| == |multiset(b)| == 0;
    } else {
      var x := a[0];
      assert x in multiset(b);
      var k :| 0 <= k < |b| && b[k] == x;
      var rest := b[..k] + b[k + 1..];
      RemoveAt(b, k);
      assert a == [x] + a[1..];
      assert multiset(a[1..]) == multiset(rest);
      SumOfPerm(a[1..], rest, f);
      SumOfConcat(b[..k], b[k..], f);
      SumOfConcat(b[..k], b[k + 1..], f);
      assert b[k..][1..] == b[k + 1..];
      assert b == b[..k] + b[k..];
    }
  }

  /** The elements of `s` satisfying `p`, in their order. */
  function Filter<T>(s: seq<T>, p: T -> bool): (r: seq<T>)
    ensures forall x :: x in r ==> x in s && p(x)
    ensures |r| <= |s|
  {
    if s == [] then [] else (if p(s[0]) then [s[0]] else []) + Filter(s[1..], p)
  }

  /** `f` applied to every element of `s`. */
  function Map<T, U>(s: seq<T>, f: T -> U): (r: seq<U>)
    ensures |r| == |s|
    ensures forall i :: 0 <= i < |s| ==> r[i] == f(s[i])
  {
    if s == [] then [] else [f(s[0])] + Map(s[1..], f)
  }

  /** Taking out the element at `k` removes exactly one copy of it from the multiset. */
  lemma RemoveAt<T>(b: seq<T>, k: nat)
    requires k < |b|
    ensures multiset(b[..k] + b[k + 1..]) == multiset(b) - multiset{b[k]}
  {
    assert b == b[..k] + [b[k]] + b[k + 1..];
  }

  /**
   * Overwriting position `i` of the live prefix `s[..m]` with its last element and
   * shrinking the prefix by one drops exactly the old `s[i]` from `s[i..m]`.
   */
  lemma OverwriteWithLast<T>(s: seq<T>, i: nat, m: nat)
    requires i < m <= |s|
    ensures multiset(s[i := s[m - 1]][i..m - 1]) == multiset(s[i + 1..m])
  {
    var t := s[i := s[m - 1]];
    if i < m - 1 {
      assert t[i..m - 1] == [s[m - 1]] + s[i + 1..m - 1];
      assert s[i + 1..m] == s[i + 1..m - 1] + [s[m - 1]];
    }
  }

  /**
   * One step of a backward elimination scan over `s[..nx]`: a kept element `x`
   * joins the live suffix starting at `i`; a dropped one is overwritten by the
   * last live element and the live part shrinks by one. If the live suffix after
   * `i` held the elements of `u1`, it now holds those of `u0`.
   */
  lemma DropStep<T>(before: seq<T>, after: seq<T>, x: T, u0: seq<T>, u1: seq<T>,
                    i: nat, nx: nat, nx2: nat, keep: bool)
    requires i < nx <= |before| && before[i] == x
    requires multiset(before[i + 1..nx]) == multiset(u1)
    requires u0 == (if keep then [x] else []) + u1
    requires keep ==> after == before && nx2 == nx
    requires !keep ==> after == before[i := before[nx - 1]] && nx2 == nx - 1
    ensures multiset(after[i..nx2]) == multiset(u0)
  {
    if keep {
      KeepFirst(before, i, nx);
    } else {
      OverwriteWithLast(before, i, nx);
    }
  }

  /** The slice `s[i..m]` is `s[i]` followed by `s[i + 1..m]`. */
  lemma KeepFirst<T>(s: seq<T>, i: nat, m: nat)
    requires i < m <= |s|
    ensures multiset(s[i..m]) == multiset{s[i]} + multiset(s[i + 1..m])
  {
    assert s[i..m] == [s[i]] + s[i + 1..m];
  }
}
