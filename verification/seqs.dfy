/** Order-preserving searches, filters and counts over sequences: the parts of
    LINQ (`FirstOrDefault`, `Where`, `Count`) the parking lot is built on,
    evaluated eagerly. */
module Seqs {
  import opened Wrappers

  /** `k` is the index of the first element of `s` that satisfies `p`. */
  predicate IsFirst<T>(s: seq<T>, p: T -> bool, k: int) {
    && 0 <= k < |s|
    && p(s[k])
    && forall j :: 0 <= j < k ==> !p(s[j])
  }

  lemma IsFirstUnique<T>(s: seq<T>, p: T -> bool, j: int, k: int)
    requires IsFirst(s, p, j) && IsFirst(s, p, k)
    ensures j == k
  {
  }

  /** The index of the first element satisfying `p`, or None when there is
      none (the index form of `FirstOrDefault`). */
  function FindFirst<T>(s: seq<T>, p: T -> bool): (r: Option<nat>)
    ensures r.Some? ==> IsFirst(s, p, r.value)
    ensures r.None? <==> forall i :: 0 <= i < |s| ==> !p(s[i])
  {
    if |s| == 0 then None
    else if p(s[0]) then Some(0)
    else match FindFirst(s[1..], p)
      case None => None
      case Some(k) =>
        assert forall j :: 1 <= j < k + 1 ==> s[j] == s[1..][j - 1];
        Some(k + 1)
  }

  /** The elements of `s` satisfying `p`, in their order in `s`. */
  function Where<T(!new)>(s: seq<T>, p: T -> bool): (r: seq<T>)
    ensures |r| <= |s|
    ensures forall x :: x in r <==> x in s && p(x)
  {
    if |s| == 0 then []
    else if p(s[0]) then [s[0]] + Where(s[1..], p)
    else Where(s[1..], p)
  }

  /** How many elements of `s` satisfy `p`. */
  function CountWhere<T(!new)>(s: seq<T>, p: T -> bool): (n: nat)
    ensures n <= |s|
    ensures n == 0 <==> forall x :: x in s ==> !p(x)
    ensures n == |s| <==> forall x :: x in s ==> p(x)
  {
    if |s| == 0 then 0
    else
      assert forall x :: x in s <==> x == s[0] || x in s[1..];
      (if p(s[0]) then 1 else 0) + CountWhere(s[1..], p)
  }

  /** Counting agrees with the length of the filtered sequence. */
  lemma {:induction false} CountIsLength<T(!new)>(s: seq<T>, p: T -> bool)
    ensures CountWhere(s, p) == |Where(s, p)|
  {
    if |s| > 0 {
      CountIsLength(s[1..], p);
    }
  }

  /** Two complementary predicates count every element exactly once. */
  lemma {:induction false} CountComplement<T(!new)>(s: seq<T>, p: T -> bool, q: T -> bool)
    requires forall x :: q(x) <==> !p(x)
    ensures CountWhere(s, p) + CountWhere(s, q) == |s|
  {
    if |s| > 0 {
      CountComplement(s[1..], p, q);
    }
  }

  /** Replacing one element changes a count only by what that element
      contributed before and after. */
  lemma {:induction false} CountUpdate<T(!new)>(s: seq<T>, k: int, v: T, p: T -> bool)
    requires 0 <= k < |s|
    ensures CountWhere(s[k := v], p)
            == CountWhere(s, p) - (if p(s[k]) then 1 else 0) + (if p(v) then 1 else 0)
  {
    if k == 0 {
      assert s[k := v][1..] == s[1..];
    } else {
      assert s[k := v][1..] == s[1..][k - 1 := v];
      CountUpdate(s[1..], k - 1, v, p);
    }
  }

  /** Filtering distributes over concatenation: the kept elements of `a`
      come first, in their order, then those of `b`. With the one-element
      case this fixes the filter's order completely. */
  lemma {:induction false} WhereConcat<T(!new)>(a: seq<T>, b: seq<T>, p: T -> bool)
    ensures Where(a + b, p) == Where(a, p) + Where(b, p)
  {
    if |a| > 0 {
      assert (a + b)[1..] == a[1..] + b;
      WhereConcat(a[1..], b, p);
    } else {
      assert a + b == b;
    }
  }

  /** The filter keeps every copy of a kept element and no copy of a
      dropped one. */
  lemma {:induction false} WhereMultiplicity<T(!new)>(s: seq<T>, p: T -> bool, x: T)
    ensures multiset(Where(s, p))[x] == if p(x) then multiset(s)[x] else 0
  {
    if |s| > 0 {
      assert s == [s[0]] + s[1..];
      WhereMultiplicity(s[1..], p, x);
    }
  }
}
