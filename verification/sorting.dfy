/**
 * The in-place sort behind `slice::sort` and `slice::sort_by`, over a
 * "less than" relation. Whatever the relation, the slice ends up a
 * permutation of what it held; only when the relation is a strict weak order
 * on the elements present is the outcome sorted (otherwise Rust leaves the
 * order unspecified).
 */
module Sorting {

  /** No element is less than one that precedes it. */
  ghost predicate SortedBy(less: (string, string) -> bool, s: seq<string>) {
    forall i, j :: 0 <= i < j < |s| ==> !less(s[j], s[i])
  }

  /** `less` is asymmetric and its complement transitive, among the elements of `s`. */
  ghost predicate StrictWeakOn(less: (string, string) -> bool, s: seq<string>) {
    && (forall x, y :: x in s && y in s && less(x, y) ==> !less(y, x))
    && (forall x, y, z :: x in s && y in s && z in s && !less(x, y) && !less(y, z) ==> !less(x, z))
  }

  /** `x` is an element of `s` that no element of `s` is less than: what the first element of a sorted slice is. */
  ghost predicate IsLeast(less: (string, string) -> bool, s: seq<string>, x: string) {
    x in s && forall y :: y in s ==> !less(y, x)
  }

  /** On two elements, an irreflexive relation that is not symmetric-both-ways is a strict weak order. */
  lemma PairStrictWeak(less: (string, string) -> bool, a: string, b: string)
    requires !less(a, a) && !less(b, b) && !(less(a, b) && less(b, a))
    ensures StrictWeakOn(less, [a, b])
  {
  }

  /** `b` is least in `[a, b]` when neither element is less than it. */
  lemma PairLeast(less: (string, string) -> bool, a: string, b: string)
    requires !less(a, b) && !less(b, b)
    ensures IsLeast(less, [a, b], b)
  {
  }

  /** `a` is least in `[c, b, a]` when no element is less than it. */
  lemma ChainLeast(less: (string, string) -> bool, s: seq<string>, a: string, b: string, c: string)
    requires s == [c, b, a]
    requires !less(a, a) && !less(b, a) && !less(c, a)
    ensures IsLeast(less, s, a)
  {
  }

  /** Of two elements, the one less than the other is the least. */
  lemma LeastOfPair(less: (string, string) -> bool, a: string, b: string, x: string)
    requires !less(a, a) && !less(b, b) && less(b, a) && !less(a, b)
    requires StrictWeakOn(less, [a, b]) ==> IsLeast(less, [a, b], x)
    requires x in [a, b]
    ensures x == b
  {
    PairStrictWeak(less, a, b);
    assert b in [a, b];
  }

  /** Three elements `c`, `b`, `a` in a descending chain form a strict weak order whose least element is `a`. */
  lemma LeastOfChain(less: (string, string) -> bool, s: seq<string>, a: string, b: string, c: string, x: string)
    requires s == [c, b, a]
    requires less(a, b) && less(b, c) && less(a, c)
    requires !less(a, a) && !less(b, b) && !less(c, c) && !less(b, a) && !less(c, b) && !less(c, a)
    requires StrictWeakOn(less, s) ==> IsLeast(less, s, x)
    ensures x == a
  {
    assert StrictWeakOn(less, s);
  }

  /** Three elements on which "not less" fails to be transitive rule out a strict weak order. */
  lemma NotStrictWeak(less: (string, string) -> bool, s: seq<string>, x: string, y: string, z: string)
    requires x in s && y in s && z in s
    requires !less(x, y) && !less(y, z) && less(x, z)
    ensures !StrictWeakOn(less, s)
  {
  }

  /** `s[..n + 1]` is in order once the element at `j` is disregarded. */
  ghost predicate SortedExcept(less: (string, string) -> bool, s: seq<string>, n: int, j: int) {
    forall k, l :: 0 <= k < l <= n && l < |s| && k != j && l != j ==> !less(s[l], s[k])
  }

  /** The element at `j` is less than every element after it up to `n`. */
  ghost predicate LessThanFollowers(less: (string, string) -> bool, s: seq<string>, j: int, n: int) {
    0 <= j < |s| && forall l :: j < l <= n && l < |s| ==> less(s[j], s[l])
  }

  /** The first element of a sorted permutation of `orig` is least in `orig`. */
  lemma FirstOfSorted(less: (string, string) -> bool, orig: seq<string>, s: seq<string>)
    requires s != [] && multiset(s) == multiset(orig)
    requires StrictWeakOn(less, orig) ==> SortedBy(less, s)
    ensures s[0] in orig
    ensures StrictWeakOn(less, orig) ==> IsLeast(less, orig, s[0])
  {
    assert s[0] in multiset(s);
    if StrictWeakOn(less, orig) {
      forall y | y in orig ensures !less(y, s[0]) {
        assert y in multiset(s);
      }
    }
  }

  /** Insertion sort, moving each element down past the ones it is less than. */
  method SortBy(a: array<string>, less: (string, string) -> bool)
    modifies a
    ensures multiset(a[..]) == multiset(old(a[..]))
    ensures StrictWeakOn(less, old(a[..])) ==> SortedBy(less, a[..])
  {
    ghost var orig := a[..];
    var i := 0;
    while i < a.Length
      invariant 0 <= i <= a.Length
      invariant multiset(a[..]) == multiset(orig)
      invariant StrictWeakOn(less, orig) ==> SortedExcept(less, a[..], i - 1, -1)
    {
      InsertDown(a, i, less, orig);
      i := i + 1;
    }
  }

  /** One pass of insertion sort: moves `a[i]` down into the sorted prefix `a[..i]`. */
  method InsertDown(a: array<string>, i: int, less: (string, string) -> bool, ghost orig: seq<string>)
    requires 0 <= i < a.Length
    requires multiset(a[..]) == multiset(orig)
    modifies a
    ensures multiset(a[..]) == multiset(orig)
    ensures StrictWeakOn(less, orig) && old(SortedExcept(less, a[..], i - 1, -1)) ==> SortedExcept(less, a[..], i, -1)
  {
    ghost var ok := StrictWeakOn(less, orig) && SortedExcept(less, a[..], i - 1, -1);
    var j := i;
    while j > 0 && less(a[j], a[j - 1])
      invariant 0 <= j <= i
      invariant multiset(a[..]) == multiset(orig)
      invariant ok ==> SortedExcept(less, a[..], i, j)
      invariant LessThanFollowers(less, a[..], j, i)
    {
      ghost var before := a[..];
      a[j - 1], a[j] := a[j], a[j - 1];
      SwapDownKeepsOrder(less, before, a[..], i, j);
      j := j - 1;
    }
    if ok {
      Inserted(less, orig, a[..], i, j);
    }
  }

  /** Swapping the moving element one step down keeps both loop invariants. */
  lemma SwapDownKeepsOrder(less: (string, string) -> bool, s: seq<string>, t: seq<string>, i: int, j: int)
    requires 0 < j <= i < |s| == |t|
    requires less(s[j], s[j - 1])
    requires t == s[j - 1 := s[j]][j := s[j - 1]]
    requires LessThanFollowers(less, s, j, i)
    ensures SortedExcept(less, s, i, j) ==> SortedExcept(less, t, i, j - 1)
    ensures LessThanFollowers(less, t, j - 1, i)
    ensures multiset(t) == multiset(s)
  {
  }

  /** When the moving element stops, the prefix up to `i` is in order. */
  lemma Inserted(less: (string, string) -> bool, orig: seq<string>, s: seq<string>, i: int, j: int)
    requires 0 <= j <= i < |s|
    requires StrictWeakOn(less, orig)
    requires multiset(s) == multiset(orig)
    requires SortedExcept(less, s, i, j)
    requires LessThanFollowers(less, s, j, i)
    requires j == 0 || !less(s[j], s[j - 1])
    ensures SortedExcept(less, s, i, -1)
  {
    forall k, l | 0 <= k < l <= i
      ensures !less(s[l], s[k])
    {
      if l == j {
        if k < j - 1 {
          assert s[j] in multiset(s) && s[j - 1] in multiset(s) && s[k] in multiset(s);
          assert !less(s[j - 1], s[k]);
        }
      } else if k == j {
        assert s[j] in multiset(s) && s[l] in multiset(s);
        assert less(s[j], s[l]);
      }
    }
  }
}
