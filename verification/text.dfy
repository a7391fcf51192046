/**
 * The string operations of Rust's `str` that the asset code relies on:
 * `starts_with`, `ends_with`, `strip_prefix`, `strip_suffix`, `contains`
 * and the `Ord` comparison. A Dafny `char` is a Unicode scalar value; UTF-8
 * preserves the order of scalar values, so comparing chars one by one gives
 * the same order as Rust's byte-wise comparison of `&str`.
 */
module Text {
  import opened Wrappers

  /** Rust's `std::cmp::Ordering`. */
  datatype Ordering = Less | Equal | Greater

  predicate StartsWith(s: string, p: string) {
    |p| <= |s| && s[..|p|] == p
  }

  predicate EndsWith(s: string, x: string) {
    |x| <= |s| && s[|s| - |x|..] == x
  }

  /** `str::strip_prefix`: the rest of `s` after `p`, if `s` starts with `p`. */
  function StripPrefix(s: string, p: string): (r: Option<string>)
    ensures r.Some? <==> StartsWith(s, p)
    ensures r.Some? ==> p + r.value == s
  {
    if StartsWith(s, p) then Some(s[|p|..]) else None
  }

  /** `str::strip_suffix`: what precedes `x` in `s`, if `s` ends with `x`. */
  function StripSuffix(s: string, x: string): (r: Option<string>)
    ensures r.Some? <==> EndsWith(s, x)
    ensures r.Some? ==> r.value + x == s
  {
    if EndsWith(s, x) then Some(s[..|s| - |x|]) else None
  }

  /** `str::contains(&str)`: `p` occurs somewhere in `s`; the empty pattern occurs everywhere. */
  predicate Contains(s: string, p: string)
    ensures Contains(s, p) ==> |p| <= |s|
    ensures p == [] ==> Contains(s, p)
    decreases |s|
  {
    StartsWith(s, p) || (s != [] && Contains(s[1..], p))
  }

  /** The reference meaning of `Contains`: `p` occurs at some offset of `s`. */
  ghost predicate OccursAt(s: string, p: string, i: nat) {
    i + |p| <= |s| && s[i..i + |p|] == p
  }

  lemma {:induction false} ContainsIffOccurs(s: string, p: string)
    ensures Contains(s, p) <==> exists i: nat :: OccursAt(s, p, i)
    decreases |s|
  {
    if StartsWith(s, p) {
      assert OccursAt(s, p, 0);
    } else if s == [] {
      assert forall i: nat :: !OccursAt(s, p, i);
    } else {
      ContainsIffOccurs(s[1..], p);
      if Contains(s[1..], p) {
        var i: nat :| OccursAt(s[1..], p, i);
        assert s[i + 1..i + 1 + |p|] == s[1..][i..i + |p|];
        assert OccursAt(s, p, i + 1);
      } else {
        forall i: nat | OccursAt(s, p, i) ensures false {
          if i > 0 {
            assert s[1..][i - 1..i - 1 + |p|] == s[i..i + |p|];
            assert OccursAt(s[1..], p, i - 1);
          }
        }
      }
    }
  }

  /** `Ord for str`: lexicographic, a proper prefix comes first. */
  function Compare(a: string, b: string): (r: Ordering)
    ensures StartsWith(b, a) ==> r == (if |a| == |b| then Equal else Less)
    ensures StartsWith(a, b) ==> r == (if |a| == |b| then Equal else Greater)
    decreases |a|
  {
    if a == [] then (if b == [] then Equal else Less)
    else if b == [] then Greater
    else if a[0] < b[0] then Less
    else if a[0] > b[0] then Greater
    else Compare(a[1..], b[1..])
  }

  /** `a < b` for `&str`, the relation `slice::sort` orders by. */
  predicate StrLess(a: string, b: string) {
    Compare(a, b) == Less
  }

  lemma {:induction false} CompareEqualIff(a: string, b: string)
    ensures Compare(a, b) == Equal <==> a == b
    decreases |a|
  {
    if a != [] && b != [] && a[0] == b[0] {
      CompareEqualIff(a[1..], b[1..]);
      if a[1..] == b[1..] {
        assert a == [a[0]] + a[1..] && b == [b[0]] + b[1..];
      }
    }
  }

  lemma {:induction false} CompareFlip(a: string, b: string)
    ensures Compare(a, b) == Less <==> Compare(b, a) == Greater
    decreases |a|
  {
    if a != [] && b != [] && a[0] == b[0] {
      CompareFlip(a[1..], b[1..]);
    }
  }

  lemma {:induction false} CompareTransitive(a: string, b: string, c: string)
    requires Compare(a, b) == Less && Compare(b, c) == Less
    ensures Compare(a, c) == Less
    decreases |a|
  {
    if a != [] && b != [] && c != [] && a[0] == b[0] && b[0] == c[0] {
      CompareTransitive(a[1..], b[1..], c[1..]);
    }
  }

  /** `a` and `b` agree before position `i` and differ there, with `a` holding the smaller character. */
  ghost predicate FirstDifferenceBelow(a: string, b: string, i: nat) {
    i < |a| && i < |b| && a[..i] == b[..i] && a[i] < b[i]
  }

  /**
   * The rule that makes `Compare` the byte order: `a` comes first when it is a
   * proper prefix of `b`, or when the first character where they differ is
   * smaller in `a`.
   */
  lemma {:induction false} CompareLessIff(a: string, b: string)
    ensures Compare(a, b) == Less <==>
              (StartsWith(b, a) && |a| < |b|) || exists i: nat :: FirstDifferenceBelow(a, b, i)
    decreases |a|
  {
    if a == [] || b == [] {
      assert forall i: nat :: !FirstDifferenceBelow(a, b, i);
    } else if a[0] < b[0] {
      assert FirstDifferenceBelow(a, b, 0);
    } else if a[0] > b[0] {
      assert forall i: nat :: FirstDifferenceBelow(a, b, i) ==> a[..i] == b[..i] && (i == 0 || a[..i][0] == a[0]);
    } else {
      CompareLessIff(a[1..], b[1..]);
      assert StartsWith(b, a) <==> StartsWith(b[1..], a[1..]) by {
        if |a| <= |b| {
          assert b[..|a|] == [b[0]] + b[1..][..|a| - 1];
          assert a == [a[0]] + a[1..];
        }
      }
      forall i: nat | FirstDifferenceBelow(a[1..], b[1..], i) ensures FirstDifferenceBelow(a, b, i + 1) {
        assert a[..i + 1] == [a[0]] + a[1..][..i];
        assert b[..i + 1] == [b[0]] + b[1..][..i];
      }
      forall i: nat | FirstDifferenceBelow(a, b, i) ensures i > 0 && FirstDifferenceBelow(a[1..], b[1..], i - 1) {
        assert a[1..][..i - 1] == a[..i][1..];
        assert b[1..][..i - 1] == b[..i][1..];
      }
    }
  }

  /** `StrLess` is a strict total order on strings. */
  lemma StrLessStrictTotal(a: string, b: string, c: string)
    ensures !StrLess(a, a)
    ensures StrLess(a, b) ==> !StrLess(b, a)
    ensures a != b ==> StrLess(a, b) || StrLess(b, a)
    ensures StrLess(a, b) && StrLess(b, c) ==> StrLess(a, c)
  {
    CompareEqualIff(a, a);
    CompareEqualIff(a, b);
    CompareFlip(a, b);
    CompareFlip(b, a);
    if StrLess(a, b) && StrLess(b, c) {
      CompareTransitive(a, b, c);
    }
  }
}
