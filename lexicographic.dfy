/**
 * The comparison behind `basic_string_view::compare` and the non-member
 * relational operators: `char_traits<char>::compare` over the common
 * length, then the shorter view is the smaller one.
 */
module Lexicographic {
  import opened Basics

  /**
   * `a` comes before `b` in dictionary order: at the first position where
   * they differ `a` has the smaller character, or `a` is a proper prefix of `b`.
   */
  ghost predicate Precedes(a: seq<Char>, b: seq<Char>) {
    || (exists k :: 0 <= k < |a| && k < |b| && a[..k] == b[..k] && a[k] < b[k])
    || (|a| < |b| && a == b[..|a|])
  }

  /**
   * `char_traits<char>::compare(s1, s2, n)` on two ranges of length n:
   * the sign of the first difference, 0 when there is none. The library
   * returns any value of that sign; only the sign is used.
   */
  function TraitsCompare(a: seq<Char>, b: seq<Char>): (r: int)
    requires |a| == |b|
    ensures -1 <= r <= 1
    ensures r == 0 <==> a == b
    decreases |a|
  {
    if a == [] then 0
    else if a[0] < b[0] then -1
    else if b[0] < a[0] then 1
    else
      var r := TraitsCompare(a[1..], b[1..]);
      assert a == [a[0]] + a[1..] && b == [b[0]] + b[1..];
      r
  }

  /**
   * `compare(basic_string_view v)` after its fast path
   * (string_view.hpp:330-340): -1, 0 or +1.
   */
  function Compare(a: seq<Char>, b: seq<Char>): (r: int)
    ensures r == -1 || r == 0 || r == 1
    ensures r == 0 <==> a == b
  {
    var n := Min(|a|, |b|);
    var result := TraitsCompare(a[..n], b[..n]);
    if result < 0 then -1
    else if result > 0 then 1
    else if |a| < |b| then -1
    else if |a| > |b| then 1
    else
      assert a == a[..n] && b == b[..n];
      0
  }

  /** `TraitsCompare` is negative exactly when the first difference favours `a`. */
  lemma {:induction false} TraitsCompareFirstDifference(a: seq<Char>, b: seq<Char>)
    requires |a| == |b|
    ensures TraitsCompare(a, b) == -1 <==>
      exists k :: 0 <= k < |a| && a[..k] == b[..k] && a[k] < b[k]
    ensures TraitsCompare(a, b) == 1 <==>
      exists k :: 0 <= k < |a| && a[..k] == b[..k] && b[k] < a[k]
    decreases |a|
  {
    if a == [] {
    } else if a[0] != b[0] {
      // The first characters differ, so only k == 0 has equal prefixes.
      assert a[..0] == b[..0];
      forall k | 0 < k <= |a| ensures a[..k][0] == a[0] && b[..k][0] == b[0] {
      }
    } else {
      var a', b' := a[1..], b[1..];
      TraitsCompareFirstDifference(a', b');
      // A first difference of the tails at k is one of the whole at k + 1.
      forall k | 0 <= k < |a'| && a'[..k] == b'[..k]
        ensures a[..k + 1] == b[..k + 1] && a[k + 1] == a'[k] && b[k + 1] == b'[k]
      {
        assert a[..k + 1] == [a[0]] + a'[..k];
        assert b[..k + 1] == [b[0]] + b'[..k];
      }
      // And a difference of the whole at k lies in the tails, at k - 1.
      forall k | 0 <= k < |a| && a[..k] == b[..k] && a[k] != b[k]
        ensures 0 < k && a'[..k - 1] == b'[..k - 1] && a'[k - 1] == a[k] && b'[k - 1] == b[k]
      {
        assert a[..k][1..] == a'[..k - 1];
        assert b[..k][1..] == b'[..k - 1];
      }
    }
  }

  /** `Compare` is -1 exactly when `a` precedes `b`, and +1 exactly when `b` precedes `a`. */
  lemma CompareIsLexicographic(a: seq<Char>, b: seq<Char>)
    ensures Compare(a, b) == -1 <==> Precedes(a, b)
    ensures Compare(a, b) == 1 <==> Precedes(b, a)
  {
    var n := Min(|a|, |b|);
    var a', b' := a[..n], b[..n];
    TraitsCompareFirstDifference(a', b');
    // A difference within the common length reads the same on the prefixes.
    forall k | 0 <= k < n ensures a'[..k] == a[..k] && b'[..k] == b[..k] && a'[k] == a[k] && b'[k] == b[k] {
    }
    if a' == b' {
      // Equal on the common length: no position differs there.
      forall k | 0 <= k < |a| && k < |b| && a[..k] == b[..k] ensures a[k] == b[k] {
        assert a'[k] == b'[k];
      }
      if |a| < |b| {
        assert a == a';
      } else if |b| < |a| {
        assert b == b';
      }
    }
  }

  /** Swapping the operands negates the result. */
  lemma CompareAntisymmetric(a: seq<Char>, b: seq<Char>)
    ensures Compare(a, b) == -Compare(b, a)
  {
    CompareIsLexicographic(a, b);
    CompareIsLexicographic(b, a);
  }
}
