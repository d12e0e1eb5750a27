/**
 * The search family of `basic_string_view` (`find`, `rfind`,
 * `find_first_of`, `find_last_of`, `find_first_not_of`,
 * `find_last_not_of`), modelled on the contents of the haystack view and of
 * the needle view: their results depend on nothing else.
 *
 * Each member is written the way the header computes it: a standard
 * algorithm (`std::search`, `std::find_first_of`, `std::find_if`,
 * `char_traits::find`) run over an index range, forward from
 * `begin() + pos` or backward from `rbegin() + off`, then turned into an
 * index or `npos`. Each member's postcondition then says what that index is.
 */
module Search {
  import opened Basics

  /** The needle `v` occurs in `s` starting at index `i`. */
  predicate OccursAt(s: seq<Char>, v: seq<Char>, i: nat) {
    i + |v| <= |s| && s[i..i + |v|] == v
  }

  /** The sequence a `reverse_iterator` walks: `s` read from the back. */
  function Reverse(s: seq<Char>): (r: seq<Char>)
    ensures |r| == |s|
    ensures forall i :: 0 <= i < |s| ==> r[i] == s[|s| - 1 - i]
  {
    seq(|s|, i requires 0 <= i < |s| => s[|s| - 1 - i])
  }

  /**
   * `std::search(first1, last1, first2, last2)` with the haystack range
   * [first, |h|): the least index in it from which `n` occurs, or |h| (the
   * `last1` iterator) when there is none. An empty needle matches at `first`.
   */
  function SearchFrom(h: seq<Char>, n: seq<Char>, first: nat): (r: nat)
    requires first <= |h|
    ensures first <= r <= |h|
    ensures r < |h| ==> OccursAt(h, n, r)
    ensures forall i :: first <= i < r ==> !OccursAt(h, n, i)
    decreases |h| - first
  {
    if first == |h| then first
    else if OccursAt(h, n, first) then first
    else SearchFrom(h, n, first + 1)
  }

  /**
   * `std::find_if(first, last, p)` with the range [first, |h|): the least
   * index in it whose character satisfies `p`, or |h| when there is none.
   * `std::find_first_of(first, last, s_first, s_last)` is this with
   * `p(c) == (c in needle)`.
   */
  function FindIf(h: seq<Char>, p: Char -> bool, first: nat): (r: nat)
    requires first <= |h|
    ensures first <= r <= |h|
    ensures r < |h| ==> p(h[r])
    ensures forall i :: first <= i < r ==> !p(h[i])
    decreases |h| - first
  {
    if first == |h| then first
    else if p(h[first]) then first
    else FindIf(h, p, first + 1)
  }

  /**
   * `find(CharT c, pos)` (string_view.hpp:373-377): `char_traits::find` over
   * the `size - pos` characters from `pos`. A `pos` past the end makes
   * `size_ - pos` wrap around, which is undefined, hence the precondition.
   */
  function FindChar(s: seq<Char>, c: Char, pos: nat := 0): (r: nat)
    requires pos <= |s| < NPOS
    ensures r == NPOS <==> forall i :: pos <= i < |s| ==> s[i] != c
    ensures r != NPOS ==> pos <= r < |s| && s[r] == c && forall i :: pos <= i < r ==> s[i] != c
    decreases |s| - pos
  {
    if pos == |s| then NPOS
    else if s[pos] == c then pos
    else FindChar(s, c, pos + 1)
  }

  /**
   * `find(basic_string_view v, pos)` (string_view.hpp:367-371): search from
   * `begin() + pos`, which the iterator clamps to the end; a match at
   * `end()` (an empty needle there) also reads as `npos`. The result is the
   * least i with pos <= i < size at which `v` occurs.
   */
  function Find(s: seq<Char>, v: seq<Char>, pos: nat := 0): (r: nat)
    requires |s| < NPOS
    ensures r == NPOS <==> forall i :: pos <= i < |s| ==> !OccursAt(s, v, i)
    ensures r != NPOS ==> pos <= r < |s| && OccursAt(s, v, r)
    ensures r != NPOS ==> forall i :: pos <= i < r ==> !OccursAt(s, v, i)
  {
    var i := SearchFrom(s, v, Min(pos, |s|));
    if i == |s| then NPOS else i
  }

  /** An occurrence of `v` at `j` is one of `Reverse(v)` in `Reverse(s)` at `|s| - |v| - j`. */
  lemma ReverseOccursForward(s: seq<Char>, v: seq<Char>, j: nat)
    requires OccursAt(s, v, j)
    ensures OccursAt(Reverse(s), Reverse(v), |s| - |v| - j)
  {
  }

  /** The converse of `ReverseOccursForward`. */
  lemma ReverseOccursBackward(s: seq<Char>, v: seq<Char>, j: nat)
    requires j + |v| <= |s|
    requires OccursAt(Reverse(s), Reverse(v), |s| - |v| - j)
    ensures OccursAt(s, v, j)
  {
    var d := |s| - |v| - j;
    var rs, rv := Reverse(s), Reverse(v);
    forall u | 0 <= u < |v| ensures s[j + u] == v[u] {
      var t := |v| - 1 - u;
      assert rs[d..d + |v|][t] == rs[d + t];
      assert |s| - 1 - (d + t) == j + u && |v| - 1 - t == u;
      assert rs[d + t] == s[j + u] && rv[t] == v[u];
    }
    assert s[j..j + |v|] == v;
  }

  /** Reading `s` from the back, `Reverse(v)` occurs where `v` occurs in `s`. */
  lemma ReverseOccurs(s: seq<Char>, v: seq<Char>, j: nat)
    requires j + |v| <= |s|
    ensures OccursAt(Reverse(s), Reverse(v), |s| - |v| - j) <==> OccursAt(s, v, j)
  {
    if OccursAt(s, v, j) {
      ReverseOccursForward(s, v, j);
    }
    if OccursAt(Reverse(s), Reverse(v), |s| - |v| - j) {
      ReverseOccursBackward(s, v, j);
    }
  }

  /**
   * What a reverse `std::search` from `rbegin() + (size - e)` finds, in
   * forward indices: `d` is a reverse offset, and `size - |v| - d` the
   * forward index of the match it reports.
   */
  lemma ReverseSearchMeaning(s: seq<Char>, v: seq<Char>, e: nat, d: nat)
    requires e <= |s|
    requires d == SearchFrom(Reverse(s), Reverse(v), |s| - e)
    ensures d < |s| ==> d + |v| <= |s|
    ensures d < |s| ==> var r := |s| - |v| - d;
      0 < r + |v| <= e && OccursAt(s, v, r)
      && forall j: nat :: r < j && j + |v| <= e ==> !OccursAt(s, v, j)
    ensures d == |s| <==> forall j: nat :: 0 < j + |v| <= e ==> !OccursAt(s, v, j)
  {
    var rs, rv := Reverse(s), Reverse(v);
    if d < |s| {
      var r := |s| - |v| - d;
      ReverseOccurs(s, v, r);
      forall j: nat | r < j && j + |v| <= e ensures !OccursAt(s, v, j) {
        ReverseOccurs(s, v, j);
        assert !OccursAt(rs, rv, |s| - |v| - j);
      }
    } else {
      forall j: nat | 0 < j + |v| <= e ensures !OccursAt(s, v, j) {
        ReverseOccurs(s, v, j);
        assert !OccursAt(rs, rv, |s| - |v| - j);
      }
    }
  }

  /**
   * `rfind(basic_string_view v, pos)` (string_view.hpp:389-395): the offset
   * from the end is `size - pos` (0 when `pos >= size`), the reversed needle
   * is searched for from `rbegin()` plus that offset, and a match `d`
   * reverse steps from `rbegin()` is reported as `size - |v| - d`.
   * So the result is the greatest j whose occurrence ends at or before
   * min(pos, size): unlike C++17, an occurrence starting at `pos` itself is
   * not found. A match at `rend()` (an empty needle with nothing before
   * `pos`) reads as `npos`, hence 0 < j + |v|.
   */
  function RFind(s: seq<Char>, v: seq<Char>, pos: nat := NPOS): (r: nat)
    requires |s| < NPOS
    ensures r == NPOS <==> forall j: nat :: 0 < j + |v| <= Min(pos, |s|) ==> !OccursAt(s, v, j)
    ensures r != NPOS ==> 0 < r + |v| <= Min(pos, |s|) && OccursAt(s, v, r)
    ensures r != NPOS ==> forall j: nat :: r < j && j + |v| <= Min(pos, |s|) ==> !OccursAt(s, v, j)
  {
    var off := if pos >= |s| then 0 else |s| - pos;
    var d := SearchFrom(Reverse(s), Reverse(v), off);
    ReverseSearchMeaning(s, v, Min(pos, |s|), d);
    if d == |s| then NPOS else |s| - |v| - d
  }

  /**
   * What a reverse `std::find_if` from `rbegin() + (size - e)` finds, in
   * forward indices: the reverse offset `d` is the forward index `size - d - 1`.
   */
  lemma ReverseFindIfMeaning(s: seq<Char>, p: Char -> bool, e: nat, d: nat)
    requires e <= |s|
    requires d == FindIf(Reverse(s), p, |s| - e)
    ensures d < |s| ==> var r := |s| - d - 1;
      r < e && p(s[r]) && forall i :: r < i < e ==> !p(s[i])
    ensures d == |s| <==> forall i :: 0 <= i < e ==> !p(s[i])
  {
    var rs := Reverse(s);
    if d < |s| {
      var r := |s| - d - 1;
      forall i | r < i < e ensures !p(s[i]) {
        assert rs[|s| - 1 - i] == s[i];
      }
    } else {
      forall i | 0 <= i < e ensures !p(s[i]) {
        assert rs[|s| - 1 - i] == s[i];
      }
    }
  }

  /**
   * `find_first_of(basic_string_view v, pos)` (string_view.hpp:412-417):
   * `std::find_first_of` from `begin() + pos`. The least index at or after
   * `pos` whose character is one of `v`'s; an empty `v` finds nothing.
   */
  function FindFirstOf(s: seq<Char>, v: seq<Char>, pos: nat := 0): (r: nat)
    requires |s| < NPOS
    ensures r == NPOS <==> forall i :: pos <= i < |s| ==> s[i] !in v
    ensures r != NPOS ==> pos <= r < |s| && s[r] in v && forall i :: pos <= i < r ==> s[i] !in v
  {
    var i := FindIf(s, (c: Char) => c in v, Min(pos, |s|));
    if i == |s| then NPOS else i
  }

  /**
   * `find_last_of(basic_string_view v, pos)` (string_view.hpp:434-441):
   * `std::find_first_of` over the reverse range from `rbegin() + off`. The
   * greatest index strictly below min(pos, size) whose character is one of
   * `v`'s: unlike C++17, index `pos` itself is not examined.
   */
  function FindLastOf(s: seq<Char>, v: seq<Char>, pos: nat := NPOS): (r: nat)
    requires |s| < NPOS
    ensures r == NPOS <==> forall i :: 0 <= i < Min(pos, |s|) ==> s[i] !in v
    ensures r != NPOS ==> r < Min(pos, |s|) && s[r] in v
    ensures r != NPOS ==> forall i :: r < i < Min(pos, |s|) ==> s[i] !in v
  {
    var off := if pos >= |s| then 0 else |s| - pos;
    var d := FindIf(Reverse(s), (c: Char) => c in v, off);
    ReverseFindIfMeaning(s, (c: Char) => c in v, Min(pos, |s|), d);
    if d == |s| then NPOS else |s| - d - 1
  }

  /**
   * The predicate the header hands to `std::find_if` in the `_not_of`
   * searches: `v.find(c) == npos`, i.e. `c` is none of `v`'s characters.
   */
  function NotIn(v: seq<Char>): (p: Char -> bool)
    requires |v| < NPOS
    ensures forall c :: p(c) <==> c !in v
  {
    (c: Char) => FindChar(v, c) == NPOS
  }

  /**
   * `find_first_not_of(basic_string_view v, pos)` (string_view.hpp:458-464):
   * the least index at or after `pos` whose character is none of `v`'s.
   */
  function FindFirstNotOf(s: seq<Char>, v: seq<Char>, pos: nat := 0): (r: nat)
    requires |s| < NPOS && |v| < NPOS
    ensures r == NPOS <==> forall i :: pos <= i < |s| ==> s[i] in v
    ensures r != NPOS ==> pos <= r < |s| && s[r] !in v && forall i :: pos <= i < r ==> s[i] in v
  {
    var i := FindIf(s, NotIn(v), Min(pos, |s|));
    if i == |s| then NPOS else i
  }

  /**
   * `find_last_not_of(basic_string_view v, pos)` (string_view.hpp:482-489):
   * the greatest index strictly below min(pos, size) whose character is
   * none of `v`'s.
   */
  function FindLastNotOf(s: seq<Char>, v: seq<Char>, pos: nat := NPOS): (r: nat)
    requires |s| < NPOS && |v| < NPOS
    ensures r == NPOS <==> forall i :: 0 <= i < Min(pos, |s|) ==> s[i] in v
    ensures r != NPOS ==> r < Min(pos, |s|) && s[r] !in v
    ensures r != NPOS ==> forall i :: r < i < Min(pos, |s|) ==> s[i] in v
  {
    var off := if pos >= |s| then 0 else |s| - pos;
    var d := FindIf(Reverse(s), NotIn(v), off);
    ReverseFindIfMeaning(s, NotIn(v), Min(pos, |s|), d);
    if d == |s| then NPOS else |s| - d - 1
  }
}
