/**
 * `basic_string_view<char>` as a value: a pointer into a character buffer
 * owned by someone else, and a count. This module holds the view's
 * construction and its `const` members other than the searches
 * (element access, capacity, `substr`, `copy`, every `compare`) and the
 * non-member relational operators.
 */
module Views {
  import opened Basics
  import Lexicographic

  /**
   * A `const char *`: null, or a position in a buffer the view does not own.
   * The buffer is read, never written, for as long as a view refers to it.
   */
  datatype Pointer = Null | Into(buffer: seq<Char>, offset: nat) {

    /** A pointer inside (or one past) a buffer that fits in memory. */
    predicate Valid() {
      Into? ==> offset <= |buffer| < NPOS
    }

    /** `p + n`; null plus anything but 0 is undefined. */
    function Plus(n: nat): (q: Pointer)
      requires Null? ==> n == 0
      ensures q.Null? <==> Null?
      ensures Into? ==> q.buffer == buffer && q.offset == offset + n
    {
      match this
      case Null => Null
      case Into(b, o) => Into(b, o + n)
    }
  }

  /**
   * `traits_type::length(s)` (`strlen`): the number of characters from
   * `from` up to the first NUL, which must exist.
   */
  function CStringLength(buffer: seq<Char>, from: nat): (n: nat)
    requires exists k :: from <= k < |buffer| && buffer[k] == NUL
    ensures from + n < |buffer| && buffer[from + n] == NUL
    ensures forall k :: from <= k < from + n ==> buffer[k] != NUL
    decreases |buffer| - from
  {
    if buffer[from] == NUL then 0 else 1 + CStringLength(buffer, from + 1)
  }

  /** A `basic_string_view`: the fields `ptr_` (here `data`) and `size_`. */
  datatype View = View(data: Pointer, size: nat) {

    /** The pointer is null only for an empty view, and the window lies inside the buffer. */
    predicate Valid() {
      && data.Valid()
      && (data.Null? ==> size == 0)
      && (data.Into? ==> data.offset + size <= |data.buffer|)
    }

    /** The characters the view shows. */
    function Contents(): (s: seq<Char>)
      requires Valid()
      ensures |s| == size < NPOS
    {
      if data.Null? then [] else data.buffer[data.offset..data.offset + size]
    }

    /** `size()` (string_view.hpp:283). */
    function Size(): (n: nat)
      requires Valid()
      ensures n == |Contents()|
    {
      size
    }

    /** `length()` (string_view.hpp:285): the same count as `size()`. */
    function Length(): (n: nat)
      requires Valid()
      ensures n == |Contents()|
    {
      size
    }

    /**
     * `max_size()` (string_view.hpp:287): this header returns the view's own
     * length, not the largest size a view could have.
     */
    function MaxSize(): (n: nat)
      requires Valid()
      ensures n == |Contents()|
    {
      size
    }

    /** `empty()` (string_view.hpp:289): a null pointer or a zero count. */
    predicate Empty()
      requires Valid()
      ensures Empty() <==> Contents() == []
    {
      data.Null? || size == 0
    }

    /** `operator[]` (string_view.hpp:267): unchecked, so `i` must be in range. */
    function Index(i: nat): (c: Char)
      requires Valid() && i < size
      ensures c == Contents()[i]
    {
      data.buffer[data.offset + i]
    }

    /** `at(i)` (string_view.hpp:269-274): checked access. */
    function At(i: nat): (r: Result<Char>)
      requires Valid()
      ensures r.Failure? <==> i >= |Contents()|
      ensures r.Failure? ==> r.error == OutOfRange("at")
      ensures r.Success? ==> r.value == Contents()[i]
    {
      if i >= size then Failure(OutOfRange("at")) else Success(data.buffer[data.offset + i])
    }

    /** `front()` (string_view.hpp:276): undefined on an empty view. */
    function Front(): (c: Char)
      requires Valid() && size > 0
      ensures c == Contents()[0]
    {
      data.buffer[data.offset]
    }

    /** `back()` (string_view.hpp:278): undefined on an empty view. */
    function Back(): (c: Char)
      requires Valid() && size > 0
      ensures c == Contents()[|Contents()| - 1]
    {
      data.buffer[data.offset + size - 1]
    }

    /**
     * `substr(pos, count)` (string_view.hpp:316-319): never throws; a `pos`
     * past the end makes `size_ - pos` wrap around, which is undefined.
     */
    function Substr(pos: nat := 0, count: nat := NPOS): (r: View)
      requires Valid() && pos <= size
      ensures r.Valid()
      ensures r.data == data.Plus(pos)
      ensures r.size == Min(count, size - pos)
      ensures r.Contents() == Contents()[pos..pos + r.size]
    {
      var r := View(data.Plus(pos), if size - pos < count then size - pos else count);
      if data.Null? then r
      else
        SliceOfSlice(data.buffer, data.offset, data.offset + size, pos, pos + r.size);
        r
    }

    /**
     * `copy(dest, count, pos)` (string_view.hpp:307-314): throws when
     * `pos >= size()` (C++17 throws only when `pos > size()`); otherwise
     * copies n = min(count, size - pos) characters from `pos` to the start
     * of `dest` and returns n. The caller provides room for n characters.
     */
    method Copy(dest: array<Char>, count: nat, pos: nat := 0) returns (r: Result<nat>)
      requires Valid()
      requires pos < size ==> Min(count, size - pos) <= dest.Length
      modifies dest
      ensures pos >= size ==> r == Failure(OutOfRange("copy")) && dest[..] == old(dest[..])
      ensures pos < size ==> r.Success? && r.value == Min(count, size - pos)
      ensures r.Success? ==> dest[..r.value] == Contents()[pos..pos + r.value]
      ensures r.Success? ==> dest[r.value..] == old(dest[r.value..])
    {
      if pos >= size {
        return Failure(OutOfRange("copy"));
      }
      var n := Min(count, size - pos);
      var i := 0;
      while i < n
        invariant i <= n
        invariant forall k :: 0 <= k < i ==> dest[k] == Contents()[pos + k]
        invariant forall k :: i <= k < dest.Length ==> dest[k] == old(dest[k])
      {
        dest[i] := data.buffer[data.offset + pos + i];
        i := i + 1;
      }
      assert dest[..n] == Contents()[pos..pos + n];
      return Success(n);
    }

    /**
     * `compare(basic_string_view v)` (string_view.hpp:321-341). Both
     * pointers must be non-null (the header asserts it). The fast path
     * (same pointer and count gives 0) agrees with the lexicographic result;
     * `this == &v` never holds, since `v` is a copy.
     */
    function Compare(v: View): (r: int)
      requires Valid() && v.Valid() && data.Into? && v.data.Into?
      ensures r == Lexicographic.Compare(Contents(), v.Contents())
    {
      if data == v.data && size == v.size then 0
      else Lexicographic.Compare(Contents(), v.Contents())
    }

    /** `compare(pos1, count1, v)` (string_view.hpp:343-346). */
    function CompareSub(pos1: nat, count1: nat, v: View): (r: int)
      requires Valid() && v.Valid() && data.Into? && v.data.Into? && pos1 <= size
      ensures r == Lexicographic.Compare(Contents()[pos1..pos1 + Min(count1, size - pos1)], v.Contents())
    {
      var sub := Substr(pos1, count1);
      assert sub.data.Into? && sub.Contents() == Contents()[pos1..pos1 + Min(count1, size - pos1)];
      sub.Compare(v)
    }

    /** `compare(pos1, count1, v, pos2, count2)` (string_view.hpp:348-352). */
    function CompareSubSub(pos1: nat, count1: nat, v: View, pos2: nat, count2: nat): (r: int)
      requires Valid() && v.Valid() && data.Into? && v.data.Into?
      requires pos1 <= size && pos2 <= v.size
      ensures r == Lexicographic.Compare(
        Contents()[pos1..pos1 + Min(count1, size - pos1)],
        v.Contents()[pos2..pos2 + Min(count2, v.size - pos2)])
    {
      var sub1, sub2 := Substr(pos1, count1), v.Substr(pos2, count2);
      assert sub1.data.Into? && sub1.Contents() == Contents()[pos1..pos1 + Min(count1, size - pos1)];
      assert sub2.data.Into? && sub2.Contents() == v.Contents()[pos2..pos2 + Min(count2, v.size - pos2)];
      sub1.Compare(sub2)
    }

    /** `compare(const CharT * s)` (string_view.hpp:354): against a C string. */
    function CompareCString(s: Pointer): (r: int)
      requires Valid() && data.Into? && IsCString(s)
      ensures r == Lexicographic.Compare(Contents(), CStringContents(s))
    {
      Compare(FromCString(s))
    }

    /** `compare(pos1, count1, const CharT * s)` (string_view.hpp:356-359). */
    function CompareSubCString(pos1: nat, count1: nat, s: Pointer): (r: int)
      requires Valid() && data.Into? && pos1 <= size && IsCString(s)
      ensures r == Lexicographic.Compare(Contents()[pos1..pos1 + Min(count1, size - pos1)], CStringContents(s))
    {
      var sub := Substr(pos1, count1);
      assert sub.data.Into? && sub.Contents() == Contents()[pos1..pos1 + Min(count1, size - pos1)];
      sub.Compare(FromCString(s))
    }

    /** `compare(pos1, count1, const CharT * s, count2)` (string_view.hpp:361-365). */
    function CompareSubBuffer(pos1: nat, count1: nat, s: Pointer, count2: nat): (r: int)
      requires Valid() && data.Into? && pos1 <= size
      requires s.Into? && View(s, count2).Valid()
      ensures r == Lexicographic.Compare(
        Contents()[pos1..pos1 + Min(count1, size - pos1)], View(s, count2).Contents())
    {
      var v := View(s, count2);
      var sub := Substr(pos1, count1);
      assert sub.data.Into? && sub.Contents() == Contents()[pos1..pos1 + Min(count1, size - pos1)];
      sub.Compare(v)
    }
  }

  /** `basic_string_view()` (string_view.hpp:224): null and empty. */
  function Default(): (v: View)
    ensures v.data.Null? && v.size == 0
    ensures v.Valid() && v.Empty() && v.Contents() == []
  {
    View(Null, 0)
  }

  /** A slice of a slice of `b` is one slice of `b`, at the summed offsets. */
  lemma SliceOfSlice(b: seq<Char>, lo: nat, hi: nat, i: nat, j: nat)
    requires lo <= hi <= |b| && i <= j <= hi - lo
    ensures b[lo..hi][i..j] == b[lo + i..lo + j]
  {
    forall k | 0 <= k < j - i ensures b[lo..hi][i..j][k] == b[lo + i..lo + j][k] {
    }
  }

  /**
   * A view of a view is a view of the original: `substr` applied twice is
   * one `substr` at the summed offset. `remove_prefix` followed by
   * `remove_suffix` is one such window.
   */
  lemma SubstrOfSubstr(v: View, pos1: nat, count1: nat, pos2: nat, count2: nat)
    requires v.Valid() && pos1 <= v.size && pos2 <= Min(count1, v.size - pos1)
    ensures v.Substr(pos1, count1).Substr(pos2, count2)
         == v.Substr(pos1 + pos2, Min(count2, Min(count1, v.size - pos1) - pos2))
  {
  }

  /** With its default arguments, `substr()` is the view itself. */
  lemma SubstrDefaultIsIdentity(v: View)
    requires v.Valid()
    ensures v.Substr() == v
  {
  }

  /** A non-null pointer to a NUL-terminated string, as `basic_string_view(const CharT *)` needs. */
  predicate IsCString(s: Pointer) {
    s.Into? && s.Valid() && exists k :: s.offset <= k < |s.buffer| && s.buffer[k] == NUL
  }

  /**
   * `basic_string_view(const CharT * s)` (string_view.hpp:234-238): the
   * count is `traits_type::length(s)`, so the view ends just before the first NUL.
   */
  function FromCString(s: Pointer): (v: View)
    requires IsCString(s)
    ensures v.Valid() && v.data == s
    ensures NUL !in v.Contents()
    ensures s.buffer[s.offset + v.size] == NUL
  {
    View(s, CStringLength(s.buffer, s.offset))
  }

  /** The characters of the C string at `s`, without its terminator. */
  function CStringContents(s: Pointer): (chars: seq<Char>)
    requires IsCString(s)
  {
    FromCString(s).Contents()
  }

  /** Both operands of a relational operator can be compared: `compare` asserts non-null pointers. */
  predicate Comparable(a: View, b: View) {
    a.Valid() && b.Valid() && a.data.Into? && b.data.Into?
  }

  /** `operator==` (string_view.hpp:518-523): equal contents. */
  predicate Equal(a: View, b: View)
    requires Comparable(a, b)
    ensures Equal(a, b) <==> a.Contents() == b.Contents()
  {
    a.Compare(b) == 0
  }

  /** `operator!=` (string_view.hpp:525-530). */
  predicate NotEqual(a: View, b: View)
    requires Comparable(a, b)
    ensures NotEqual(a, b) <==> a.Contents() != b.Contents()
  {
    a.Compare(b) != 0
  }

  /** `operator<` (string_view.hpp:532-537): `a` precedes `b` in dictionary order. */
  predicate Less(a: View, b: View)
    requires Comparable(a, b)
    ensures Less(a, b) <==> Lexicographic.Precedes(a.Contents(), b.Contents())
  {
    Lexicographic.CompareIsLexicographic(a.Contents(), b.Contents());
    a.Compare(b) < 0
  }

  /** `operator>` (string_view.hpp:539-544): `b` precedes `a`. */
  predicate Greater(a: View, b: View)
    requires Comparable(a, b)
    ensures Greater(a, b) <==> Lexicographic.Precedes(b.Contents(), a.Contents())
  {
    Lexicographic.CompareIsLexicographic(a.Contents(), b.Contents());
    a.Compare(b) > 0
  }

  /** `operator<=` (string_view.hpp:546-551): `!(a > b)`, i.e. `a` precedes or equals `b`. */
  predicate LessOrEqual(a: View, b: View)
    requires Comparable(a, b)
    ensures LessOrEqual(a, b) <==>
      Lexicographic.Precedes(a.Contents(), b.Contents()) || a.Contents() == b.Contents()
  {
    Lexicographic.CompareIsLexicographic(a.Contents(), b.Contents());
    !Greater(a, b)
  }

  /** `operator>=` (string_view.hpp:553-558): `!(a < b)`, i.e. `b` precedes or equals `a`. */
  predicate GreaterOrEqual(a: View, b: View)
    requires Comparable(a, b)
    ensures GreaterOrEqual(a, b) <==>
      Lexicographic.Precedes(b.Contents(), a.Contents()) || a.Contents() == b.Contents()
  {
    Lexicographic.CompareIsLexicographic(a.Contents(), b.Contents());
    !Less(a, b)
  }
}
