/**
 * `basic_string_view` as an object whose fields change in place
 * (`remove_prefix`, `remove_suffix`, `swap`, assignment), and its nested
 * random-access `const_iterator`, which holds the address of a view object
 * and a position, and reads the view's current size on every step.
 */
module ViewObjects {
  import opened Basics
  import opened Views

  class StringView {
    var data: Pointer
    var size: nat

    /** The view value this object currently holds. */
    function Value(): (v: View)
      reads this
    {
      View(data, size)
    }

    predicate Valid()
      reads this
    {
      Value().Valid()
    }

    /** `basic_string_view()` (string_view.hpp:224). */
    constructor Default()
      ensures Valid() && Value() == Views.Default()
    {
      data, size := Null, 0;
    }

    /**
     * The copy constructor and `basic_string_view(s, count)`
     * (string_view.hpp:226-232): take the pointer and count as given.
     */
    constructor Init(v: View)
      ensures Value() == v
    {
      data, size := v.data, v.size;
    }

    /** `operator=` (string_view.hpp:241): a field-by-field copy. */
    method Assign(v: View)
      modifies this
      ensures Value() == v
    {
      data, size := v.data, v.size;
    }

    /**
     * `remove_prefix(n)` (string_view.hpp:292-296): the start moves `n`
     * characters on and the count drops by `n`. `n > size()` is undefined.
     * The new view is `substr(n)` of the old one.
     */
    method RemovePrefix(n: nat)
      requires Valid() && n <= size
      modifies this
      ensures Valid()
      ensures data == old(data).Plus(n) && size == old(size) - n
      ensures Value() == old(Value()).Substr(n)
      ensures Value().Contents() == old(Value().Contents())[n..]
    {
      data := data.Plus(n);
      size := size - n;
    }

    /**
     * `remove_suffix(n)` (string_view.hpp:298): only the count drops.
     * `n > size()` is undefined. The new view is `substr(0, size() - n)`.
     */
    method RemoveSuffix(n: nat)
      requires Valid() && n <= size
      modifies this
      ensures Valid()
      ensures data == old(data) && size == old(size) - n
      ensures Value() == old(Value()).Substr(0, old(size) - n)
      ensures Value().Contents() == old(Value().Contents())[..old(size) - n]
    {
      size := size - n;
    }

    /** `swap(v)` (string_view.hpp:300-304): exchange both fields, nothing else. */
    method Swap(other: StringView)
      modifies this, other
      ensures Value() == old(other.Value()) && other.Value() == old(Value())
    {
      data, other.data := other.data, data;
      size, other.size := other.size, size;
    }

    /** `begin()` (string_view.hpp:244-247): an iterator at position 0 of this object. */
    method Begin() returns (it: ConstIterator)
      ensures fresh(it) && it.view == this && it.pos == 0
    {
      it := new ConstIterator.Bound(this, 0);
    }

    /** `end()` (string_view.hpp:251-254): an iterator at position `size()` of this object. */
    method End() returns (it: ConstIterator)
      ensures fresh(it) && it.view == this && it.pos == size
    {
      it := new ConstIterator.Bound(this, size);
    }
  }

  /**
   * `basic_string_view::const_iterator` (string_view.hpp:56-213): the
   * address of a view object (`view_`, null when default-constructed) and a
   * position (`pos_`, `npos` when default-constructed). Every move is
   * clamped to [0, size] of the view as it is at that moment.
   */
  class ConstIterator {
    var view: StringView?
    var pos: nat

    /** The default constructor: bound to no view, at `npos`. */
    constructor Default()
      ensures view == null && pos == NPOS
    {
      view, pos := null, NPOS;
    }

    /** The private constructor that `begin()` and `end()` use. */
    constructor Bound(v: StringView, p: nat)
      ensures view == v && pos == p
    {
      view, pos := v, p;
    }

    /** The copy and move constructors. */
    constructor CopyOf(other: ConstIterator)
      ensures view == other.view && pos == other.pos
    {
      view, pos := other.view, other.pos;
    }

    /**
     * Copy and move assignment (string_view.hpp:73-85): copy assignment
     * swaps with a copy of `other`, which leaves the same fields.
     */
    method Assign(other: ConstIterator)
      modifies this
      ensures view == old(other.view) && pos == old(other.pos)
    {
      var copy := new ConstIterator.CopyOf(other);
      Swap(copy);
    }

    /** `swap(other)` (string_view.hpp:186-190): exchange view and position. */
    method Swap(other: ConstIterator)
      modifies this, other
      ensures view == old(other.view) && pos == old(other.pos)
      ensures other.view == old(view) && other.pos == old(pos)
    {
      view, other.view := other.view, view;
      pos, other.pos := other.pos, pos;
    }

    /** `operator==` (string_view.hpp:88-91): the same object, or the same view and position. */
    predicate Equal(other: ConstIterator)
      reads this, other
      ensures this == other ==> Equal(other)
      ensures view == other.view && pos == other.pos ==> Equal(other)
      ensures Equal(other) ==> view == other.view && pos == other.pos
    {
      this == other || (view == other.view && pos == other.pos)
    }

    /** `operator!=` (string_view.hpp:93). */
    predicate NotEqual(other: ConstIterator)
      reads this, other
      ensures NotEqual(other) <==> this != other && (view != other.view || pos != other.pos)
    {
      !Equal(other)
    }

    /** `operator<` (string_view.hpp:95-98): false across views and for the same object. */
    predicate Less(other: ConstIterator)
      reads this, other
      ensures Less(other) ==> !Equal(other) && view == other.view
    {
      this != other && view == other.view && pos < other.pos
    }

    /** `operator>` (string_view.hpp:100-103). */
    predicate Greater(other: ConstIterator)
      reads this, other
      ensures Greater(other) <==> other.Less(this)
    {
      this != other && view == other.view && pos > other.pos
    }

    /** `operator<=` (string_view.hpp:105-108): `!(a > b)`, so true across views. */
    predicate LessOrEqual(other: ConstIterator)
      reads this, other
      ensures LessOrEqual(other) <==> !other.Less(this)
      ensures Less(other) || Equal(other) ==> LessOrEqual(other)
    {
      !Greater(other)
    }

    /** `operator>=` (string_view.hpp:110-113): `!(a < b)`, so true across views. */
    predicate GreaterOrEqual(other: ConstIterator)
      reads this, other
      ensures GreaterOrEqual(other) <==> other.LessOrEqual(this)
      ensures Greater(other) || Equal(other) ==> GreaterOrEqual(other)
    {
      !Less(other)
    }

    /** Prefix `operator++` (string_view.hpp:116-121): stops at the view's size. */
    method Increment()
      requires view != null
      modifies this
      ensures view == old(view)
      ensures pos == if old(pos) < view.size then old(pos) + 1 else old(pos)
    {
      if pos < view.size {
        pos := pos + 1;
      }
    }

    /** Postfix `operator++` (string_view.hpp:123-128): returns a copy of the old iterator. */
    method PostIncrement() returns (previous: ConstIterator)
      requires view != null
      modifies this
      ensures fresh(previous) && previous.view == old(view) && previous.pos == old(pos)
      ensures view == old(view)
      ensures pos == if old(pos) < view.size then old(pos) + 1 else old(pos)
    {
      previous := new ConstIterator.CopyOf(this);
      Increment();
    }

    /** Prefix `operator--` (string_view.hpp:130-135): stops at 0. */
    method Decrement()
      modifies this
      ensures view == old(view)
      ensures pos == if old(pos) > 0 then old(pos) - 1 else 0
    {
      if pos > 0 {
        pos := pos - 1;
      }
    }

    /** Postfix `operator--` (string_view.hpp:137-142). */
    method PostDecrement() returns (previous: ConstIterator)
      modifies this
      ensures fresh(previous) && previous.view == old(view) && previous.pos == old(pos)
      ensures view == old(view)
      ensures pos == if old(pos) > 0 then old(pos) - 1 else 0
    {
      previous := new ConstIterator.CopyOf(this);
      Decrement();
    }

    /** `operator+=(n)` (string_view.hpp:144-148): the sum in `size_t`, capped at the view's size. */
    method AddAssign(n: nat)
      requires view != null && pos <= NPOS && n <= NPOS
      modifies this
      ensures view == old(view)
      ensures pos == Advance(old(pos), n, view.size)
    {
      pos := Advance(pos, n, view.size);
    }

    /**
     * `operator-=(n)` (string_view.hpp:150-156): the difference in `size_t`,
     * reset to 0 when it lies beyond the view's size.
     */
    method SubAssign(n: nat)
      requires view != null && pos <= NPOS && n <= NPOS
      modifies this
      ensures view == old(view)
      ensures pos == Retreat(old(pos), n, view.size)
    {
      pos := Retreat(pos, n, view.size);
    }

    /** `it + n` and `n + it` (string_view.hpp:158-166): a moved copy. */
    method Plus(n: nat) returns (r: ConstIterator)
      requires view != null && pos <= NPOS && n <= NPOS
      ensures fresh(r) && r.view == view && r.pos == Advance(pos, n, view.size)
    {
      r := new ConstIterator.CopyOf(this);
      r.AddAssign(n);
    }

    /** `it - n` and `n - it` (string_view.hpp:168-176): both move the copy back by `n`. */
    method Minus(n: nat) returns (r: ConstIterator)
      requires view != null && pos <= NPOS && n <= NPOS
      ensures fresh(r) && r.view == view && r.pos == Retreat(pos, n, view.size)
    {
      r := new ConstIterator.CopyOf(this);
      r.SubAssign(n);
    }

    /**
     * `a - b` (string_view.hpp:178-184): `a.pos_` as `ptrdiff_t`, minus
     * `b.pos_` in `size_t` arithmetic, read back as `ptrdiff_t`.
     */
    function Distance(other: ConstIterator): (d: int)
      requires pos <= NPOS && other.pos <= NPOS
      reads this, other
      ensures -PTRDIFF_HALF <= d < PTRDIFF_HALF
      ensures pos < PTRDIFF_HALF && other.pos < PTRDIFF_HALF ==> d == pos - other.pos
    {
      ToPtrDiff(pos - other.pos)
    }

    /** `operator*` (string_view.hpp:193): the character at the position, which must be inside the view. */
    function Deref(): (c: Char)
      requires view != null && view.Valid() && pos < view.size
      reads this, view
      ensures c == view.Value().Contents()[pos]
    {
      view.data.buffer[view.data.offset + pos]
    }

    /** `it[n]` (string_view.hpp:197-200): the character `n` places on. */
    function Subscript(n: nat): (c: Char)
      requires view != null && view.Valid() && pos + n < view.size
      reads this, view
      ensures c == view.Value().Contents()[pos + n]
    {
      view.data.buffer[view.data.offset + pos + n]
    }
  }

  /** The number of values of `size_t`: its arithmetic is modulo this. */
  const SIZE_T_MODULUS: nat := NPOS + 1

  /** Half of `SIZE_T_MODULUS`: `ptrdiff_t` holds [-PTRDIFF_HALF, PTRDIFF_HALF). */
  const PTRDIFF_HALF: int := 0x8000_0000_0000_0000

  /** A value modulo 2^64 read as a two's-complement `ptrdiff_t`. */
  function ToPtrDiff(x: int): (d: int)
    ensures -PTRDIFF_HALF <= d < PTRDIFF_HALF
    ensures (d - x) % SIZE_T_MODULUS == 0
    ensures -PTRDIFF_HALF <= x < PTRDIFF_HALF ==> d == x
  {
    var m := x % SIZE_T_MODULUS;
    if m < PTRDIFF_HALF then m else m - SIZE_T_MODULUS
  }

  /**
   * The new position after `operator+=(n)` on a view of `size` characters:
   * `min(size, pos + n)` with the sum taken in `size_t`.
   */
  function Advance(pos: nat, n: nat, size: nat): (r: nat)
    requires pos <= NPOS && n <= NPOS
    ensures r <= size
    ensures pos + n <= NPOS ==> r == Min(size, pos + n)
    ensures pos + n > NPOS ==> r == Min(size, pos + n - SIZE_T_MODULUS)
  {
    Min(size, (pos + n) % SIZE_T_MODULUS)
  }

  /**
   * The new position after `operator-=(n)` on a view of `size` characters:
   * `pos - n` in `size_t`, or 0 when that lies beyond `size` (which is how
   * the source notices that the subtraction wrapped around).
   */
  function Retreat(pos: nat, n: nat, size: nat): (r: nat)
    requires pos <= NPOS && n <= NPOS
    ensures r <= size
    ensures n <= pos ==> r == if pos - n <= size then pos - n else 0
    ensures pos < n ==> r == if SIZE_T_MODULUS - (n - pos) <= size then SIZE_T_MODULUS - (n - pos) else 0
  {
    var p := (pos - n) % SIZE_T_MODULUS;
    if p <= size then p else 0
  }

  /**
   * Moving forward and back by the same amount inside a view returns to
   * the start position, and `(it + n) - it` is the distance actually moved,
   * unless `pos + n` wraps around in `size_t` and the iterator moves back.
   */
  lemma AdvanceThenRetreat(pos: nat, n: nat, size: nat)
    requires pos <= size < NPOS && n <= NPOS
    ensures pos + n <= size ==> Retreat(Advance(pos, n, size), n, size) == pos
    ensures pos + n <= NPOS ==> Advance(pos, n, size) - pos == Min(n, size - pos)
    ensures pos + n > NPOS ==> Advance(pos, n, size) < pos
  {
  }

  /**
   * The relational operators of two iterators: on one view (and two
   * distinct objects) they order the positions; on two views `==`, `<` and
   * `>` are all false while `<=` and `>=` are both true.
   */
  lemma IteratorOrder(a: ConstIterator, b: ConstIterator)
    ensures a != b && a.view == b.view ==>
      && (a.Less(b) <==> a.pos < b.pos)
      && (a.Greater(b) <==> b.pos < a.pos)
      && (a.LessOrEqual(b) <==> a.pos <= b.pos)
      && (a.GreaterOrEqual(b) <==> b.pos <= a.pos)
      && (a.Equal(b) <==> a.pos == b.pos)
      && (a.NotEqual(b) <==> a.pos != b.pos)
    ensures a.view != b.view ==>
      !a.Equal(b) && a.NotEqual(b) && !a.Less(b) && !a.Greater(b) && a.LessOrEqual(b) && a.GreaterOrEqual(b)
    ensures (a.Equal(b) <==> b.Equal(a)) && (a.Less(b) <==> b.Greater(a))
    ensures a.Less(b) ==> !b.Less(a)
    ensures a.Equal(a) && !a.NotEqual(a) && !a.Less(a) && !a.Greater(a) && a.LessOrEqual(a) && a.GreaterOrEqual(a)
  {
  }

  /**
   * `to_string(v)` (string_view.hpp:561-565): a string built from the range
   * `v.begin()`..`v.end()` of the parameter object `v`.
   */
  method ToString(v: View) returns (s: seq<Char>)
    requires v.Valid()
    ensures s == v.Contents()
  {
    var sv := new StringView.Init(v);
    var it := sv.Begin();
    var last := sv.End();
    s := [];
    while it.NotEqual(last)
      invariant it.view == sv && last.view == sv && it != last
      invariant sv.Value() == v
      invariant it.pos <= last.pos == sv.size
      invariant s == v.Contents()[..it.pos]
      decreases sv.size - it.pos
    {
      s := s + [it.Deref()];
      it.Increment();
    }
  }
}
