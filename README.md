# backport `string_view`, modelled in Dafny

This project models `backport::cpp11::basic_string_view<char>` from
`src/string_view.hpp`. It is a C++11 stand-in for C++17's `std::string_view`.
A view is a non-owning pointer into someone else's character buffer plus a
count. The header gives it:

- element access, capacity queries and `substr`;
- `copy` into a caller's array;
- six `compare` overloads and the six relational operators;
- the search family: `find`, `rfind`, `find_first_of`, `find_last_of`,
  `find_first_not_of` and `find_last_not_of`;
- a hand-written random-access `const_iterator`;
- `to_string`.

The model has two levels:

- **Value level** (`Views`, `Search`, `Lexicographic`). `Views.View` is a
  datatype: a `Pointer` (null, or an offset into a buffer of `Char`) and a
  `size`. `View.Contents()` is the window of characters the view shows, and
  every `const` member is a function whose contract is stated against it.
- **Object level** (`ViewObjects`). These are the members that change a view
  in place: `remove_prefix`, `remove_suffix`, `swap` and assignment. They are
  methods of the class `StringView`, which has the fields `data` and `size`.
  The iterator is the class `ConstIterator`. It holds a reference to a
  `StringView` object, not a copy, and a position. On every step it reads the
  current size of that object. `ToString` walks from `begin()` to `end()` with
  these iterators.

The searches are written the way the header computes them. A standard
algorithm (`std::search`, `std::find_first_of`, `std::find_if`, or
`char_traits::find`) runs over a forward range starting at `begin() + pos`, or
over a reversed range starting at `rbegin() + (size - pos)`. The hit is then
turned back into an index or `npos`. Each search's postcondition says which
index that is: the least or greatest position with the property, and `npos`
exactly when there is none.

Where the header differs from C++17, the model follows the header:

- `rfind`, `find_last_of` and `find_last_not_of` never examine index `pos`
  itself. Their reverse range starts one before `pos`. So `rfind` finds only
  occurrences that end at or before `min(pos, size)`, and an empty needle is
  never found at index 0. The repository's tests expect exactly this:
  `find_last_of("fx", 18)` is 16, although index 18 holds `x`.
- `find(v, pos)` reports a match at `end()` as `npos`. So an empty needle
  with `pos >= size()` gives `npos`, where C++17 gives `pos` when
  `pos == size()`.
- `copy` throws `out_of_range("copy")` when `pos >= size()`, not only when
  `pos > size()`.
- `substr` never throws.
- `max_size()` returns the view's own size.
- The iterator's `<=` and `>=` are the negations of `>` and `<`. Both are
  therefore true for iterators into two different views.
- `compare` asserts that both pointers are non-null. Its shortcut returns 0
  when the pointers and counts are equal. It also tests `this == &v`, which
  never holds because `v` is taken by value.

Characters are C++ `char` values 0..255, ordered as `unsigned char`, as
`char_traits<char>::compare` orders them. `size_t` is 64 bits wide, and `npos`
is its largest value. The iterator arithmetic does its wrap-around modulo
2^64 explicitly (`Advance`, `Retreat`, `ToPtrDiff`).

## Model

| member | source | states |
|---|---|---|
| `Lexicographic.TraitsCompare` | src/string_view.hpp:331 | the sign of `char_traits::compare` over equal lengths is in -1..1 and is 0 exactly when the ranges are equal |
| `Lexicographic.Compare` | src/string_view.hpp:330-340 | `compare` returns -1, 0 or +1, and 0 exactly when the contents are equal |
| `Lexicographic.TraitsCompareFirstDifference` | src/string_view.hpp:331 | `char_traits::compare` is negative (positive) exactly when the first differing character of the left range is smaller (greater) |
| `Lexicographic.CompareIsLexicographic` | src/string_view.hpp:321-341 | `compare` is -1 exactly when the left view precedes the right in dictionary order (first difference smaller, or a proper prefix), and +1 exactly when the right precedes the left |
| `Lexicographic.CompareAntisymmetric` | src/string_view.hpp:321-341 | swapping the operands of `compare` negates the result |
| `Search.SearchFrom` | src/string_view.hpp:369 | `std::search` from `first` returns the least index at which the needle occurs, or the end when it occurs nowhere in the range |
| `Search.FindIf` | src/string_view.hpp:461-462 | `std::find_if` from `first` returns the least index whose character satisfies the predicate, or the end |
| `Search.FindChar` | src/string_view.hpp:373-377 | `find(c, pos)` is `npos` exactly when `c` does not occur at or after `pos`; otherwise it is the first index at or after `pos` that holds `c` |
| `Search.Find` | src/string_view.hpp:367-371 | `find(v, pos)` is `npos` exactly when `v` occurs at no index in [pos, size); otherwise it is the least such index, and `v` occurs there |
| `Search.ReverseOccurs` | src/string_view.hpp:393 | `v` occurs at `j` exactly when the reversed needle occurs in the reversed haystack at `size - |v| - j` |
| `Search.ReverseSearchMeaning` | src/string_view.hpp:391-394 | a reverse `std::search` from `rbegin() + (size - e)` that stops `d` steps from `rbegin()` has found the last occurrence ending by `e`, at `size - |v| - d`; it reaches `rend()` exactly when there is none |
| `Search.RFind` | src/string_view.hpp:389-395 | `rfind(v, pos)` is `npos` exactly when no occurrence at `j` has 0 < j + |v| <= min(pos, size); otherwise it is the greatest such `j` |
| `Search.ReverseFindIfMeaning` | src/string_view.hpp:437-440 | a reverse `std::find_if` from `rbegin() + (size - e)` that stops `d` steps from `rbegin()` has found the greatest index below `e` with the property, at `size - d - 1` |
| `Search.FindFirstOf` | src/string_view.hpp:412-417 | `find_first_of(v, pos)` is the least index at or after `pos` whose character is in `v`, and `npos` exactly when there is none |
| `Search.FindLastOf` | src/string_view.hpp:434-441 | `find_last_of(v, pos)` is the greatest index strictly below min(pos, size) whose character is in `v`, and `npos` exactly when there is none |
| `Search.NotIn` | src/string_view.hpp:462 | the header's predicate `v.find(c) == npos` holds exactly when `c` is not in `v` |
| `Search.FindFirstNotOf` | src/string_view.hpp:458-464 | `find_first_not_of(v, pos)` is the least index at or after `pos` whose character is not in `v`, and `npos` exactly when there is none |
| `Search.FindLastNotOf` | src/string_view.hpp:482-489 | `find_last_not_of(v, pos)` is the greatest index strictly below min(pos, size) whose character is not in `v`, and `npos` exactly when there is none |
| `SearchFacts.OneCharForwardSearchesAgree` | src/string_view.hpp:419-422 | `find_first_of(c, pos)`, `find(c, pos)` and the view overloads with the needle `[c]` return the same index |
| `SearchFacts.OneCharBackwardSearchesAgree` | src/string_view.hpp:397-400 | `rfind(c, pos)` and `find_last_of(c, pos)` both search for the view `[c]` and return the same index |
| `SearchFacts.RFindIsLastOccurrence` | src/string_view.hpp:389-395 | the postcondition of `rfind` determines its result: an occurrence that ends by min(pos, size), with none starting later that also ends by then, is the result |
| `SearchFacts.RFindLastOccurrence` | src/tests.cpp:549-554 | `"foo bar foo bar".rfind("foo")` is 8 |
| `SearchFacts.RFindBeforePosition` | src/tests.cpp:570-575 | `rfind("fox", 30)` on the quick-brown-fox sentence is 16 |
| `SearchFacts.RFindAtZero` | src/tests.cpp:577-582 | `rfind(v, 0)` is `npos` for every non-empty needle |
| `SearchFacts.FindLastOfSkipsPosition` | src/tests.cpp:674 | `find_last_of("fx", 18)` is 16 although index 18 holds `x`: the character at `pos` is not examined |
| `Views.Pointer.Plus` | src/string_view.hpp:294 | `ptr_ + n` stays in the same buffer, `n` places on, and stays null only when null |
| `Views.CStringLength` | src/string_view.hpp:236 | `traits_type::length(s)` counts the characters before the first NUL |
| `Views.View.Size` | src/string_view.hpp:283 | `size()` is the number of characters in the view |
| `Views.View.Length` | src/string_view.hpp:285 | `length()` is the number of characters in the view |
| `Views.View.MaxSize` | src/string_view.hpp:287 | `max_size()` is the number of characters in this view |
| `Views.View.Empty` | src/string_view.hpp:289 | `empty()` holds exactly when the view shows no characters |
| `Views.View.Index` | src/string_view.hpp:267 | `v[i]` is the i-th character of the contents |
| `Views.View.At` | src/string_view.hpp:269-274 | `at(i)` throws `out_of_range("at")` exactly when `i >= size()`, and otherwise returns the i-th character |
| `Views.View.Front` | src/string_view.hpp:276 | `front()` is the first character |
| `Views.View.Back` | src/string_view.hpp:278 | `back()` is the last character |
| `Views.View.Substr` | src/string_view.hpp:316-319 | `substr(pos, count)` is a valid view into the same buffer, starting at `data() + pos`, of min(count, size - pos) characters, equal to the contents from `pos` |
| `Views.View.Copy` | src/string_view.hpp:307-314 | `copy` throws `out_of_range("copy")` and leaves `dest` untouched when `pos >= size()`; otherwise it returns n = min(count, size - pos), and `dest` starts with the n characters from `pos`, with the rest of `dest` unchanged |
| `Views.View.Compare` | src/string_view.hpp:321-341 | `compare(v)`, including its equal-pointer-and-count shortcut, is the lexicographic comparison of the contents |
| `Views.View.CompareSub` | src/string_view.hpp:343-346 | `compare(pos1, count1, v)` compares the window `substr(pos1, count1)` with `v` |
| `Views.View.CompareSubSub` | src/string_view.hpp:348-352 | `compare(pos1, count1, v, pos2, count2)` compares the two windows |
| `Views.View.CompareCString` | src/string_view.hpp:354 | `compare(s)` compares with the characters of `s` before its NUL |
| `Views.View.CompareSubCString` | src/string_view.hpp:356-359 | `compare(pos1, count1, s)` compares the window with the C string |
| `Views.View.CompareSubBuffer` | src/string_view.hpp:361-365 | `compare(pos1, count1, s, count2)` compares the window with the first `count2` characters at `s` |
| `Views.Default` | src/string_view.hpp:224 | the default view has a null pointer and size 0, so it is valid and empty |
| `Views.FromCString` | src/string_view.hpp:234-238 | the view of a C string starts at `s`, contains no NUL and ends just before the terminator |
| `Views.SubstrOfSubstr` | src/string_view.hpp:316-319 | a `substr` of a `substr` is one `substr` of the original at the summed offset |
| `Views.SubstrDefaultIsIdentity` | src/string_view.hpp:316 | `substr()` with its default arguments is the view itself |
| `Views.Equal` | src/string_view.hpp:518-523 | `a == b` exactly when the contents are equal |
| `Views.NotEqual` | src/string_view.hpp:525-530 | `a != b` exactly when the contents differ |
| `Views.Less` | src/string_view.hpp:532-537 | `a < b` exactly when `a` precedes `b` in dictionary order |
| `Views.Greater` | src/string_view.hpp:539-544 | `a > b` exactly when `b` precedes `a` |
| `Views.LessOrEqual` | src/string_view.hpp:546-551 | `a <= b` exactly when `a` precedes or equals `b` |
| `Views.GreaterOrEqual` | src/string_view.hpp:553-558 | `a >= b` exactly when `b` precedes or equals `a` |
| `ViewObjects.StringView.Default` | src/string_view.hpp:224 | a default-constructed view object holds the null, empty view |
| `ViewObjects.StringView.Init` | src/string_view.hpp:226-232 | construction from a view or from a pointer and count copies both fields |
| `ViewObjects.StringView.Assign` | src/string_view.hpp:241 | assignment copies both fields |
| `ViewObjects.StringView.RemovePrefix` | src/string_view.hpp:292-296 | the pointer moves `n` on and the size drops by `n`; the new view is the old `substr(n)` and shows the old contents without their first `n` characters |
| `ViewObjects.StringView.RemoveSuffix` | src/string_view.hpp:298 | the pointer is unchanged and the size drops by `n`; the new view is the old `substr(0, size - n)` |
| `ViewObjects.StringView.Swap` | src/string_view.hpp:300-304 | the two view objects exchange pointer and size |
| `ViewObjects.StringView.Begin` | src/string_view.hpp:244-247 | `begin()` is a new iterator on this object at position 0 |
| `ViewObjects.StringView.End` | src/string_view.hpp:251-254 | `end()` is a new iterator on this object at position `size()` |
| `ViewObjects.ConstIterator.Default` | src/string_view.hpp:210-212 | a default iterator refers to no view and sits at `npos` |
| `ViewObjects.ConstIterator.Bound` | src/string_view.hpp:203-208 | the private constructor binds a view object and a position |
| `ViewObjects.ConstIterator.CopyOf` | src/string_view.hpp:69-70 | copy and move construction copy view and position |
| `ViewObjects.ConstIterator.Assign` | src/string_view.hpp:73-85 | assignment, done by swapping with a copy, leaves this iterator with the other's view and position |
| `ViewObjects.ConstIterator.Swap` | src/string_view.hpp:186-190 | two iterators exchange view and position |
| `ViewObjects.ConstIterator.Equal` | src/string_view.hpp:88-91 | `==` holds for the same iterator object and whenever view and position agree, and for no other pair |
| `ViewObjects.ConstIterator.NotEqual` | src/string_view.hpp:93 | `!=` holds exactly when the iterators are distinct objects that differ in view or position |
| `ViewObjects.ConstIterator.Less` | src/string_view.hpp:95-98 | `<` holds only between iterators on the same view, and never together with `==` |
| `ViewObjects.ConstIterator.Greater` | src/string_view.hpp:100-103 | `a > b` is `b < a` |
| `ViewObjects.ConstIterator.LessOrEqual` | src/string_view.hpp:105-108 | `a <= b` is the negation of `b < a`, and holds whenever `a < b` or `a == b` |
| `ViewObjects.ConstIterator.GreaterOrEqual` | src/string_view.hpp:110-113 | `a >= b` is `b <= a`, and holds whenever `a > b` or `a == b` |
| `ViewObjects.ConstIterator.Increment` | src/string_view.hpp:116-121 | `++it` advances by one unless already at the view's current size |
| `ViewObjects.ConstIterator.PostIncrement` | src/string_view.hpp:123-128 | `it++` advances as `++it` does and returns a copy of the iterator before the step |
| `ViewObjects.ConstIterator.Decrement` | src/string_view.hpp:130-135 | `--it` steps back by one unless already at 0 |
| `ViewObjects.ConstIterator.PostDecrement` | src/string_view.hpp:137-142 | `it--` steps back as `--it` does and returns a copy of the iterator before the step |
| `ViewObjects.ConstIterator.AddAssign` | src/string_view.hpp:144-148 | `it += n` moves to `Advance(pos, n, size)` |
| `ViewObjects.ConstIterator.SubAssign` | src/string_view.hpp:150-156 | `it -= n` moves to `Retreat(pos, n, size)` |
| `ViewObjects.ConstIterator.Plus` | src/string_view.hpp:158-166 | `it + n` and `n + it` are new iterators on the same view at `Advance(pos, n, size)` |
| `ViewObjects.ConstIterator.Minus` | src/string_view.hpp:168-176 | `it - n` and `n - it` are new iterators on the same view at `Retreat(pos, n, size)` |
| `ViewObjects.ConstIterator.Distance` | src/string_view.hpp:178-184 | `a - b` is a `ptrdiff_t`, and equals `a.pos - b.pos` whenever both positions fit in `ptrdiff_t` |
| `ViewObjects.ConstIterator.Deref` | src/string_view.hpp:193 | `*it` is the character of the view's current contents at the position |
| `ViewObjects.ConstIterator.Subscript` | src/string_view.hpp:197-200 | `it[n]` is the character `n` places after the position |
| `ViewObjects.ToPtrDiff` | src/string_view.hpp:181-183 | a value taken modulo 2^64 and read as `ptrdiff_t` lies in the signed range, is congruent to the value, and is the value itself when the value is in range |
| `ViewObjects.Advance` | src/string_view.hpp:146 | the position after `+= n` never exceeds the size; it is min(size, pos + n), with the sum wrapping around modulo 2^64 |
| `ViewObjects.Retreat` | src/string_view.hpp:152-154 | the position after `-= n` never exceeds the size; it is pos - n when that lies within the view and 0 otherwise, and a wrapped-around difference counts as within the view only when it is at most the size |
| `ViewObjects.AdvanceThenRetreat` | src/string_view.hpp:144-156 | inside a view, `+= n` then `-= n` returns to the start; `(it + n) - it` is min(n, size - pos) unless the sum wraps, and then the iterator moves back |
| `ViewObjects.IteratorOrder` | src/string_view.hpp:88-113 | on one view, two distinct iterators compare as their positions do (`!=` included); on two views `==`, `<` and `>` are false while `!=`, `<=` and `>=` are true; `==` is symmetric, `<` is asymmetric and is the converse of `>`; an iterator equals itself and is not less than itself |
| `ViewObjects.ToString` | src/string_view.hpp:561-565 | `to_string(v)`, built by iterating from `begin()` to `end()`, is exactly the contents of `v` |

## Left out

- `operator<<` writes to a stream. Stream output is I/O.
- `rbegin`, `rend`, `crbegin` and `crend` return `std::reverse_iterator`
  adaptors, which are standard-library code. The reverse searches model what
  those adaptors do as index arithmetic, and `Search.Reverse` is the sequence
  they walk.
- `cbegin` and `cend` are `begin` and `end` under another name, and are not
  modelled separately.
- `data()` is the field `data`. `operator->` on an iterator is the field
  `view`.
- The template parameters are fixed to `CharT = char` with the default traits.
  The model does not cover `static_assert`, the type aliases, or the
  out-of-class definition of `npos`.
- The `CharT c` overloads of `rfind`, `find_last_of`, `find_first_not_of`
  and `find_last_not_of` build the one-character view `{&c, 1}` and call the
  view overload. The model applies the view overload to the contents `[c]`.
- The pointer-and-count and C-string overloads of all six searches build a
  view and call the view overload. The model applies the view overload to
  that view's contents: `Views.View.Contents` or `Views.FromCString`.
- `find(c, pos)` calls `traits_type::find` directly, and is
  `Search.FindChar`. `find_first_of(c, pos)` calls `find(c, pos)`.
- Calls whose behaviour is undefined in the header appear as preconditions:
  - `remove_prefix` or `remove_suffix` with `n > size()`;
  - `substr` with `pos > size()`;
  - `find(c, pos)` with `pos > size()`;
  - `[]`, `front` or `back` out of range;
  - dereferencing `end()`, or stepping an iterator that has no view;
  - a C string without a terminator.
- `compare` asserts non-null pointers. The model turns those asserts into a
  precondition on every `compare` overload and relational operator.
- Views.View.Compare: the shortcut `this == &v` is not modelled, because `v`
  is a by-value copy and never has the address of `*this`.
- `const_iterator::operator==`, `<` and `>` compare the address of the other
  iterator. The model uses Dafny object identity for that address, and
  `ConstIterator.view` is a reference to a `StringView` object.
- The model treats the character buffer a view points into as an immutable
  sequence. Writes to the buffer through other pointers are not modelled.
- `size_t` is assumed to be 64 bits wide. Sizes are unbounded naturals below
  `npos`. Only the iterator's `+=`, `-=` and difference model 64-bit
  wrap-around. Every other size computation in the header stays in range
  under the preconditions.
- The header's unit tests and doctest harness are not modelled. A few of
  their expected results are stated as lemmas in `SearchFacts`.
