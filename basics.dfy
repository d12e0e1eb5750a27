/**
 * Types shared by the whole model of `backport::cpp11::basic_string_view<char>`.
 *
 * The element type is C++ `char`. Only equality matters to the searches;
 * `char_traits<char>::compare` orders characters as `unsigned char`, which
 * for the 256 values a `char` can hold is the order of their code points,
 * so the model uses Dafny characters below 256 and their built-in `<`.
 */
module Basics {

  /** One C++ `char`, as its unsigned value 0..255. */
  type Char = c: char | c as int < 256

  /** The terminator that ends a C string. */
  const NUL: Char := 0 as char

  /**
   * `basic_string_view::npos`: the largest `size_t` on a 64-bit target.
   * Every size and index of a view is at most this value, so a search
   * result equal to it is never a real index.
   */
  const NPOS: nat := 0xFFFF_FFFF_FFFF_FFFF

  function Min(a: nat, b: nat): (m: nat) {
    if a < b then a else b
  }

  /** The exceptions the core throws: only `std::out_of_range`, with its message. */
  datatype Error = OutOfRange(what: string)

  /** The outcome of a member that may throw. */
  datatype Result<T> = Success(value: T) | Failure(error: Error)
}
