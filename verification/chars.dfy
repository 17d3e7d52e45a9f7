/**
 Character classes and the 26-letter arithmetic shared by every letter
 substitution cipher of the library.

 Rust's `char` is a Unicode scalar value, as is Dafny's `char`. The
 classes below are the ASCII-only predicates the library calls
 (`is_ascii_alphabetic`, `is_digit(10)`, ...) and the Unicode
 `char::is_whitespace` that `str::trim` and `num2alpha` use.
 */
module Chars {

  /** Rust's `u8`: arithmetic on it is done on `int` and every
      operation that could leave this range is a stated precondition. */
  type U8 = x: int | 0 <= x < 256

  /** `'a'..='z'`, i.e. `char::is_ascii_lowercase`. */
  predicate IsLower(c: char) {
    'a' <= c <= 'z'
  }

  /** `'A'..='Z'`, i.e. `char::is_ascii_uppercase`. */
  predicate IsUpper(c: char) {
    'A' <= c <= 'Z'
  }

  /** `char::is_ascii_alphabetic`. */
  predicate IsLetter(c: char) {
    IsLower(c) || IsUpper(c)
  }

  /** `char::is_digit(10)`, which accepts the ASCII digits only. */
  predicate IsDigit(c: char) {
    '0' <= c <= '9'
  }

  /** `char::is_ascii`. */
  predicate IsAsciiChar(c: char) {
    c as int < 0x80
  }

  /** `char::is_whitespace`: the Unicode White_Space property. */
  predicate IsWhitespace(c: char) {
    var n := c as int;
    || 0x09 <= n <= 0x0D
    || n == 0x20
    || n == 0x85
    || n == 0xA0
    || n == 0x1680
    || 0x2000 <= n <= 0x200A
    || n == 0x2028
    || n == 0x2029
    || n == 0x202F
    || n == 0x205F
    || n == 0x3000
  }

  /** The 25 code points Unicode's PropList.txt gives the White_Space
      property, in code point order. */
  const WhiteSpaceCodePoints: seq<int> := [
    0x09, 0x0A, 0x0B, 0x0C, 0x0D, 0x20, 0x85, 0xA0, 0x1680,
    0x2000, 0x2001, 0x2002, 0x2003, 0x2004, 0x2005, 0x2006, 0x2007, 0x2008, 0x2009, 0x200A,
    0x2028, 0x2029, 0x202F, 0x205F, 0x3000]

  /** The ranges of `IsWhitespace` cover exactly the listed code points. */
  lemma WhitespaceIsListed(c: char)
    ensures IsWhitespace(c) <==> c as int in WhiteSpaceCodePoints
  {
  }

  /** The first letter of `c`'s case, `b'a'` or `b'A'` in the source. */
  function Base(c: char): (b: char)
    requires IsLetter(c)
    ensures b == 'a' || b == 'A'
    ensures IsLower(c) <==> b == 'a'
  {
    if IsLower(c) then 'a' else 'A'
  }

  /** The 0-based position of a letter in its case's alphabet,
      `c as u8 - first` in the source. */
  function Offset(c: char): (v: nat)
    requires IsLetter(c)
    ensures v < 26
    ensures c as int == Base(c) as int + v
  {
    c as int - Base(c) as int
  }

  /** The letter at position `v` of the alphabet that starts at `base`. */
  function LetterAt(base: char, v: int): (c: char)
    requires base == 'a' || base == 'A'
    requires 0 <= v < 26
    ensures IsLetter(c) && Base(c) == base && Offset(c) == v
  {
    (base as int + v) as char
  }

  /** A letter is determined by its case and its position. */
  lemma LetterDetermined(c: char, d: char)
    requires IsLetter(c) && IsLetter(d)
    requires Base(c) == Base(d) && Offset(c) == Offset(d)
    ensures c == d
  {
  }

  /** Moves a letter `s` places forward in the 26-letter ring of its case
      (`s` may be negative, in which case it moves backward). */
  function ShiftLetter(c: char, s: int): (d: char)
    requires IsLetter(c)
    ensures IsLetter(d) && Base(d) == Base(c)
    ensures Offset(d) == (Offset(c) + s) % 26
  {
    LetterAt(Base(c), (Offset(c) + s) % 26)
  }

  /** The per-character rule shared by ROT13 and Caesar: letters move
      `s` places within their case, every other character is copied. */
  function ShiftChar(c: char, s: int): (d: char)
    ensures IsLetter(d) <==> IsLetter(c)
    ensures IsLetter(c) ==> Base(d) == Base(c) && Offset(d) == (Offset(c) + s) % 26
    ensures !IsLetter(c) ==> d == c
  {
    if IsLetter(c) then ShiftLetter(c, s) else c
  }

  /** Shifting by `a` and then by `b` with `a + b` a multiple of 26
      gives back the original character. */
  lemma ShiftCharCancels(c: char, a: int, b: int)
    requires (a + b) % 26 == 0
    ensures ShiftChar(ShiftChar(c, a), b) == c
  {
    if IsLetter(c) {
      var d := ShiftChar(c, a);
      var e := ShiftChar(d, b);
      assert Offset(e) == ((Offset(c) + a) % 26 + b) % 26;
      ModSumCancels(Offset(c), a, b);
      LetterDetermined(e, c);
    }
  }

  /** `((v + a) % 26 + b) % 26 == v` whenever `v` is a position and
      `a + b` is a multiple of 26. */
  lemma ModSumCancels(v: int, a: int, b: int)
    requires 0 <= v < 26
    requires (a + b) % 26 == 0
    ensures ((v + a) % 26 + b) % 26 == v
  {
    var q := (v + a) / 26;
    assert (v + a) % 26 == v + a - 26 * q;
    var p := (a + b) / 26;
    assert a + b == 26 * p;
    assert (v + a) % 26 + b == v + 26 * (p - q);
    ModMultipleShift(v, p - q);
  }

  /** Adding a multiple of 26 does not change a position modulo 26. */
  lemma ModMultipleShift(v: int, k: int)
    requires 0 <= v < 26
    ensures (v + 26 * k) % 26 == v
  {
  }

  /** `char::to_ascii_lowercase`. */
  function ToAsciiLower(c: char): (d: char)
    ensures IsUpper(c) ==> IsLower(d) && Offset(d) == Offset(c)
    ensures !IsUpper(c) ==> d == c
  {
    if IsUpper(c) then (c as int + 32) as char else c
  }

  /** `char::to_ascii_uppercase`. */
  function ToAsciiUpper(c: char): (d: char)
    ensures IsLower(c) ==> IsUpper(d) && Offset(d) == Offset(c)
    ensures !IsLower(c) ==> d == c
  {
    if IsLower(c) then (c as int - 32) as char else c
  }
}
