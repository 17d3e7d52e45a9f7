/**
 The pieces of Rust's `str`/`String` API the library relies on:
 ASCII case mapping, `trim`, UTF-8 encoding (for `len` and `as_bytes`),
 `split(' ')`, joining tokens with single spaces, and the decimal
 `to_string`/`parse` of integers.
 */
module Strings {
  import opened Chars

  /** A value that may be missing; `None` also stands for a panic. */
  datatype Option<T> = None | Some(value: T)

  /** `str::is_ascii`. */
  predicate IsAscii(s: string) {
    forall i | 0 <= i < |s| :: IsAsciiChar(s[i])
  }

  predicate AllWhitespace(s: string) {
    forall i | 0 <= i < |s| :: IsWhitespace(s[i])
  }

  predicate AllDigits(s: string) {
    forall i | 0 <= i < |s| :: IsDigit(s[i])
  }

  predicate AllLetters(s: string) {
    forall i | 0 <= i < |s| :: IsLetter(s[i])
  }

  /** `str::to_ascii_lowercase`. */
  function ToAsciiLowercase(s: string): (r: string)
    ensures |r| == |s|
    ensures forall i | 0 <= i < |s| :: r[i] == ToAsciiLower(s[i])
  {
    seq(|s|, i requires 0 <= i < |s| => ToAsciiLower(s[i]))
  }

  /** `str::to_ascii_uppercase`, which for ASCII text is also what
      `str::to_uppercase` computes. */
  function ToAsciiUppercase(s: string): (r: string)
    ensures |r| == |s|
    ensures forall i | 0 <= i < |s| :: r[i] == ToAsciiUpper(s[i])
  {
    seq(|s|, i requires 0 <= i < |s| => ToAsciiUpper(s[i]))
  }

  /** Lowercasing twice is lowercasing once, and lowercasing forgets
      which case a letter had. */
  lemma LowercaseIdempotent(s: string)
    ensures ToAsciiLowercase(ToAsciiLowercase(s)) == ToAsciiLowercase(s)
    ensures ToAsciiLowercase(ToAsciiUppercase(s)) == ToAsciiLowercase(s)
  {
    var l := ToAsciiLowercase(s);
    var ll := ToAsciiLowercase(l);
    forall i | 0 <= i < |s|
      ensures ll[i] == l[i]
    {
      if IsUpper(s[i]) {
        LetterDetermined(ToAsciiLower(l[i]), l[i]);
      }
    }
    var u := ToAsciiUppercase(s);
    var lu := ToAsciiLowercase(u);
    forall i | 0 <= i < |s|
      ensures lu[i] == l[i]
    {
      if IsLower(s[i]) {
        LetterDetermined(lu[i], s[i]);
      } else if IsUpper(s[i]) {
        LetterDetermined(lu[i], l[i]);
      }
    }
  }

  /** `str::trim_start`: drops the leading whitespace. */
  function TrimStart(s: string): (r: string)
    ensures |r| <= |s| && r == s[|s| - |r|..]
    ensures forall i | 0 <= i < |s| - |r| :: IsWhitespace(s[i])
    ensures r == [] || !IsWhitespace(r[0])
    decreases |s|
  {
    if |s| > 0 && IsWhitespace(s[0]) then TrimStart(s[1..]) else s
  }

  /** `str::trim_end`: drops the trailing whitespace. */
  function TrimEnd(s: string): (r: string)
    ensures |r| <= |s| && r == s[..|r|]
    ensures forall i | |r| <= i < |s| :: IsWhitespace(s[i])
    ensures r == [] || !IsWhitespace(r[|r| - 1])
    decreases |s|
  {
    if |s| > 0 && IsWhitespace(s[|s| - 1]) then TrimEnd(s[..|s| - 1]) else s
  }

  /** `str::trim`: drops whitespace at both ends. */
  function Trim(s: string): (r: string)
    ensures r == [] || (!IsWhitespace(r[0]) && !IsWhitespace(r[|r| - 1]))
  {
    TrimStart(TrimEnd(s))
  }

  /** The whitespace `TrimEnd` drops, as a suffix of its input. */
  lemma TrimEndParts(s: string) returns (tail: string)
    ensures AllWhitespace(tail) && s == TrimEnd(s) + tail
  {
    var body := TrimEnd(s);
    tail := s[|body|..];
    assert s == s[..|body|] + s[|body|..];
  }

  /** The whitespace `TrimStart` drops, as a prefix of its input. */
  lemma TrimStartParts(s: string) returns (lead: string)
    ensures AllWhitespace(lead) && s == lead + TrimStart(s)
  {
    var t := TrimStart(s);
    var k := |s| - |t|;
    lead := s[..k];
    assert t == s[k..];
    assert s == lead + s[k..];
  }

  /** A string is its trim with whitespace before and after it. */
  lemma TrimParts(s: string) returns (lead: string, tail: string)
    ensures AllWhitespace(lead) && AllWhitespace(tail)
    ensures s == lead + (Trim(s) + tail)
  {
    tail := TrimEndParts(s);
    lead := TrimStartParts(TrimEnd(s));
    Regroup(s, TrimEnd(s), lead, Trim(s), tail);
  }

  lemma Regroup(s: string, body: string, lead: string, t: string, tail: string)
    requires s == body + tail && body == lead + t
    ensures s == lead + (t + tail)
  {
  }

  /** A string that neither starts nor ends with whitespace is its own trim. */
  lemma TrimUnchanged(s: string)
    requires s == [] || (!IsWhitespace(s[0]) && !IsWhitespace(s[|s| - 1]))
    ensures Trim(s) == s
  {
  }

  /** Trimming a string followed by one space removes just that space,
      provided the string neither starts nor ends with whitespace. */
  lemma TrimTrailingSpace(s: string)
    requires s == [] || (!IsWhitespace(s[0]) && !IsWhitespace(s[|s| - 1]))
    ensures Trim(s + " ") == s
  {
    assert IsWhitespace(' ');
    assert (s + " ")[..|s|] == s;
  }

  /** The UTF-8 encoding of one scalar value (RFC 3629, section 3). */
  function Utf8Char(c: char): (bytes: seq<U8>)
    ensures 1 <= |bytes| <= 4
    ensures IsAsciiChar(c) <==> |bytes| == 1
    ensures IsAsciiChar(c) ==> bytes == [c as int]
    ensures !IsAsciiChar(c) ==> forall k | 0 <= k < |bytes| :: bytes[k] >= 0x80
  {
    var n := c as int;
    if n < 0x80 then [n]
    else if n < 0x800 then [0xC0 + n / 64, 0x80 + n % 64]
    else if n < 0x1_0000 then [0xE0 + n / 4096, 0x80 + (n / 64) % 64, 0x80 + n % 64]
    else [0xF0 + n / 262144, 0x80 + (n / 4096) % 64, 0x80 + (n / 64) % 64, 0x80 + n % 64]
  }

  /** `str::as_bytes`. */
  function Utf8(s: string): (bytes: seq<U8>)
    ensures |bytes| >= |s|
    ensures |bytes| == 0 <==> |s| == 0
    ensures IsAscii(s) ==> |bytes| == |s| && forall i | 0 <= i < |s| :: bytes[i] == s[i] as int
    decreases |s|
  {
    if |s| == 0 then [] else Utf8Char(s[0]) + Utf8(s[1..])
  }

  /** `str::len`: the length in UTF-8 bytes, not in characters. */
  function Utf8Len(s: string): (n: nat)
    ensures n >= |s|
    ensures n == 0 <==> |s| == 0
    ensures IsAscii(s) ==> n == |s|
  {
    |Utf8(s)|
  }

  /** Encoding distributes over concatenation. */
  lemma {:induction false} Utf8Append(a: string, b: string)
    ensures Utf8(a + b) == Utf8(a) + Utf8(b)
    decreases |a|
  {
    if |a| == 0 {
      assert a + b == b;
    } else {
      assert (a + b)[1..] == a[1..] + b;
      Utf8Append(a[1..], b);
    }
  }

  /** The tokens joined by single spaces, as `push(' ')` after every
      token followed by dropping the last space produces. */
  function JoinSpace(tokens: seq<string>): string
    decreases |tokens|
  {
    if |tokens| == 0 then ""
    else if |tokens| == 1 then tokens[0]
    else tokens[0] + " " + JoinSpace(tokens[1..])
  }

  /** `str::split(' ')`: the pieces between single spaces, empty pieces
      included, so there is always at least one piece. */
  function SplitSpace(s: string): (pieces: seq<string>)
    ensures |pieces| >= 1
    ensures forall k | 0 <= k < |pieces| :: NoSpace(pieces[k])
    ensures JoinSpace(pieces) == s
    decreases |s|
  {
    if |s| == 0 then [""]
    else
      var rest := SplitSpace(s[1..]);
      if s[0] == ' ' then [""] + rest
      else [[s[0]] + rest[0]] + rest[1..]
  }

  predicate NoSpace(s: string) {
    forall i | 0 <= i < |s| :: s[i] != ' '
  }

  /** A non-empty string is its first character followed by the rest. */
  lemma FirstRest(s: string)
    requires |s| > 0
    ensures [s[0]] + s[1..] == s
  {
  }

  /** A string without spaces splits into itself. */
  lemma {:induction false} SplitNoSpace(s: string)
    requires NoSpace(s)
    ensures SplitSpace(s) == [s]
    decreases |s|
  {
    if |s| > 0 {
      SplitNoSpace(s[1..]);
      assert [s[0]] + s[1..] == s;
    }
  }

  /** Splitting at the first space peels off the text before it. */
  lemma {:induction false} SplitAtSpace(a: string, b: string)
    requires NoSpace(a)
    ensures SplitSpace(a + " " + b) == [a] + SplitSpace(b)
    decreases |a|
  {
    if |a| == 0 {
      assert a + " " + b == [' '] + b;
      assert ([' '] + b)[1..] == b;
    } else {
      var s := a + " " + b;
      assert s[0] == a[0];
      assert s[1..] == a[1..] + " " + b;
      SplitAtSpace(a[1..], b);
      assert [a[0]] + a[1..] == a;
    }
  }

  /** Splitting undoes joining, provided no token holds a space. */
  lemma {:induction false} SplitJoin(tokens: seq<string>)
    requires |tokens| >= 1
    requires forall k | 0 <= k < |tokens| :: NoSpace(tokens[k])
    ensures SplitSpace(JoinSpace(tokens)) == tokens
    decreases |tokens|
  {
    if |tokens| == 1 {
      SplitNoSpace(tokens[0]);
    } else {
      SplitAtSpace(tokens[0], JoinSpace(tokens[1..]));
      SplitJoin(tokens[1..]);
      assert [tokens[0]] + tokens[1..] == tokens;
    }
  }

  /** The ASCII digit for a value below ten. */
  function DigitChar(d: int): (c: char)
    requires 0 <= d < 10
    ensures IsDigit(c)
  {
    ('0' as int + d) as char
  }

  function DigitValue(c: char): (d: nat)
    requires IsDigit(c)
    ensures d < 10
  {
    c as int - '0' as int
  }

  /** Ten to the power `n`. */
  function Pow10(n: nat): (p: nat)
    ensures p >= 1
  {
    if n == 0 then 1 else 10 * Pow10(n - 1)
  }

  lemma Pow10Hundred(k: nat)
    ensures k >= 2 ==> Pow10(k) >= 100
  {
    if k >= 2 {
      assert Pow10(k) == 100 * Pow10(k - 2);
    }
  }

  /** `str::parse` of a run of ASCII digits, before any width check. */
  function ParseDecimal(s: string): (n: nat)
    requires AllDigits(s)
    ensures n < Pow10(|s|)
    decreases |s|
  {
    if |s| == 0 then 0 else ParseDecimal(s[..|s| - 1]) * 10 + DigitValue(s[|s| - 1])
  }

  /** Multiplying by ten commutes with any other factor. */
  lemma MulTen(a: int, b: int)
    ensures a * (10 * b) == (a * b) * 10
  {
  }

  /** Positional notation: the leading digit counts ten to the power of
      the number of digits after it. */
  lemma {:induction false} ParseLeading(c: char, s: string)
    requires IsDigit(c) && AllDigits(s)
    ensures AllDigits([c] + s)
    ensures ParseDecimal([c] + s) == DigitValue(c) * Pow10(|s|) + ParseDecimal(s)
    decreases |s|
  {
    var t := [c] + s;
    if |s| > 0 {
      var front := s[..|s| - 1];
      assert t[..|t| - 1] == [c] + front;
      ParseLeading(c, front);
      var d: int, p: int, last := DigitValue(c), Pow10(|front|), DigitValue(s[|s| - 1]);
      assert t[|t| - 1] == s[|s| - 1];
      assert ParseDecimal(t) == ParseDecimal([c] + front) * 10 + last;
      assert Pow10(|s|) == 10 * p;
      MulTen(d, p);
    } else {
      assert t[..|t| - 1] == [];
    }
  }

  /** Reading one more digit multiplies by ten and adds it. */
  lemma ParseAppend(s: string, c: char)
    requires AllDigits(s) && IsDigit(c)
    ensures AllDigits(s + [c])
    ensures ParseDecimal(s + [c]) == ParseDecimal(s) * 10 + DigitValue(c)
  {
    assert (s + [c])[..|s|] == s;
  }

  /** `to_string` of an unsigned integer: its decimal digits. */
  function Decimal(n: nat): (s: string)
    ensures |s| >= 1 && AllDigits(s)
    ensures ParseDecimal(s) == n
    ensures n < 10 ==> |s| == 1
    ensures n == 0 ==> s == "0"
    decreases n
  {
    if n < 10 then [DigitChar(n)]
    else
      var s := Decimal(n / 10) + [DigitChar(n % 10)];
      assert s[..|s| - 1] == Decimal(n / 10);
      s
  }

  /** The digits `to_string` writes are canonical: no leading zero, and
      no more digits than the value needs. */
  lemma {:induction false} DecimalCanonical(n: nat)
    ensures n > 0 ==> Decimal(n)[0] != '0'
    ensures n > 0 ==> Pow10(|Decimal(n)| - 1) <= n
    decreases n
  {
    if n >= 10 {
      var d := Decimal(n / 10);
      DecimalCanonical(n / 10);
      assert Decimal(n) == d + [DigitChar(n % 10)];
      assert Decimal(n)[0] == d[0];
      assert Pow10(|d|) == 10 * Pow10(|d| - 1);
    }
  }

}
