/**
 Vigenère, `vigenere_cipher` and `vigenere_decipher` in
 cipha-lib/src/lib.rs.

 The key is lowercased with `to_ascii_lowercase` and then read as UTF-8
 bytes (`key.len()`, `key.as_bytes()[index % key_len]`); a cursor
 `index` advances on ASCII letters only, and the key byte it selects,
 minus `b'a'`, is the shift of that letter.
 */
module Vigenere {
  import opened Chars
  import opened Strings

  /** The key as the source indexes it. */
  function KeyBytes(key: string): (kb: seq<U8>)
    ensures |kb| == 0 <==> |key| == 0
  {
    Utf8(ToAsciiLowercase(key))
  }

  /** The number of ASCII letters, i.e. how far a pass moves the cursor. */
  function LetterCount(s: string): (n: nat)
    ensures n <= |s|
    decreases |s|
  {
    if |s| == 0 then 0 else (if IsLetter(s[0]) then 1 else 0) + LetterCount(s[1..])
  }

  /** `key.as_bytes()[index % key_len] - b'a'` before any width check. */
  function KeyShift(kb: seq<U8>, index: nat): int
    requires |kb| > 0
  {
    kb[index % |kb|] - 'a' as int
  }

  /** The cursor values `0 .. letters - 1` select only key bytes of at
      least `b'a'`, so the `u8` subtraction `- b'a'` never underflows.
      A cursor below `letters` reaches exactly the bytes below
      `min(letters, |kb|)`. */
  predicate KeyUsable(kb: seq<U8>, letters: nat) {
    forall j | 0 <= j < |kb| && j < letters :: kb[j] >= 'a' as int
  }

  /** The condition under which the source runs without panicking:
      an empty key, or a key usable for every letter of the text. */
  predicate KeyDefined(text: string, key: string) {
    var kb := KeyBytes(key);
    |kb| == 0 || KeyUsable(kb, LetterCount(text))
  }

  lemma CursorInKey(kb: seq<U8>, index: nat, letters: nat)
    requires |kb| > 0 && KeyUsable(kb, letters) && index < letters
    ensures KeyShift(kb, index) >= 0
  {
    assert index % |kb| <= index;
  }

  /** The encipher loop from cursor `index` on: each letter moves forward
      by the shift the cursor selects, then the cursor advances; other
      characters are copied and leave the cursor where it is. */
  function EncipherFrom(m: string, kb: seq<U8>, index: nat): (r: string)
    requires |kb| > 0
    ensures |r| == |m| && LetterCount(r) == LetterCount(m)
    ensures forall i | 0 <= i < |m| :: IsLetter(r[i]) <==> IsLetter(m[i])
    ensures forall i | 0 <= i < |m| && IsLetter(m[i]) :: Base(r[i]) == Base(m[i])
    ensures forall i | 0 <= i < |m| && !IsLetter(m[i]) :: r[i] == m[i]
    decreases |m|
  {
    if |m| == 0 then ""
    else if IsLetter(m[0]) then
      [ShiftLetter(m[0], KeyShift(kb, index))] + EncipherFrom(m[1..], kb, index + 1)
    else
      [m[0]] + EncipherFrom(m[1..], kb, index)
  }

  /** The decipher loop with the evidently intended arithmetic: each letter
      moves back by the selected shift, `(v - shift + 26) % 26` computed
      without a machine bound. */
  function DecipherFrom(c: string, kb: seq<U8>, index: nat): (r: string)
    requires |kb| > 0
    ensures |r| == |c| && LetterCount(r) == LetterCount(c)
    ensures forall i | 0 <= i < |c| :: IsLetter(r[i]) <==> IsLetter(c[i])
    ensures forall i | 0 <= i < |c| && IsLetter(c[i]) :: Base(r[i]) == Base(c[i])
    ensures forall i | 0 <= i < |c| && !IsLetter(c[i]) :: r[i] == c[i]
    decreases |c|
  {
    if |c| == 0 then ""
    else if IsLetter(c[0]) then
      [LetterAt(Base(c[0]), (Offset(c[0]) - KeyShift(kb, index) + 26) % 26)] + DecipherFrom(c[1..], kb, index + 1)
    else
      [c[0]] + DecipherFrom(c[1..], kb, index)
  }

  /** The `u8` expression `c as u8 - first - shift + 26` is evaluated left
      to right, so it underflows as soon as the shift exceeds the
      letter's position. This holds when that never happens. */
  predicate NoUnderflowFrom(c: string, kb: seq<U8>, index: nat)
    requires |kb| > 0
    decreases |c|
  {
    if |c| == 0 then true
    else if IsLetter(c[0]) then Offset(c[0]) >= KeyShift(kb, index) && NoUnderflowFrom(c[1..], kb, index + 1)
    else NoUnderflowFrom(c[1..], kb, index)
  }

  /** The decipher loop as written, defined only where it does not panic;
      there it agrees with the intended arithmetic. */
  function DecipherAsWrittenFrom(c: string, kb: seq<U8>, index: nat): (r: string)
    requires |kb| > 0 && KeyUsable(kb, index + LetterCount(c))
    requires NoUnderflowFrom(c, kb, index)
    ensures r == DecipherFrom(c, kb, index)
    decreases |c|
  {
    if |c| == 0 then ""
    else if IsLetter(c[0]) then
      CursorInKey(kb, index, index + LetterCount(c));
      var shift := KeyShift(kb, index);
      var v := Offset(c[0]) - shift;
      [LetterAt(Base(c[0]), (v + 26) % 26)] + DecipherAsWrittenFrom(c[1..], kb, index + 1)
    else
      [c[0]] + DecipherAsWrittenFrom(c[1..], kb, index)
  }

  /** `vigenere_cipher`: the empty key is the identity, otherwise every
      letter is shifted by the key letter its cursor selects. */
  function VigenereCipher(plaintext: string, key: string): (r: string)
    requires KeyDefined(plaintext, key)
    ensures |key| == 0 ==> r == plaintext
    ensures |r| == |plaintext| && LetterCount(r) == LetterCount(plaintext)
    ensures forall i | 0 <= i < |plaintext| && !IsLetter(plaintext[i]) :: r[i] == plaintext[i]
  {
    var kb := KeyBytes(key);
    if |kb| == 0 then plaintext else EncipherFrom(plaintext, kb, 0)
  }

  /** `vigenere_decipher` with its subtraction done as intended: the
      empty key is the identity, and otherwise it undoes `VigenereCipher`
      (see `VigenereRoundTrip`). */
  function VigenereDecipher(ciphertext: string, key: string): (r: string)
    requires KeyDefined(ciphertext, key)
    ensures |key| == 0 ==> r == ciphertext
    ensures |r| == |ciphertext| && LetterCount(r) == LetterCount(ciphertext)
    ensures forall i | 0 <= i < |ciphertext| && !IsLetter(ciphertext[i]) :: r[i] == ciphertext[i]
  {
    var kb := KeyBytes(key);
    if |kb| == 0 then ciphertext else DecipherFrom(ciphertext, kb, 0)
  }

  /** The debug build of `vigenere_decipher` runs without panicking. */
  predicate DecipherAsWrittenDefined(ciphertext: string, key: string) {
    var kb := KeyBytes(key);
    |kb| == 0 || (KeyUsable(kb, LetterCount(ciphertext)) && NoUnderflowFrom(ciphertext, kb, 0))
  }

  /** `vigenere_decipher` as written: defined only where its `u8`
      subtraction does not underflow, and there equal to the intended
      `VigenereDecipher`. */
  function VigenereDecipherAsWritten(ciphertext: string, key: string): (r: string)
    requires DecipherAsWrittenDefined(ciphertext, key)
    ensures KeyDefined(ciphertext, key) && r == VigenereDecipher(ciphertext, key)
  {
    var kb := KeyBytes(key);
    if |kb| == 0 then ciphertext else DecipherAsWrittenFrom(ciphertext, kb, 0)
  }

  /** The letter at position `i` is shifted by the key byte at cursor
      `index + (number of letters before i)`: only letters advance the
      cursor. */
  lemma {:induction false} EncipherAt(m: string, kb: seq<U8>, index: nat, i: nat, cursor: nat)
    requires |kb| > 0
    requires i < |m| && IsLetter(m[i])
    requires cursor == index + LetterCount(m[..i])
    ensures EncipherFrom(m, kb, index)[i] == ShiftLetter(m[i], KeyShift(kb, cursor))
    decreases i
  {
    var step := EncipherStep(m, kb, index);
    if i > 0 {
      PrefixCount(m, i);
      var rest := m[1..];
      var next: nat := index + step;
      var j: nat := i - 1;
      EncipherAt(rest, kb, next, j, cursor);
      IndexAfterFirst(EncipherFrom(m, kb, index), EncipherFrom(rest, kb, next), i, ShiftLetter(m[i], KeyShift(kb, cursor)));
    } else {
      assert LetterCount(m[..0]) == 0;
      EncipherFirst(m, kb, index);
    }
  }

  lemma IndexAfterFirst(r: string, t: string, i: nat, x: char)
    requires 0 < i < |r| && r[1..] == t && t[i - 1] == x
    ensures r[i] == x
  {
  }

  /** The letters before position `i` are the first character's share and
      the letters before position `i - 1` of the rest. */
  lemma PrefixCount(m: string, i: nat)
    requires 0 < i <= |m|
    ensures LetterCount(m[..i]) == (if IsLetter(m[0]) then 1 else 0) + LetterCount(m[1..][..i - 1])
  {
    assert m[..i][1..] == m[1..][..i - 1];
  }

  /** A first letter is shifted by the key byte at the cursor. */
  lemma EncipherFirst(m: string, kb: seq<U8>, index: nat)
    requires |kb| > 0
    requires 0 < |m| && IsLetter(m[0])
    ensures EncipherFrom(m, kb, index)[0] == ShiftLetter(m[0], KeyShift(kb, index))
  {
  }

  /** The first character and the rest of an enciphering, with the cursor
      step the first character takes. */
  lemma EncipherStep(m: string, kb: seq<U8>, index: nat) returns (step: nat)
    requires |kb| > 0 && |m| > 0
    ensures step == if IsLetter(m[0]) then 1 else 0
    ensures LetterCount(m) == step + LetterCount(m[1..])
    ensures IsLetter(m[0]) ==> EncipherFrom(m, kb, index)[0] == ShiftLetter(m[0], KeyShift(kb, index))
    ensures EncipherFrom(m, kb, index)[1..] == EncipherFrom(m[1..], kb, index + step)
  {
    step := if IsLetter(m[0]) then 1 else 0;
  }

  /** Moving a letter forward by `s` and back by `s` restores it. */
  lemma UnshiftShift(c: char, s: int)
    requires IsLetter(c)
    ensures LetterAt(Base(c), (Offset(ShiftLetter(c, s)) - s + 26) % 26) == c
  {
    var d := ShiftLetter(c, s);
    ModSumCancels(Offset(c), s, 26 - s);
    assert Offset(d) - s + 26 == Offset(d) + (26 - s);
    LetterDetermined(LetterAt(Base(c), (Offset(d) - s + 26) % 26), c);
  }

  /** Deciphering from the same cursor undoes enciphering. */
  lemma {:induction false} DecipherEncipherFrom(m: string, kb: seq<U8>, index: nat)
    requires |kb| > 0
    ensures DecipherFrom(EncipherFrom(m, kb, index), kb, index) == m
    decreases |m|
  {
    if |m| > 0 {
      var step := EncipherStep(m, kb, index);
      DecipherEncipherFrom(m[1..], kb, index + step);
      DecipherEncipherTail(m, kb, index);
      DecipherEncipherHead(m, kb, index);
      HeadTail(DecipherFrom(EncipherFrom(m, kb, index), kb, index), m);
    }
  }

  /** The rest of a round trip is the round trip of the rest. */
  lemma DecipherEncipherTail(m: string, kb: seq<U8>, index: nat)
    requires |kb| > 0 && |m| > 0
    requires var next := index + (if IsLetter(m[0]) then 1 else 0);
      DecipherFrom(EncipherFrom(m[1..], kb, next), kb, next) == m[1..]
    ensures DecipherFrom(EncipherFrom(m, kb, index), kb, index)[1..] == m[1..]
  {
    var step := EncipherStep(m, kb, index);
    var r := EncipherFrom(m, kb, index);
    var _ := DecipherStep(r, kb, index);
  }

  /** The first character survives a round trip. */
  lemma DecipherEncipherHead(m: string, kb: seq<U8>, index: nat)
    requires |kb| > 0 && |m| > 0
    ensures DecipherFrom(EncipherFrom(m, kb, index), kb, index)[0] == m[0]
  {
    var _ := EncipherStep(m, kb, index);
    var _ := DecipherStep(EncipherFrom(m, kb, index), kb, index);
    if IsLetter(m[0]) {
      UnshiftShift(m[0], KeyShift(kb, index));
    }
  }

  /** The first character and the rest of a deciphering. */
  lemma DecipherStep(c: string, kb: seq<U8>, index: nat) returns (step: nat)
    requires |kb| > 0 && |c| > 0
    ensures step == if IsLetter(c[0]) then 1 else 0
    ensures IsLetter(c[0]) ==>
      DecipherFrom(c, kb, index)[0] == LetterAt(Base(c[0]), (Offset(c[0]) - KeyShift(kb, index) + 26) % 26)
    ensures DecipherFrom(c, kb, index)[1..] == DecipherFrom(c[1..], kb, index + step)
  {
    step := if IsLetter(c[0]) then 1 else 0;
  }

  /** Two strings with the same first character and the same rest are equal. */
  lemma HeadTail(a: string, b: string)
    requires |a| == |b| > 0 && a[0] == b[0] && a[1..] == b[1..]
    ensures a == b
  {
    assert a == [a[0]] + a[1..];
    assert b == [b[0]] + b[1..];
  }

  /** `vigenere_decipher(vigenere_cipher(m, k), k) == m` for every key the
      source accepts, once the subtraction is done as intended. */
  lemma VigenereRoundTrip(plaintext: string, key: string)
    requires KeyDefined(plaintext, key)
    ensures KeyDefined(VigenereCipher(plaintext, key), key)
    ensures VigenereDecipher(VigenereCipher(plaintext, key), key) == plaintext
  {
    var kb := KeyBytes(key);
    if |kb| > 0 {
      DecipherEncipherFrom(plaintext, kb, 0);
    }
  }

  /** A key of ASCII letters is accepted for every text. */
  lemma LetterKeyDefined(text: string, key: string)
    requires AllLetters(key)
    ensures KeyDefined(text, key)
  {
    var lower := ToAsciiLowercase(key);
    assert IsAscii(lower);
    var kb := KeyBytes(key);
    forall j | 0 <= j < |kb|
      ensures kb[j] >= 'a' as int
    {
      assert kb[j] == lower[j] as int;
    }
  }

  /** Only the lowercase form of the key matters: an uppercase or
      lowercase copy of it gives the same ciphertext. */
  lemma KeyCaseIrrelevant(plaintext: string, key: string)
    requires KeyDefined(plaintext, key)
    ensures KeyDefined(plaintext, ToAsciiLowercase(key))
    ensures KeyDefined(plaintext, ToAsciiUppercase(key))
    ensures VigenereCipher(plaintext, ToAsciiLowercase(key)) == VigenereCipher(plaintext, key)
    ensures VigenereCipher(plaintext, ToAsciiUppercase(key)) == VigenereCipher(plaintext, key)
  {
    LowercaseIdempotent(key);
  }

  /** For an ASCII key, the key bytes are the lowercased key characters. */
  lemma AsciiKeyBytes(key: string)
    requires IsAscii(key)
    ensures |KeyBytes(key)| == |key|
    ensures forall j | 0 <= j < |key| :: KeyBytes(key)[j] == ToAsciiLower(key[j]) as int
  {
    assert IsAscii(ToAsciiLowercase(key));
  }

  lemma {:induction false} LetterCountAllLetters(s: string)
    requires AllLetters(s)
    ensures LetterCount(s) == |s|
    decreases |s|
  {
    if |s| > 0 {
      LetterCountAllLetters(s[1..]);
    }
  }

  /** For a text of letters only and a key of letters only, the letter at
      position `i` is shifted by key letter `i mod |key|`, lowercased. */
  lemma VigenereOnLetters(plaintext: string, key: string, i: nat)
    requires AllLetters(plaintext) && AllLetters(key) && |key| > 0
    requires i < |plaintext|
    ensures KeyDefined(plaintext, key)
    ensures VigenereCipher(plaintext, key)[i] ==
      ShiftLetter(plaintext[i], ToAsciiLower(key[i % |key|]) as int - 'a' as int)
  {
    LetterKeyDefined(plaintext, key);
    AsciiKeyBytes(key);
    LetterCountAllLetters(plaintext[..i]);
    EncipherAt(plaintext, KeyBytes(key), 0, i, i);
  }

  /** For letters-only text and key, the ciphertext is the one string whose
      letter `i` is the text letter `i` moved by key letter `i mod |key|`. */
  lemma VigenereIsKeyedShift(plaintext: string, key: string, expected: string)
    requires AllLetters(plaintext) && AllLetters(key) && |key| > 0
    requires |expected| == |plaintext|
    requires forall i | 0 <= i < |plaintext| ::
      IsLetter(expected[i]) && Base(expected[i]) == Base(plaintext[i]) &&
      Offset(expected[i]) == (Offset(plaintext[i]) + ToAsciiLower(key[i % |key|]) as int - 'a' as int) % 26
    ensures KeyDefined(plaintext, key)
    ensures VigenereCipher(plaintext, key) == expected
  {
    LetterKeyDefined(plaintext, key);
    var r := VigenereCipher(plaintext, key);
    forall i | 0 <= i < |plaintext|
      ensures r[i] == expected[i]
    {
      VigenereOnLetters(plaintext, key, i);
      LetterDetermined(r[i], expected[i]);
    }
  }

  /** The vector of the library's `test_vigenere_cipher`. */
  lemma VigenereExample()
    ensures KeyDefined("ATTACKATDAWN", "LEMON")
    ensures VigenereCipher("ATTACKATDAWN", "LEMON") == "LXFOPVEFRNHR"
  {
    LemonVector("ATTACKATDAWN", "LEMON");
  }

  lemma LemonVector(plaintext: string, key: string)
    requires plaintext == "ATTACKATDAWN" && key == "LEMON"
    ensures KeyDefined(plaintext, key)
    ensures VigenereCipher(plaintext, key) == "LXFOPVEFRNHR"
  {
    VigenereIsKeyedShift(plaintext, key, "LXFOPVEFRNHR");
  }

  /** The debug build of `vigenere_decipher` cannot decipher the library's
      own test vector: at the third letter, `F` (position 5) is reduced by
      the shift 12 of key letter `m`, and `5 - 12` underflows. */
  lemma LemonDecipherUnderflows()
    ensures !DecipherAsWrittenDefined("LXFOPVEFRNHR", "LEMON")
  {
    var c := "LXFOPVEFRNHR";
    var kb := KeyBytes("LEMON");
    AsciiKeyBytes("LEMON");
    assert kb[2] == 'm' as int;
    assert c[2..][1..] == c[3..];
    assert !NoUnderflowFrom(c[2..], kb, 2);
    assert c[1..][1..] == c[2..];
    assert !NoUnderflowFrom(c, kb, 0);
  }
}
