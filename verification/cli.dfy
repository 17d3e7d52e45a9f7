/**
 The two dispatch functions of cipha-cli/src/main.rs, `encode_message`
 and `decode_message`: a cipher name selects a library function, a
 missing shift defaults to 3 and a missing key to the empty key.

 A result of `None` is a panic of the debug build (a `u8` overflow or
 underflow, a failed `unwrap`); `Some` is the string the function returns.
 */
module Cli {
  import opened Chars
  import opened Strings
  import Rot13
  import Caesar
  import Reverse
  import AlphaNum
  import Vigenere
  import Morse
  import Atbash

  /** `Option::unwrap_or`. */
  function UnwrapOr<T>(o: Option<T>, default: T): (v: T)
    ensures o.None? ==> v == default
    ensures o.Some? ==> v == o.value
  {
    match o
    case None => default
    case Some(x) => x
  }

  /** The seven names both functions route. */
  predicate Supported(cipher: string) {
    cipher in {"rot13", "caesar", "reverse", "gematria", "vigenere", "morse", "atbash"}
  }

  const Unsupported: string := "Unsupported cipher"

  /** `encode_message`. A name outside the seven gives the fixed message;
      Caesar panics where its `u8` sum overflows and Vigenère where a key
      byte below `b'a'` is used. Morse is modelled on ASCII text only. */
  function EncodeMessage(cipher: string, message: string, shift: Option<U8>, key: Option<string>): (r: Option<string>)
    requires cipher == "morse" ==> IsAscii(message)
    ensures !Supported(cipher) ==> r == Some(Unsupported)
    ensures r.None? <==>
      (cipher == "caesar" && !Caesar.CaesarDefined(message, UnwrapOr(shift, 3))) ||
      (cipher == "vigenere" && !Vigenere.KeyDefined(message, UnwrapOr(key, "")))
  {
    if cipher == "rot13" then Some(Rot13.Rot13(message))
    else if cipher == "caesar" then
      var s := UnwrapOr(shift, 3);
      if Caesar.CaesarDefined(message, s) then Some(Caesar.CaesarCipher(message, s)) else None
    else if cipher == "reverse" then Some(Reverse.ReverseCipher(message))
    else if cipher == "gematria" then Some(AlphaNum.Alpha2Num(message))
    else if cipher == "vigenere" then
      var k := UnwrapOr(key, "");
      if Vigenere.KeyDefined(message, k) then Some(Vigenere.VigenereCipher(message, k)) else None
    else if cipher == "morse" then Some(Morse.MorseCodeCipher(message))
    else if cipher == "atbash" then Some(Atbash.AtbashCipher(message))
    else Some(Unsupported)
  }

  /** The shift `decode_message` passes to `caesar_cipher`:
      `shift.unwrap_or(3) * 25` in `u8`, `None` where the product
      overflows, that is for shifts of 11 and more. */
  function ReverseShiftAsWritten(shift: Option<U8>): (r: Option<U8>)
    ensures r.Some? <==> UnwrapOr(shift, 3) <= 10
    ensures r.Some? ==> (UnwrapOr(shift, 3) + r.value) % 26 == 0
  {
    var s: int := UnwrapOr(shift, 3);
    if s * 25 < 256 then Some(s * 25) else None
  }

  /** `decode_message` as written: Caesar by `shift * 25` in `u8`,
      `vigenere_decipher` with its underflowing subtraction and `num2alpha`
      with its stale buffer. */
  function DecodeMessageAsWritten(cipher: string, message: string, shift: Option<U8>, key: Option<string>): (r: Option<string>)
    ensures !Supported(cipher) ==> r == Some(Unsupported)
    ensures cipher == "caesar" && UnwrapOr(shift, 3) > 10 ==> r.None?
    ensures cipher == "vigenere" ==>
      (r.Some? <==> Vigenere.DecipherAsWrittenDefined(message, UnwrapOr(key, "")))
  {
    if cipher == "rot13" then Some(Rot13.Rot13(message))
    else if cipher == "caesar" then
      match ReverseShiftAsWritten(shift)
      case None => None
      case Some(s) => if Caesar.CaesarDefined(message, s) then Some(Caesar.CaesarCipher(message, s)) else None
    else if cipher == "reverse" then Some(Reverse.ReverseCipher(message))
    else if cipher == "gematria" then AlphaNum.Num2AlphaAsWritten(message)
    else if cipher == "vigenere" then
      var k := UnwrapOr(key, "");
      if Vigenere.DecipherAsWrittenDefined(message, k) then Some(Vigenere.VigenereDecipherAsWritten(message, k)) else None
    else if cipher == "morse" then Some(Morse.MorseCodeDecipher(message))
    else if cipher == "atbash" then Some(Atbash.AtbashDecipher(message))
    else Some(Unsupported)
  }

  /** The reverse Caesar shift as evidently intended: `26 - shift % 26`,
      which never overflows and cancels every shift. */
  function ReverseShift(shift: Option<U8>): (r: U8)
    ensures (UnwrapOr<U8>(shift, 3) + r) % 26 == 0
  {
    var s: int := UnwrapOr(shift, 3);
    assert s + (26 - s % 26) == 26 * (s / 26) + 26;
    26 - s % 26
  }

  /** `decode_message` with the reverse shift, the Vigenère subtraction
      and the `num2alpha` buffer all as evidently intended. Caesar never
      fails; Vigenère fails on a key byte below `b'a'`, as enciphering
      does, and gematria on a number above `u32::MAX`. */
  function DecodeMessage(cipher: string, message: string, shift: Option<U8>, key: Option<string>): (r: Option<string>)
    ensures !Supported(cipher) ==> r == Some(Unsupported)
    ensures r.None? <==>
      (cipher == "gematria" && AlphaNum.Num2Alpha(message).None?) ||
      (cipher == "vigenere" && !Vigenere.KeyDefined(message, UnwrapOr(key, "")))
  {
    if cipher == "rot13" then Some(Rot13.Rot13(message))
    else if cipher == "caesar" then
      var s := ReverseShift(shift);
      Caesar.SmallShiftDefined(message, s);
      Some(Caesar.CaesarCipher(message, s))
    else if cipher == "reverse" then Some(Reverse.ReverseCipher(message))
    else if cipher == "gematria" then AlphaNum.Num2Alpha(message)
    else if cipher == "vigenere" then
      var k := UnwrapOr(key, "");
      if Vigenere.KeyDefined(message, k) then Some(Vigenere.VigenereDecipher(message, k)) else None
    else if cipher == "morse" then Some(Morse.MorseCodeDecipher(message))
    else if cipher == "atbash" then Some(Atbash.AtbashDecipher(message))
    else Some(Unsupported)
  }

  /** The ciphers whose decoding undoes their encoding for every message:
      ROT13, reverse, Atbash, Caesar with any shift, and Vigenère with a
      key of ASCII letters or no key at all. */
  predicate Invertible(cipher: string, key: Option<string>) {
    || cipher in {"rot13", "reverse", "atbash", "caesar"}
    || (cipher == "vigenere" && (key.None? || AllLetters(key.value)))
  }

  /** `decode_message(c, encode_message(c, m)) == m` with the corrected
      decoder, for every invertible cipher and every message it encodes. */
  lemma CliRoundTrip(cipher: string, message: string, shift: Option<U8>, key: Option<string>)
    requires Invertible(cipher, key)
    requires cipher == "caesar" ==> Caesar.CaesarDefined(message, UnwrapOr(shift, 3))
    ensures EncodeMessage(cipher, message, shift, key).Some?
    ensures DecodeMessage(cipher, EncodeMessage(cipher, message, shift, key).value, shift, key) == Some(message)
  {
    var encoded := EncodeMessage(cipher, message, shift, key);
    if cipher == "rot13" {
      Rot13.Rot13Involution(message);
    } else if cipher == "reverse" {
      Reverse.ReverseInvolution(message);
    } else if cipher == "atbash" {
      Atbash.AtbashInvolution(message);
    } else if cipher == "caesar" {
      CaesarRoundTrip(message, shift, key);
    } else {
      VigenereRoundTrip(message, shift, key);
    }
  }

  lemma CaesarRoundTrip(message: string, shift: Option<U8>, key: Option<string>)
    requires Caesar.CaesarDefined(message, UnwrapOr(shift, 3))
    ensures EncodeMessage("caesar", message, shift, key).Some?
    ensures DecodeMessage("caesar", EncodeMessage("caesar", message, shift, key).value, shift, key) == Some(message)
  {
    var s := UnwrapOr(shift, 3);
    var back := ReverseShift(shift);
    var once := Caesar.CaesarCipher(message, s);
    CaesarRoutes(message, shift, key);
    CaesarRoutes(once, shift, key);
    Caesar.SmallShiftDefined(once, back);
    Caesar.CaesarCancels(message, s, back);
  }

  lemma VigenereRoundTrip(message: string, shift: Option<U8>, key: Option<string>)
    requires key.None? || AllLetters(key.value)
    ensures EncodeMessage("vigenere", message, shift, key).Some?
    ensures DecodeMessage("vigenere", EncodeMessage("vigenere", message, shift, key).value, shift, key) == Some(message)
  {
    var k := UnwrapOr(key, "");
    if key.Some? {
      Vigenere.LetterKeyDefined(message, k);
    }
    assert Vigenere.KeyDefined(message, k);
    VigenereRoutes(message, shift, key);
    VigenereRoutes(Vigenere.VigenereCipher(message, k), shift, key);
    Vigenere.VigenereRoundTrip(message, k);
  }

  /** The source's Caesar decoding undoes encoding for every shift up to
      9, the case its CLI test exercises: 25 is -1 modulo 26, and
      `v + 25 * shift` stays within `u8`. */
  lemma CliCaesarRoundTripAsWritten(message: string, shift: Option<U8>, key: Option<string>)
    requires UnwrapOr(shift, 3) <= 9
    ensures EncodeMessage("caesar", message, shift, key).Some?
    ensures DecodeMessageAsWritten("caesar", EncodeMessage("caesar", message, shift, key).value, shift, key) == Some(message)
  {
    var s := UnwrapOr(shift, 3);
    Caesar.SmallShiftDefined(message, s);
    var once := Caesar.CaesarCipher(message, s);
    var back := ReverseShiftAsWritten(shift).value;
    CaesarRoutes(message, shift, key);
    CaesarRoutes(once, shift, key);
    Caesar.SmallShiftDefined(once, back);
    Caesar.CaesarCancels(message, s, back);
  }

  /** Shift 10 encodes `z` as `j`, and decoding adds 250 to its position
      9: the `u8` sum inside `caesar_cipher` overflows. The corrected
      decoder gives `z` back. */
  lemma CliCaesarShiftTenOverflows()
    ensures EncodeMessage("caesar", "z", Some(10), None) == Some("j")
    ensures DecodeMessageAsWritten("caesar", "j", Some(10), None) == None
    ensures DecodeMessage("caesar", "j", Some(10), None) == Some("z")
  {
    ShiftTenVector("z", "j");
  }

  lemma ShiftTenVector(message: string, encoded: string)
    requires message == "z" && encoded == "j"
    ensures EncodeMessage("caesar", message, Some(10), None) == Some(encoded)
    ensures DecodeMessageAsWritten("caesar", encoded, Some(10), None) == None
    ensures DecodeMessage("caesar", encoded, Some(10), None) == Some(message)
  {
    ShiftTenEncodes(message, encoded);
    CliRoundTrip("caesar", message, Some(10), None);
    assert ReverseShiftAsWritten(Some(10)) == Some(250);
    assert !Caesar.CaesarDefined(encoded, 250) by {
      assert Offset(encoded[0]) == 9;
    }
  }

  lemma ShiftTenEncodes(message: string, encoded: string)
    requires message == "z" && encoded == "j"
    ensures Caesar.CaesarDefined(message, 10)
    ensures Caesar.CaesarCipher(message, 10) == encoded
  {
    Caesar.SmallShiftDefined(message, 10);
    var r := Caesar.CaesarCipher(message, 10);
    assert Offset(message[0]) == 25;
    LetterDetermined(r[0], encoded[0]);
  }

  /** The source's Vigenère decoding panics on the library's own vector,
      where the corrected one recovers the plaintext. */
  lemma CliVigenereAsWrittenFails()
    ensures EncodeMessage("vigenere", "ATTACKATDAWN", None, Some("LEMON")) == Some("LXFOPVEFRNHR")
    ensures DecodeMessageAsWritten("vigenere", "LXFOPVEFRNHR", None, Some("LEMON")) == None
    ensures DecodeMessage("vigenere", "LXFOPVEFRNHR", None, Some("LEMON")) == Some("ATTACKATDAWN")
  {
    LemonCliVector("ATTACKATDAWN", "LEMON", "LXFOPVEFRNHR");
  }

  lemma LemonCliVector(plaintext: string, key: string, ciphertext: string)
    requires plaintext == "ATTACKATDAWN" && key == "LEMON" && ciphertext == "LXFOPVEFRNHR"
    ensures EncodeMessage("vigenere", plaintext, None, Some(key)) == Some(ciphertext)
    ensures DecodeMessageAsWritten("vigenere", ciphertext, None, Some(key)) == None
    ensures DecodeMessage("vigenere", ciphertext, None, Some(key)) == Some(plaintext)
  {
    VigenereEncodes(plaintext, key, ciphertext);
    VigenereDecodeFails(key, ciphertext);
    LemonLetters(key);
    VigenereRoundTrip(plaintext, None, Some(key));
  }

  lemma LemonLetters(key: string)
    requires key == "LEMON"
    ensures AllLetters(key)
  {
  }

  lemma VigenereEncodes(plaintext: string, key: string, ciphertext: string)
    requires plaintext == "ATTACKATDAWN" && key == "LEMON" && ciphertext == "LXFOPVEFRNHR"
    ensures EncodeMessage("vigenere", plaintext, None, Some(key)) == Some(ciphertext)
  {
    Vigenere.LemonVector(plaintext, key);
  }

  lemma VigenereDecodeFails(key: string, ciphertext: string)
    requires key == "LEMON" && ciphertext == "LXFOPVEFRNHR"
    ensures DecodeMessageAsWritten("vigenere", ciphertext, None, Some(key)) == None
  {
    Vigenere.LemonDecipherUnderflows();
  }

  /** Without a key, Vigenère encoding and decoding are the identity. */
  lemma CliVigenereNoKey(message: string)
    ensures EncodeMessage("vigenere", message, None, None) == Some(message)
    ensures DecodeMessageAsWritten("vigenere", message, None, None) == Some(message)
  {
  }

  /** Gematria loses case: decoding the encoding of a text without digits
      gives its letters in lower case, in the source and corrected alike. */
  lemma CliGematriaLowercases(message: string)
    requires AlphaNum.NoDigits(message)
    ensures EncodeMessage("gematria", message, None, None).Some?
    ensures DecodeMessageAsWritten("gematria", EncodeMessage("gematria", message, None, None).value, None, None) ==
      Some(AlphaNum.LowerLetters(message))
    ensures DecodeMessage("gematria", EncodeMessage("gematria", message, None, None).value, None, None) ==
      Some(AlphaNum.LowerLetters(message))
  {
    GematriaRoutes(message, None, None);
    GematriaRoutes(AlphaNum.Alpha2Num(message), None, None);
    AlphaNum.Num2AlphaRoundTrip(message);
  }

  /** The cipher names of equal length differ in their first letter. */
  lemma NamesDiffer()
    ensures "rot13" != "morse" && "caesar" != "atbash" && "gematria" != "vigenere"
  {
    assert "rot13"[0] != "morse"[0];
    assert "caesar"[0] != "atbash"[0];
    assert "gematria"[0] != "vigenere"[0];
  }

  /** `rot13` is routed to `rot13` in both directions. */
  lemma Rot13Routes(message: string, shift: Option<U8>, key: Option<string>)
    ensures EncodeMessage("rot13", message, shift, key) == Some(Rot13.Rot13(message))
    ensures DecodeMessageAsWritten("rot13", message, shift, key) == Some(Rot13.Rot13(message))
    ensures DecodeMessage("rot13", message, shift, key) == Some(Rot13.Rot13(message))
  {
    NamesDiffer();
  }

  /** `reverse` is routed to `reverse_cipher` in both directions. */
  lemma ReverseRoutes(message: string, shift: Option<U8>, key: Option<string>)
    ensures EncodeMessage("reverse", message, shift, key) == Some(Reverse.ReverseCipher(message))
    ensures DecodeMessageAsWritten("reverse", message, shift, key) == Some(Reverse.ReverseCipher(message))
    ensures DecodeMessage("reverse", message, shift, key) == Some(Reverse.ReverseCipher(message))
  {
    NamesDiffer();
  }

  /** `morse` is routed to `morse_code_cipher` and `morse_code_decipher`. */
  lemma MorseRoutes(message: string, shift: Option<U8>, key: Option<string>)
    ensures IsAscii(message) ==> EncodeMessage("morse", message, shift, key) == Some(Morse.MorseCodeCipher(message))
    ensures DecodeMessageAsWritten("morse", message, shift, key) == Some(Morse.MorseCodeDecipher(message))
    ensures DecodeMessage("morse", message, shift, key) == Some(Morse.MorseCodeDecipher(message))
  {
    NamesDiffer();
  }

  /** `atbash` is routed to `atbash_cipher` and `atbash_decipher`. */
  lemma AtbashRoutes(message: string, shift: Option<U8>, key: Option<string>)
    ensures EncodeMessage("atbash", message, shift, key) == Some(Atbash.AtbashCipher(message))
    ensures DecodeMessageAsWritten("atbash", message, shift, key) == Some(Atbash.AtbashDecipher(message))
    ensures DecodeMessage("atbash", message, shift, key) == Some(Atbash.AtbashDecipher(message))
  {
    NamesDiffer();
  }

  /** `caesar` is routed to `caesar_cipher`, forwards by the shift and
      back by the reverse shift. */
  lemma CaesarRoutes(message: string, shift: Option<U8>, key: Option<string>)
    ensures EncodeMessage("caesar", message, shift, key) ==
      if Caesar.CaesarDefined(message, UnwrapOr(shift, 3)) then Some(Caesar.CaesarCipher(message, UnwrapOr(shift, 3))) else None
    ensures DecodeMessage("caesar", message, shift, key) == Some(Caesar.CaesarCipher(message, ReverseShift(shift)))
    ensures DecodeMessageAsWritten("caesar", message, shift, key) ==
      match ReverseShiftAsWritten(shift)
      case None => None
      case Some(s) => if Caesar.CaesarDefined(message, s) then Some(Caesar.CaesarCipher(message, s)) else None
  {
    NamesDiffer();
  }

  /** `vigenere` is routed to `vigenere_cipher` and `vigenere_decipher`. */
  lemma VigenereRoutes(message: string, shift: Option<U8>, key: Option<string>)
    ensures EncodeMessage("vigenere", message, shift, key) ==
      if Vigenere.KeyDefined(message, UnwrapOr(key, "")) then Some(Vigenere.VigenereCipher(message, UnwrapOr(key, ""))) else None
    ensures DecodeMessageAsWritten("vigenere", message, shift, key) ==
      if Vigenere.DecipherAsWrittenDefined(message, UnwrapOr(key, ""))
      then Some(Vigenere.VigenereDecipherAsWritten(message, UnwrapOr(key, ""))) else None
    ensures DecodeMessage("vigenere", message, shift, key) ==
      if Vigenere.KeyDefined(message, UnwrapOr(key, "")) then Some(Vigenere.VigenereDecipher(message, UnwrapOr(key, ""))) else None
  {
    NamesDiffer();
  }

  /** `gematria` is routed to `alpha2num` and `num2alpha`. */
  lemma GematriaRoutes(message: string, shift: Option<U8>, key: Option<string>)
    ensures EncodeMessage("gematria", message, shift, key) == Some(AlphaNum.Alpha2Num(message))
    ensures DecodeMessageAsWritten("gematria", message, shift, key) == AlphaNum.Num2AlphaAsWritten(message)
    ensures DecodeMessage("gematria", message, shift, key) == AlphaNum.Num2Alpha(message)
  {
    NamesDiffer();
  }
}
