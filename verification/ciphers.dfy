/**
 The six stateless structs of cipha-lib/src/ciphers.rs (and of its
 documented copy, cipha/src/ciphers.rs), each written the way the struct
 code computes it and proved equal to the free function of
 cipha-lib/src/lib.rs that it duplicates.

 The two files hold the same code, so one Dafny definition models both.
 */
module Ciphers {
  import opened Chars
  import opened Strings
  import Rot13
  import Caesar
  import Atbash
  import Vigenere
  import Morse
  import AlphaNum

  /** `s.chars().map(f).collect()`: the character-by-character image. */
  function MapChars(s: string, f: char -> char): (r: string)
    ensures |r| == |s|
    ensures forall i | 0 <= i < |s| :: r[i] == f(s[i])
    decreases |s|
  {
    if |s| == 0 then "" else [f(s[0])] + MapChars(s[1..], f)
  }

  // ---------------------------------------------------------------- ROT13

  datatype Rot13Cipher = Rot13Cipher {

    /** `Rot13Cipher::encipher` is the library's `rot13`. */
    function Encipher(message: string): (r: string)
      ensures r == Rot13.Rot13(message)
    {
      MapChars(message, c => ShiftChar(c, 13))
    }

    /** `Rot13Cipher::decipher` calls `encipher`, and it undoes it. */
    function Decipher(message: string): (r: string)
      ensures r == Rot13.Rot13(message)
      ensures Encipher(r) == message
    {
      Rot13.Rot13Involution(message);
      Encipher(message)
    }
  }

  // ---------------------------------------------------------------- Caesar

  datatype CaesarCipher = CaesarCipher(shift: U8) {

    /** `CaesarCipher::encipher` is the library's `caesar_cipher` with the
        stored shift; it overflows exactly where that one does. */
    function Encipher(message: string): (r: string)
      requires Caesar.CaesarDefined(message, shift)
      ensures r == Caesar.CaesarCipher(message, shift)
    {
      MapChars(message, c => ShiftChar(c, shift))
    }

    /** The `u8` subtraction `26 - self.shift` does not underflow. */
    predicate DecipherAsWrittenDefined() {
      shift <= 26
    }

    /** `CaesarCipher::decipher` as written: a forward shift by
        `26 - shift`, defined only for shifts of at most 26. The sum
        `v + (26 - shift)` is at most 51, so the addition never overflows. */
    function DecipherAsWritten(message: string): (r: string)
      requires DecipherAsWrittenDefined()
      ensures Caesar.CaesarDefined(message, 26 - shift)
      ensures r == Caesar.CaesarCipher(message, 26 - shift)
    {
      MapChars(message, c => ShiftChar(c, 26 - shift))
    }

    /** `decipher` with the reverse shift taken modulo 26 first, as the
        inverse of `encipher` needs for every shift `encipher` accepts. */
    function Decipher(message: string): (r: string)
      ensures Caesar.CaesarDefined(message, 26 - shift % 26)
      ensures r == Caesar.CaesarCipher(message, 26 - shift % 26)
    {
      MapChars(message, c => ShiftChar(c, 26 - shift % 26))
    }
  }

  /** For shifts up to 26 the source's `decipher` undoes `encipher`. */
  lemma CaesarStructRoundTrip(cipher: CaesarCipher, message: string)
    requires Caesar.CaesarDefined(message, cipher.shift)
    requires cipher.DecipherAsWrittenDefined()
    ensures cipher.DecipherAsWritten(cipher.Encipher(message)) == message
  {
    var once := cipher.Encipher(message);
    assert Caesar.CaesarDefined(once, 26 - cipher.shift);
    Caesar.CaesarCancels(message, cipher.shift, 26 - cipher.shift);
  }

  /** The corrected `decipher` undoes `encipher` for every shift. */
  lemma CaesarStructInverse(cipher: CaesarCipher, message: string)
    requires Caesar.CaesarDefined(message, cipher.shift)
    ensures cipher.Decipher(cipher.Encipher(message)) == message
  {
    Caesar.CaesarUndone(message, cipher.shift);
  }

  /** `CaesarCipher::new(27)` enciphers every message, but its `decipher`
      underflows on `26 - 27`; the corrected one still inverts. */
  lemma CaesarDecipherUnderflows(message: string)
    ensures Caesar.CaesarDefined(message, 27)
    ensures !CaesarCipher(27).DecipherAsWrittenDefined()
    ensures CaesarCipher(27).Decipher(CaesarCipher(27).Encipher(message)) == message
  {
    Caesar.SmallShiftDefined(message, 27);
    CaesarStructInverse(CaesarCipher(27), message);
  }

  /** The vectors of the struct tests, encipher and decipher. */
  lemma CaesarStructExample()
    ensures Caesar.CaesarDefined("Hello, World!", 3)
    ensures CaesarCipher(3).Encipher("Hello, World!") == "Khoor, Zruog!"
    ensures CaesarCipher(3).DecipherAsWritten("Khoor, Zruog!") == "Hello, World!"
  {
    Caesar.CaesarExample();
    CaesarStructRoundTrip(CaesarCipher(3), "Hello, World!");
  }

  // ---------------------------------------------------------------- Vigenère

  /** The struct keeps its key already lowercased and indexes its bytes. */
  datatype VigenereCipher = VigenereCipher(key: string) {

    /** The source runs without panicking: an empty key, or one whose
        bytes are at least `b'a'` wherever the letters of the text reach. */
    predicate EncipherDefined(text: string) {
      var kb := Utf8(key);
      |kb| == 0 || Vigenere.KeyUsable(kb, Vigenere.LetterCount(text))
    }

    /** `VigenereCipher::encipher`: the empty key is the identity,
        otherwise letters move by the key byte the letter cursor selects. */
    function Encipher(plaintext: string): (r: string)
      requires EncipherDefined(plaintext)
      ensures |key| == 0 ==> r == plaintext
      ensures |r| == |plaintext|
      ensures forall i | 0 <= i < |plaintext| && !IsLetter(plaintext[i]) :: r[i] == plaintext[i]
    {
      var kb := Utf8(key);
      if |kb| == 0 then plaintext else Vigenere.EncipherFrom(plaintext, kb, 0)
    }

    /** `VigenereCipher::decipher` as written: defined where its `u8`
        expression `c - first - shift + 26` does not underflow. */
    predicate DecipherAsWrittenDefined(text: string) {
      var kb := Utf8(key);
      |kb| == 0 || (Vigenere.KeyUsable(kb, Vigenere.LetterCount(text)) && Vigenere.NoUnderflowFrom(text, kb, 0))
    }

    function DecipherAsWritten(ciphertext: string): (r: string)
      requires DecipherAsWrittenDefined(ciphertext)
      ensures EncipherDefined(ciphertext) && r == Decipher(ciphertext)
    {
      var kb := Utf8(key);
      if |kb| == 0 then ciphertext else Vigenere.DecipherAsWrittenFrom(ciphertext, kb, 0)
    }

    /** `decipher` with the subtraction done without a machine bound. */
    function Decipher(ciphertext: string): (r: string)
      requires EncipherDefined(ciphertext)
      ensures |key| == 0 ==> r == ciphertext
      ensures |r| == |ciphertext|
      ensures forall i | 0 <= i < |ciphertext| && !IsLetter(ciphertext[i]) :: r[i] == ciphertext[i]
    {
      var kb := Utf8(key);
      if |kb| == 0 then ciphertext else Vigenere.DecipherFrom(ciphertext, kb, 0)
    }
  }

  /** `VigenereCipher::new` lowercases the key. */
  function NewVigenere(key: string): (cipher: VigenereCipher)
    ensures Utf8(cipher.key) == Vigenere.KeyBytes(key)
  {
    VigenereCipher(ToAsciiLowercase(key))
  }

  /** A struct built by `new` computes what the library functions compute
      with the same key, in both directions and with the same panics. */
  lemma VigenereStructRefines(key: string, text: string)
    ensures NewVigenere(key).EncipherDefined(text) <==> Vigenere.KeyDefined(text, key)
    ensures NewVigenere(key).DecipherAsWrittenDefined(text) <==> Vigenere.DecipherAsWrittenDefined(text, key)
    ensures Vigenere.KeyDefined(text, key) ==>
      NewVigenere(key).Encipher(text) == Vigenere.VigenereCipher(text, key) &&
      NewVigenere(key).Decipher(text) == Vigenere.VigenereDecipher(text, key)
  {
  }

  /** `new(K)` and `new` of `K` in either case behave identically. */
  lemma VigenereNewFoldsCase(key: string)
    ensures NewVigenere(ToAsciiLowercase(key)) == NewVigenere(key)
    ensures NewVigenere(ToAsciiUppercase(key)) == NewVigenere(key)
  {
    LowercaseIdempotent(key);
  }

  /** The struct's decipher, done as intended, undoes its encipher. */
  lemma VigenereStructRoundTrip(key: string, plaintext: string)
    requires Vigenere.KeyDefined(plaintext, key)
    ensures NewVigenere(key).EncipherDefined(NewVigenere(key).Encipher(plaintext))
    ensures NewVigenere(key).Decipher(NewVigenere(key).Encipher(plaintext)) == plaintext
  {
    VigenereStructRefines(key, plaintext);
    Vigenere.VigenereRoundTrip(plaintext, key);
    VigenereStructRefines(key, Vigenere.VigenereCipher(plaintext, key));
  }

  /** The struct test vector: `new("LEMON")` enciphers ATTACKATDAWN. */
  lemma VigenereStructExample()
    ensures NewVigenere("LEMON").EncipherDefined("ATTACKATDAWN")
    ensures NewVigenere("LEMON").Encipher("ATTACKATDAWN") == "LXFOPVEFRNHR"
  {
    StructLemonVector("ATTACKATDAWN", "LEMON");
  }

  lemma StructLemonVector(plaintext: string, key: string)
    requires plaintext == "ATTACKATDAWN" && key == "LEMON"
    ensures NewVigenere(key).EncipherDefined(plaintext)
    ensures NewVigenere(key).Encipher(plaintext) == "LXFOPVEFRNHR"
  {
    Vigenere.LemonVector(plaintext, key);
    VigenereStructRefines(key, plaintext);
  }

  // ---------------------------------------------------------------- Morse

  /** The struct's two maps, character to code and code to character. */
  datatype MorseCode = MorseCode(morseCodeMap: map<char, string>, reverseMorseCodeMap: map<string, char>) {

    /** `MorseCode::encode` with the struct's own map; on ASCII text
        `to_uppercase` is `to_ascii_uppercase`. */
    function Encode(text: string): (r: string)
      requires IsAscii(text)
      ensures morseCodeMap == Morse.CreateMorseCodeMap() ==> r == Morse.MorseCodeCipher(text)
    {
      Trim(Morse.Padded(morseCodeMap, ToAsciiUppercase(text)))
    }

    /** `MorseCode::decode`: split at every space, keep the pieces the
        reverse map knows. */
    function Decode(code: string): (r: string)
      ensures reverseMorseCodeMap == Morse.CreateReverseMorseCodeMap() ==> r == Morse.MorseCodeDecipher(code)
    {
      Morse.DecodeTokens(reverseMorseCodeMap, SplitSpace(code))
    }
  }

  /** The single loop of `MorseCode::new`: each pair is inserted into the
      forward map and, swapped, into the reverse map. It builds the same
      two maps as the library's two `create_*_map` loops. */
  function InsertBoth(pairs: seq<(char, string)>): (maps: (map<char, string>, map<string, char>))
    ensures maps.0 == Morse.InsertAll(pairs)
    ensures maps.1 == Morse.InsertAll(Morse.Swapped(pairs))
    decreases |pairs|
  {
    if |pairs| == 0 then (map[], map[])
    else
      var last := pairs[|pairs| - 1];
      var front := pairs[..|pairs| - 1];
      var before := InsertBoth(front);
      assert Morse.Swapped(pairs)[..|pairs| - 1] == Morse.Swapped(front);
      (before.0[last.0 := last.1], before.1[last.1 := last.0])
  }

  /** `MorseCode::new`. */
  function NewMorseCode(): (morse: MorseCode)
    ensures morse.morseCodeMap == Morse.CreateMorseCodeMap()
    ensures morse.reverseMorseCodeMap == Morse.CreateReverseMorseCodeMap()
  {
    var maps := InsertBoth(Morse.MorseCodeMap);
    MorseCode(maps.0, maps.1)
  }

  /** Decoding the struct's encoding gives back the known characters of
      the uppercased text, `X` read as `*`. */
  lemma MorseStructRoundTrip(text: string)
    requires IsAscii(text)
    ensures NewMorseCode().Decode(NewMorseCode().Encode(text)) == Morse.Recovered(ToAsciiUppercase(text))
  {
    Morse.MorseRoundTrip(text);
  }

  /** In the struct's reverse map, X's code names `*`. */
  lemma MorseStructXIsStar()
    ensures "-..-" in NewMorseCode().reverseMorseCodeMap
    ensures NewMorseCode().reverseMorseCodeMap["-..-"] == '*'
  {
    var morse := NewMorseCode();
    Morse.XAndStarShareCode();
    assert morse.reverseMorseCodeMap == Morse.CreateReverseMorseCodeMap();
  }

  // ---------------------------------------------------------------- Atbash

  datatype AtbashCipher = AtbashCipher {

    /** `AtbashCipher::transform` is the library's `atbash_cipher`. */
    function Transform(text: string): (r: string)
      ensures r == Atbash.AtbashCipher(text)
    {
      MapChars(text, Atbash.MirrorChar)
    }

    /** `encipher` and `decipher` both call `transform`, which undoes itself. */
    function Encipher(plaintext: string): (r: string)
      ensures Transform(r) == plaintext
    {
      Atbash.AtbashInvolution(plaintext);
      Transform(plaintext)
    }

    function Decipher(ciphertext: string): (r: string)
      ensures Encipher(r) == ciphertext
      ensures r == Atbash.AtbashDecipher(ciphertext)
    {
      Atbash.AtbashInvolution(ciphertext);
      Transform(ciphertext)
    }
  }

  /** The struct test vectors, both directions. */
  lemma AtbashStructExample()
    ensures AtbashCipher().Encipher("ATTACKATDAWN") == "ZGGZXPZGWZDM"
    ensures AtbashCipher().Decipher("ZGGZXPZGWZDM") == "ATTACKATDAWN"
  {
    Atbash.AtbashExample();
  }

  // ---------------------------------------------------------------- AlphaNum

  /** The text `alpha_to_num` builds before trimming, extended by one
      character at the back as its loop extends it. */
  lemma {:induction false} RawSnoc(text: string, c: char)
    ensures AlphaNum.Alpha2NumRaw(text + [c]) == AlphaNum.Alpha2NumRaw(text) + AlphaNum.Alpha2NumToken(c) + " "
    decreases |text|
  {
    if |text| == 0 {
      assert text + [c] == [c];
      assert ([c])[1..] == "";
    } else {
      var t := text + [c];
      assert t[0] == text[0];
      assert t[1..] == text[1..] + [c];
      RawSnoc(text[1..], c);
    }
  }

  lemma RawPrefix(text: string, i: nat)
    requires i < |text|
    ensures AlphaNum.Alpha2NumRaw(text[..i + 1]) == AlphaNum.Alpha2NumRaw(text[..i]) + AlphaNum.Alpha2NumToken(text[i]) + " "
  {
    RawSnoc(text[..i], text[i]);
    assert text[..i + 1] == text[..i] + [text[i]];
  }

  /** The loop's `c as u32 - base + 1` is the letter's position. */
  lemma LetterNumber(c: char, base: int)
    requires IsLetter(c) && base == if IsUpper(c) then 'A' as int else 'a' as int
    ensures c as int - base + 1 == Offset(c) + 1
    ensures Decimal(c as int - base + 1) == AlphaNum.Alpha2NumToken(c)
  {
  }

  datatype AlphaNumConverter = AlphaNumConverter {

    /** `AlphaNumConverter::alpha_to_num`: every letter's position (of
        either case) and every other character, each followed by one
        space, then trimmed; the library's `alpha2num`. */
    method AlphaToNum(text: string) returns (r: string)
      ensures r == AlphaNum.Alpha2Num(text)
    {
      var result := "";
      for i := 0 to |text|
        invariant result == AlphaNum.Alpha2NumRaw(text[..i])
      {
        var c := text[i];
        RawPrefix(text, i);
        if IsLetter(c) {
          var base := if IsUpper(c) then 'A' as int else 'a' as int;
          var number := c as int - base + 1;
          LetterNumber(c, base);
          result := result + Decimal(number) + " ";
        } else {
          result := result + [c] + " ";
        }
      }
      assert text[..|text|] == text;
      r := Trim(result);
    }

    /** `AlphaNumConverter::num_to_alpha`, loop for loop, with `None` for
        the panic of `parse().unwrap()`: it is the library's `num2alpha`,
        stale buffer included. */
    method NumToAlpha(cipherText: string) returns (r: Option<string>)
      ensures r == AlphaNum.Num2AlphaAsWritten(cipherText)
    {
      var decrypted := "";
      var buffer := "";
      for i := 0 to |cipherText|
        invariant AllDigits(buffer)
        invariant AlphaNum.Run(AlphaNum.Start, cipherText[..i], false) == Some(AlphaNum.Scan(decrypted, buffer))
      {
        var c := cipherText[i];
        ghost var before := AlphaNum.Scan(decrypted, buffer);
        ScanOneMore(cipherText, i, before);
        if IsDigit(c) {
          buffer := buffer + [c];
        } else if IsWhitespace(c) {
          if |buffer| > 0 {
            var number := ParseDecimal(buffer);
            if number > AlphaNum.U32Max {
              PanicStays(cipherText, i + 1);
              return None;
            }
            var code;
            if number <= 26 {
              code := 'a' as int + number - 1;
            } else if number <= 52 {
              code := 'A' as int + number - 27;
            } else {
              continue;
            }
            decrypted := decrypted + [code as char];
            buffer := "";
          }
        }
      }
      assert cipherText[..|cipherText|] == cipherText;
      if |buffer| > 0 {
        var number := ParseDecimal(buffer);
        if number > AlphaNum.U32Max {
          return None;
        }
        var code;
        if number <= 26 {
          code := 'a' as int + number - 1;
        } else if number <= 52 {
          code := 'A' as int + number - 27;
        } else {
          return Some(decrypted);
        }
        decrypted := decrypted + [code as char];
      }
      r := Some(decrypted);
    }
  }

  /** One more character of the text is one more `Step` of the scan. */
  lemma ScanOneMore(s: string, i: nat, st: AlphaNum.Scan)
    requires i < |s| && AllDigits(st.buffer)
    requires AlphaNum.Run(AlphaNum.Start, s[..i], false) == Some(st)
    ensures AlphaNum.Run(AlphaNum.Start, s[..i + 1], false) == AlphaNum.Step(st, s[i], false)
  {
    var one := [s[i]];
    AlphaNum.RunAppend(AlphaNum.Start, s[..i], one, false);
    assert s[..i + 1] == s[..i] + one;
    assert one[0] == s[i] && one[1..] == "";
    match AlphaNum.Step(st, s[i], false)
    case None =>
    case Some(next) => assert AlphaNum.Run(next, one[1..], false) == Some(next);
  }

  /** Once the scan of a prefix has panicked, so has the whole function. */
  lemma PanicStays(s: string, i: nat)
    requires i <= |s|
    requires AlphaNum.Run(AlphaNum.Start, s[..i], false) == None
    ensures AlphaNum.Num2AlphaAsWritten(s) == None
  {
    AlphaNum.RunAppend(AlphaNum.Start, s[..i], s[i..], false);
    assert s[..i] + s[i..] == s;
  }

  /** The struct test: decoding the numbers of "Hello, World!" gives the
      letters back in lower case. */
  lemma AlphaNumStructRoundTrip(text: string)
    requires AlphaNum.NoDigits(text)
    ensures AlphaNum.Num2AlphaAsWritten(AlphaNum.Alpha2Num(text)) == Some(AlphaNum.LowerLetters(text))
  {
    AlphaNum.Num2AlphaRoundTrip(text);
  }
}
