/** The Caesar shift, `caesar_cipher` in cipha-lib/src/lib.rs. */
module Caesar {
  import opened Chars

  /** The `u8` sum `c as u8 - b'a' + shift` stays below 256 for every
      letter of the message; otherwise the source overflows. */
  predicate CaesarDefined(message: string, shift: U8) {
    forall i | 0 <= i < |message| && IsLetter(message[i]) :: Offset(message[i]) + shift < 256
  }

  /** A shift of at most 230 can never overflow, whatever the message. */
  lemma SmallShiftDefined(message: string, shift: U8)
    requires shift <= 230
    ensures CaesarDefined(message, shift)
  {
  }

  /** Letters move `shift` places (modulo 26) within their case; every
      other character is copied. */
  function CaesarCipher(message: string, shift: U8): (r: string)
    requires CaesarDefined(message, shift)
    ensures |r| == |message|
    ensures forall i | 0 <= i < |message| && IsLetter(message[i]) ::
      IsLetter(r[i]) && Base(r[i]) == Base(message[i]) && Offset(r[i]) == (Offset(message[i]) + shift) % 26
    ensures forall i | 0 <= i < |message| && !IsLetter(message[i]) :: r[i] == message[i]
  {
    seq(|message|, i requires 0 <= i < |message| => ShiftChar(message[i], shift))
  }

  /** Shifting by `a` and then by `b` restores the message whenever
      `a + b` is a multiple of 26. */
  lemma CaesarCancels(message: string, a: U8, b: U8)
    requires CaesarDefined(message, a)
    requires CaesarDefined(CaesarCipher(message, a), b)
    requires (a + b) % 26 == 0
    ensures CaesarCipher(CaesarCipher(message, a), b) == message
  {
    var once := CaesarCipher(message, a);
    var twice := CaesarCipher(once, b);
    forall i | 0 <= i < |message|
      ensures twice[i] == message[i]
    {
      ShiftCharCancels(message[i], a, b);
    }
  }

  /** Shifting back by `26 - shift % 26`, which never overflows, undoes
      every shift. */
  lemma CaesarUndone(message: string, shift: U8)
    requires CaesarDefined(message, shift)
    ensures CaesarDefined(CaesarCipher(message, shift), 26 - shift % 26)
    ensures CaesarCipher(CaesarCipher(message, shift), 26 - shift % 26) == message
  {
    var back := 26 - shift % 26;
    assert (shift + back) % 26 == 0 by {
      assert shift + back == 26 * (shift / 26) + 26;
    }
    SmallShiftDefined(CaesarCipher(message, shift), back);
    CaesarCancels(message, shift, back);
  }

  /** A shift that is a multiple of 26 (0, 26, 52, ...) changes nothing. */
  lemma CaesarFullTurn(message: string, shift: U8)
    requires CaesarDefined(message, shift)
    requires shift % 26 == 0
    ensures CaesarCipher(message, shift) == message
  {
    var r := CaesarCipher(message, shift);
    forall i | 0 <= i < |message|
      ensures r[i] == message[i]
    {
      if IsLetter(message[i]) {
        ModSumCancels(Offset(message[i]), shift, 0);
        LetterDetermined(r[i], message[i]);
      }
    }
  }

  /** The doc-test vector of `caesar_cipher`. */
  lemma CaesarExample()
    ensures CaesarDefined("Hello, World!", 3)
    ensures CaesarCipher("Hello, World!", 3) == "Khoor, Zruog!"
  {
  }
}
