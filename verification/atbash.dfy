/** Atbash, `atbash_cipher` and `atbash_decipher` in cipha-lib/src/lib.rs. */
module Atbash {
  import opened Chars

  /** The letter at the mirrored position of its case's alphabet,
      `'a' + 25 - (c - 'a')`; other characters are copied. The `u8`
      arithmetic stays within 65..122, so it cannot overflow. */
  function MirrorChar(c: char): (d: char)
    ensures IsLetter(d) <==> IsLetter(c)
    ensures IsLetter(c) ==> Base(d) == Base(c) && Offset(d) == 25 - Offset(c)
    ensures !IsLetter(c) ==> d == c
  {
    if IsLetter(c) then LetterAt(Base(c), 25 - Offset(c)) else c
  }

  /** Position `v` becomes `25 - v` in the same case; everything that is
      not an ASCII letter is copied. */
  function AtbashCipher(plaintext: string): (r: string)
    ensures |r| == |plaintext|
    ensures forall i | 0 <= i < |plaintext| && IsLetter(plaintext[i]) ::
      IsLetter(r[i]) && Base(r[i]) == Base(plaintext[i]) && Offset(r[i]) == 25 - Offset(plaintext[i])
    ensures forall i | 0 <= i < |plaintext| && !IsLetter(plaintext[i]) :: r[i] == plaintext[i]
  {
    seq(|plaintext|, i requires 0 <= i < |plaintext| => MirrorChar(plaintext[i]))
  }

  /** Deciphering is enciphering again, and it undoes the encipherment. */
  function AtbashDecipher(ciphertext: string): (r: string)
    ensures AtbashCipher(r) == ciphertext
  {
    AtbashInvolution(ciphertext);
    AtbashCipher(ciphertext)
  }

  /** Atbash is its own inverse. */
  lemma AtbashInvolution(text: string)
    ensures AtbashCipher(AtbashCipher(text)) == text
  {
    var once := AtbashCipher(text);
    var twice := AtbashCipher(once);
    forall i | 0 <= i < |text|
      ensures twice[i] == text[i]
    {
      if IsLetter(text[i]) {
        LetterDetermined(twice[i], text[i]);
      }
    }
  }

  /** The vector of the library's `test_atbash_cipher`, both directions. */
  lemma AtbashExample()
    ensures AtbashCipher("ATTACKATDAWN") == "ZGGZXPZGWZDM"
    ensures AtbashDecipher("ZGGZXPZGWZDM") == "ATTACKATDAWN"
  {
  }
}
