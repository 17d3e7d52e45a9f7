/** ROT13, `rot13` in cipha-lib/src/lib.rs. */
module Rot13 {
  import opened Chars

  /** Every ASCII letter moves 13 places within its case; every other
      character, ASCII or not, is copied. */
  function Rot13(message: string): (r: string)
    ensures |r| == |message|
    ensures forall i | 0 <= i < |message| && IsLetter(message[i]) ::
      IsLetter(r[i]) && Base(r[i]) == Base(message[i]) && Offset(r[i]) == (Offset(message[i]) + 13) % 26
    ensures forall i | 0 <= i < |message| && !IsLetter(message[i]) :: r[i] == message[i]
  {
    seq(|message|, i requires 0 <= i < |message| => ShiftChar(message[i], 13))
  }

  /** ROT13 is its own inverse. */
  lemma Rot13Involution(message: string)
    ensures Rot13(Rot13(message)) == message
  {
    var once := Rot13(message);
    var twice := Rot13(once);
    forall i | 0 <= i < |message|
      ensures twice[i] == message[i]
    {
      ShiftCharCancels(message[i], 13, 13);
    }
  }

  /** The doc-test vector of `rot13`. */
  lemma Rot13Example()
    ensures Rot13("Hello, World!") == "Uryyb, Jbeyq!"
  {
  }
}
