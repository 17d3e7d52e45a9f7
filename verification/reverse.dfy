/** `reverse_cipher` in cipha-lib/src/lib.rs. */
module Reverse {

  /** `message.chars().rev().collect()`: the characters in reverse order. */
  function ReverseCipher(message: string): (r: string)
    ensures |r| == |message|
    ensures forall i | 0 <= i < |message| :: r[i] == message[|message| - 1 - i]
    decreases |message|
  {
    if |message| == 0 then "" else ReverseCipher(message[1..]) + [message[0]]
  }

  /** Reversing twice gives the message back. */
  lemma ReverseInvolution(message: string)
    ensures ReverseCipher(ReverseCipher(message)) == message
  {
  }

  /** The doc-test vector of `reverse_cipher`. */
  lemma ReverseExample()
    ensures ReverseCipher("Hello, World!") == "!dlroW ,olleH"
  {
    ReverseIsMirror("Hello, World!", "!dlroW ,olleH");
  }

  /** The reverse is the one string that mirrors the message index by index. */
  lemma ReverseIsMirror(message: string, mirrored: string)
    requires |mirrored| == |message|
    requires forall i | 0 <= i < |message| :: mirrored[i] == message[|message| - 1 - i]
    ensures ReverseCipher(message) == mirrored
  {
  }
}
