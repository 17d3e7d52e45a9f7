# cipha cipher core in Dafny

This project models the text transforms of the `cipha` library and proves
properties of them. The transforms are:

- ROT13, the Caesar shift, Atbash and reversal;
- Vigenère, whose key cursor advances on letters only;
- Morse code, with its fixed table and the forward and reverse maps built from it;
- "gematria", the letter/number converter `alpha2num` / `num2alpha`;
- the rail fence cipher, whose decipher counts the rails and then replays the zig-zag.

The model covers the free functions of `cipha-lib/src/lib.rs`. It also covers the six
stateless structs of `cipha-lib/src/ciphers.rs` and of its documented copy
`cipha/src/ciphers.rs`; the two files hold the same code, so one Dafny
definition stands for both. Finally it covers the two dispatch functions
`encode_message` and `decode_message` of `cipha-cli/src/main.rs`.

Strings are `seq<char>`, and Rust's `char` and Dafny's `char` are both
Unicode scalar values. The `u8` arithmetic of the source is done on
unbounded integers. Every place where the source's debug build would panic
is either a stated precondition or an explicit `None` result:

- a `u8` sum that overflows;
- a `u8` subtraction that underflows;
- the `parse::<u32>().unwrap()` of a digit run above `u32::MAX`;
- indexing an empty fence.

`str::len` and `as_bytes` are modelled as UTF-8 byte counts and byte
sequences (`Strings.Utf8`). So the Vigenère key indexing and the rail
fence's degenerate test use byte lengths, as the source does.

Modules, one per file:

- `Chars`: character classes and the 26-letter ring.
- `Strings`: ASCII case mapping, `trim`, UTF-8, `split(' ')`, decimal `to_string`/`parse`.
- `Rot13`, `Caesar`, `Atbash`, `Reverse`, `Vigenere`, `Morse`, `AlphaNum` (gematria), `RailFence`: one per free function group of `lib.rs`.
- `RailFenceVector`: the library's rail fence test, proved.
- `Ciphers`: the struct copies.
- `Cli`: the dispatchers.

Some behaviours of the code a reader may not expect:

- **Morse table.** The table has 53 pairs. `'-'` is listed twice, and `'X'` and `'*'` share `-..-`. The reverse map is built by in-order insertion, so `-..-` decodes to `*`, and a Morse round trip reads every `X` back as `*`.
- **`alpha2num` trim.** `alpha2num` trims all whitespace at both ends (`str::trim`).
- **`num2alpha` buffer.** `num2alpha` does not clear its buffer after a number above 52: the `continue` jumps over `clear()`.
- **Panics.** Several transforms can panic on ordinary input, namely the `u8` overflows above and the `u32` parse.
- **Rail fence.** The round trip holds for every positive number of rails, including one rail and more rails than characters.

## Model

| member | source | states |
|---|---|---|
| Chars.ShiftChar | cipha-lib/src/lib.rs:22-24 | A letter keeps its case and moves to position `(v + s) % 26`; every other character is unchanged; it is a letter exactly when the input is. |
| Chars.ShiftCharCancels | cipha-lib/src/lib.rs:44-45 | Shifting by `a` then by `b`, with `a + b` a multiple of 26, gives the character back. |
| Chars.ToAsciiLower | cipha-lib/src/lib.rs:168 | An uppercase letter becomes the lowercase letter at the same position; any other character is unchanged. |
| Chars.WhitespaceIsListed | cipha-lib/src/lib.rs:120 | `char::is_whitespace` holds exactly for the 25 code points Unicode gives the White_Space property. |
| Strings.Trim | cipha-lib/src/lib.rs:96 | `str::trim`: the result neither starts nor ends with whitespace. |
| Strings.TrimParts | cipha-lib/src/lib.rs:96 | Every string is its trim with a whitespace prefix and a whitespace suffix around it. |
| Strings.ToAsciiLowercase | cipha-lib/src/lib.rs:168 | `to_ascii_lowercase` lowercases each character in place and keeps the length. |
| Strings.ToAsciiUppercase | cipha-lib/src/lib.rs:279 | `to_uppercase` on ASCII text uppercases each character in place and keeps the length. |
| Strings.TrimTrailingSpace | cipha-lib/src/lib.rs:286 | Trimming `s + " "` gives `s` when `s` has no whitespace at either end. |
| Strings.Utf8 | cipha-lib/src/lib.rs:184 | `as_bytes`: at least one byte per character, none exactly for the empty string, and for ASCII text the character codes themselves. |
| Strings.Utf8Len | cipha-lib/src/lib.rs:345 | `len()` counts bytes: at least the character count, zero only for the empty string, equal to the character count on ASCII. |
| Strings.SplitSpace | cipha-lib/src/lib.rs:293 | `split(' ')` gives at least one piece, no piece holds a space, and the pieces joined by single spaces are the text. |
| Strings.SplitJoin | cipha-lib/src/lib.rs:293 | `split(' ')` undoes joining with single spaces when no token holds a space. |
| Strings.Decimal | cipha-lib/src/lib.rs:88 | `to_string` of a number gives ASCII digits that `parse` reads back as the same number; zero is written `0`. |
| Strings.DecimalCanonical | cipha-lib/src/lib.rs:88 | The digits of a positive number have no leading zero and no more digits than the value needs, so with `ParseDecimal`'s bound they are exactly its canonical digits. |
| Strings.ParseDecimal | cipha-lib/src/lib.rs:122 | `parse` of `n` ASCII digits, before the `u32` width check, gives a value below `10^n`. |
| Strings.ParseLeading | cipha-lib/src/lib.rs:122 | Positional notation: the leading digit contributes its value times ten to the number of digits after it. |
| Strings.LowercaseIdempotent | cipha-lib/src/ciphers.rs:61 | Lowercasing twice is lowercasing once, and lowercasing forgets a previous uppercasing. |
| Rot13.Rot13 | cipha-lib/src/lib.rs:19-27 | The length is kept; each letter keeps its case and moves 13 places; every other character is copied. |
| Rot13.Rot13Involution | cipha-lib/src/lib.rs:19-27 | ROT13 applied twice is the identity. |
| Rot13.Rot13Example | cipha-lib/src/lib.rs:428-432 | `Hello, World!` becomes `Uryyb, Jbeyq!`. |
| Caesar.SmallShiftDefined | cipha-lib/src/lib.rs:44-45 | With a shift of at most 230 the `u8` sum can never overflow. |
| Caesar.CaesarCipher | cipha-lib/src/lib.rs:41-49 | Defined exactly when no letter's `u8` sum overflows. Then the length is kept, each letter moves `shift` places modulo 26 in its case, and every other character is copied. |
| Caesar.CaesarCancels | cipha-lib/src/lib.rs:41-49 | Two shifts whose sum is a multiple of 26 cancel. |
| Caesar.CaesarUndone | cipha-lib/src/ciphers.rs:44 | Shifting back by `26 - shift % 26` never overflows and undoes every shift `caesar_cipher` accepts. |
| Caesar.CaesarFullTurn | cipha-lib/src/lib.rs:41-49 | A shift that is a multiple of 26 changes nothing. |
| Caesar.CaesarExample | cipha-lib/src/lib.rs:435-440 | Shift 3 takes `Hello, World!` to `Khoor, Zruog!`. |
| Atbash.MirrorChar | cipha-lib/src/lib.rs:315-317 | A letter keeps its case and goes to position `25 - v`; any other character is unchanged. |
| Atbash.AtbashCipher | cipha-lib/src/lib.rs:313-319 | Position `v` becomes `25 - v` in the same case, the length is kept, and everything else is copied. |
| Atbash.AtbashDecipher | cipha-lib/src/lib.rs:331-333 | Its result enciphers back to the ciphertext. |
| Atbash.AtbashInvolution | cipha-lib/src/lib.rs:324 | Atbash applied twice is the identity. |
| Atbash.AtbashExample | cipha-lib/src/lib.rs:473-481 | `ATTACKATDAWN` and `ZGGZXPZGWZDM` encipher to each other. |
| Reverse.ReverseCipher | cipha-lib/src/lib.rs:64-66 | Same length, and character `i` of the result is character `n - 1 - i` of the message. |
| Reverse.ReverseInvolution | cipha-lib/src/lib.rs:64-66 | Reversing twice is the identity. |
| Reverse.ReverseIsMirror | cipha-lib/src/lib.rs:64-66 | The reverse is the only string that mirrors the message index by index. |
| Reverse.ReverseExample | cipha-lib/src/lib.rs:58-62 | `Hello, World!` reverses to `!dlroW ,olleH`. |
| Vigenere.EncipherFrom | cipha-lib/src/lib.rs:174-192 | The loop from a cursor keeps length, letter count, letter positions and case, and copies every non-letter. |
| Vigenere.DecipherAsWrittenFrom | cipha-lib/src/lib.rs:212-218 | Where the left-to-right `u8` expression does not underflow, the source's decipher loop equals the intended one. |
| Vigenere.DecipherFrom | cipha-lib/src/lib.rs:202-221 | The corrected decipher loop keeps the length, the letter positions and each letter's case, and copies every other character. |
| Vigenere.VigenereCipher | cipha-lib/src/lib.rs:167-193 | Defined for the empty key or a key whose used bytes are at least `b'a'`. The empty key is the identity. Length and letter count are kept, and non-letters are copied. |
| Vigenere.VigenereDecipher | cipha-lib/src/lib.rs:195-224 | The corrected decipher: the empty key is the identity, length and letter count are kept, and non-letters are copied. |
| Vigenere.VigenereDecipherAsWritten | cipha-lib/src/lib.rs:216 | The source's decipher is defined only where no letter underflows, and there it equals the corrected one. |
| Vigenere.EncipherAt | cipha-lib/src/lib.rs:184-187 | The letter at position `i` moves by the key byte at cursor `index + (letters before i)`: only letters advance the cursor. |
| Vigenere.DecipherEncipherFrom | cipha-lib/src/lib.rs:174-218 | From the same cursor, the intended decipher loop undoes the encipher loop. |
| Vigenere.VigenereRoundTrip | cipha-lib/src/lib.rs:167-224 | For every key the cipher accepts, the corrected decipher of the ciphertext is the plaintext. |
| Vigenere.LetterKeyDefined | cipha-lib/src/lib.rs:184 | A key made only of ASCII letters is accepted for every text. |
| Vigenere.KeyCaseIrrelevant | cipha-lib/src/lib.rs:168 | The key in lower or upper case gives the same ciphertext as the key itself. |
| Vigenere.VigenereOnLetters | cipha-lib/src/lib.rs:184-187 | For letter-only text and key, letter `i` moves by lowercased key letter `i mod |key|`. |
| Vigenere.VigenereIsKeyedShift | cipha-lib/src/lib.rs:167-193 | For letter-only text and key, the ciphertext is the unique string that shifts letter `i` by key letter `i mod |key|`. |
| Vigenere.VigenereExample | cipha-lib/src/lib.rs:443-448 | `ATTACKATDAWN` under `LEMON` is `LXFOPVEFRNHR`. |
| Vigenere.LemonDecipherUnderflows | cipha-lib/src/lib.rs:216 | The source's decipher panics on `LXFOPVEFRNHR` with key `LEMON`. |
| Morse.XAndStarShareCode | cipha-lib/src/lib.rs:234-243 | Entry 23 is `X` and entry 50 is `*`, both with `-..-`. |
| Morse.DashRepeated | cipha-lib/src/lib.rs:240-242 | `-` is listed twice, as entries 42 and 49, both times with `-....-`. |
| Morse.CodesDistinct | cipha-lib/src/lib.rs:230-244 | The only repeated codes are those of `X`/`*` and of the twice-listed `-`. |
| Morse.KeysDistinct | cipha-lib/src/lib.rs:230-244 | The only repeated character is the twice-listed `-`. |
| Morse.CodesWellFormed | cipha-lib/src/lib.rs:230-244 | Every code is a non-empty word of `.`, `-` and `/`. |
| Morse.InsertAll | cipha-lib/src/lib.rs:247-253 | In-order insertion: every key of the pairs is in the map and nothing else is. |
| Morse.InsertAllLastWins | cipha-lib/src/lib.rs:249-250 | A key maps to its pair's value when no later pair gives it another value. |
| Morse.CreateMorseCodeMap | cipha-lib/src/lib.rs:247-253 | Exactly the table's characters, each mapped to its code. |
| Morse.CreateReverseMorseCodeMap | cipha-lib/src/lib.rs:256-262 | Exactly the table's codes, each decoding to its character except `-..-`, which decodes to `*`; no code decodes to `X`. |
| Morse.ReverseEntries | cipha-lib/src/lib.rs:256-262 | For any 53-pair table laid out like this one, the swapped insertion gives each code its character, except that X's code goes to `*`. |
| Morse.PaddedIsJoin | cipha-lib/src/lib.rs:279-284 | The encoding loop's output is the known characters' codes joined by single spaces plus one final space, or empty when no character is known. |
| Morse.EncodeUppercased | cipha-lib/src/lib.rs:279-286 | The loop's output, once trimmed, is exactly the codes of the known characters joined by single spaces: the trim removes only the final space. |
| Morse.MorseCodeCipher | cipha-lib/src/lib.rs:275-287 | On ASCII text: the codes of the uppercased text's table characters, joined by single spaces; unknown characters are dropped. |
| Morse.MorseCodeDecipher | cipha-lib/src/lib.rs:290-302 | At most one character per space-separated piece, each a table character other than `X`. |
| Morse.DecodeTokens | cipha-lib/src/lib.rs:294-299 | The decoding loop emits at most one character per piece. |
| Morse.DecodedValues | cipha-lib/src/lib.rs:294-299 | Every character the decoding loop emits is a value of the reverse map. |
| Morse.DecodeOne | cipha-lib/src/lib.rs:295-297 | On any input, a single piece decodes to its character when the map knows it and to nothing otherwise. |
| Morse.DecodeTokensAppend | cipha-lib/src/lib.rs:294-299 | On any input, the decoding of two piece lists in turn is the two decodings joined, so the output is each known piece's character in order. `MorseCode::decode` is the same loop over the same pieces, so this holds for it too. |
| Morse.UnknownDropped | cipha-lib/src/lib.rs:294-299 | A piece the map does not know, wherever it stands, is dropped, and the pieces around it decode as if it were absent. |
| Morse.EmptyPieceDropped | cipha-lib/src/lib.rs:290-302 | `.-  / -...` splits into `.-`, an empty piece, `/` and `-...`, and deciphers to `A B`: the empty piece is skipped and `/` gives a space. |
| Morse.DecodeCodes | cipha-lib/src/lib.rs:279-299 | Decoding the codes of a text gives its known characters in order, with `X` read as `*`. |
| Morse.MorseRoundTrip | cipha-lib/src/lib.rs:275-302 | Deciphering the cipher of ASCII text gives its uppercased table characters in order, with `X` read as `*`. |
| Morse.RecoveredIsIdentity | cipha-lib/src/lib.rs:238 | For uppercased text of table characters other than `X`, the round trip is the identity; space travels as `/`. |
| Morse.HelloExample | cipha-lib/src/lib.rs:459-470 | `HELLO` encodes to `.... . .-.. .-.. ---`, and that decodes to `HELLO`. |
| Morse.XDecodesAsStar | cipha-lib/src/lib.rs:243 | `-..-` decodes to `*`. |
| AlphaNum.Alpha2NumToken | cipha-lib/src/lib.rs:85-93 | A letter gives the canonical digits of its 1-based position in either case: one or two digits, the first not `0`. Any other character gives itself. |
| AlphaNum.Alpha2Num | cipha-lib/src/lib.rs:81-97 | The tokens joined by single spaces and trimmed at both ends; without whitespace in the text, exactly the joined tokens. |
| AlphaNum.RawIsJoin | cipha-lib/src/lib.rs:84-94 | The loop's output is the joined tokens plus one final space. |
| AlphaNum.CharCode | cipha-lib/src/lib.rs:123-132 | 0 gives `` ` ``, 1..26 give the lowercase letters, 27..52 the uppercase ones, and above 52 nothing. |
| AlphaNum.Step | cipha-lib/src/lib.rs:117-136 | A digit joins the buffer. A non-digit that is not whitespace, or whitespace with an empty buffer, changes nothing. Buffers stay all-digit. |
| AlphaNum.Finish | cipha-lib/src/lib.rs:139-153 | With an empty buffer the letters so far are returned; otherwise at most one letter is added. |
| AlphaNum.Num2AlphaAsWritten | cipha-lib/src/lib.rs:113-154 | The source's `num2alpha`, `None` on the parse panic; it only emits letters and `` ` ``. |
| AlphaNum.Num2Alpha | cipha-lib/src/lib.rs:130-134 | The corrected scan that empties the buffer after a skipped number; it only emits letters and `` ` ``. |
| AlphaNum.RunAppend | cipha-lib/src/lib.rs:117-137 | Scanning `a + b` is scanning `a` and then `b` from where it stopped. |
| AlphaNum.TrimIgnored | cipha-lib/src/lib.rs:120-136 | Whitespace at either end of the input does not change the result. |
| AlphaNum.Num2AlphaRoundTrip | cipha-lib/src/lib.rs:81-154 | For text without ASCII digits, decoding the encoding gives the text's letters in lower case, with the source's scan and the corrected one alike. |
| AlphaNum.IgnoredCharacter | cipha-lib/src/lib.rs:117-120 | A character that is neither digit nor whitespace is skipped without ending the number around it. |
| AlphaNum.NumberDecodes | cipha-lib/src/lib.rs:122-134 | A number from 1 to 52 followed by whitespace emits its letter and empties the buffer. |
| AlphaNum.OverflowPanics | cipha-lib/src/lib.rs:122 | A number above `u32::MAX` panics, inside the loop and at the end. |
| AlphaNum.DiscardedNumber | cipha-lib/src/lib.rs:129-134 | A number from 53 to `u32::MAX` emits nothing. The source keeps its digits; the corrected scan empties the buffer. |
| AlphaNum.AfterDiscarded | cipha-lib/src/lib.rs:117-134 | Digits after a skipped number are appended to the stale buffer in the source and start afresh when corrected. |
| AlphaNum.StaleBufferExample | cipha-lib/src/lib.rs:131 | `53 1` gives the empty string in the source and `a` when corrected. |
| AlphaNum.DigitBreaksRoundTrip | cipha-lib/src/lib.rs:85-93 | `a1` encodes as `1 1` and decodes as `aa`. |
| AlphaNum.RawAppend | cipha-lib/src/lib.rs:84-94 | The loop's output for a concatenation is its output for the first part followed by its output for the second. |
| AlphaNum.Alpha2NumExample | cipha-lib/src/lib.rs:75-80 | `alpha2num("Hello, World!")` is `8 5 12 12 15 ,   23 15 18 12 4 !`, with three spaces after the comma. With `AlphaNumConverter.AlphaToNum`'s contract, this is also the converter's test at cipha/src/ciphers.rs:402-407. |
| AlphaNum.Num2AlphaExample | cipha-lib/src/lib.rs:107-111 | `num2alpha("8 5 12 12 15 , 23 15 18 12 4 !")` is `helloworld`, with the source's scan and with the corrected one. With `AlphaNumConverter.NumToAlpha`'s contract, this is also the converter's test at cipha/src/ciphers.rs:410-415. |
| RailFence.Advance | cipha-lib/src/lib.rs:355-360 | One turn keeps the cursor on the rails and moves it one rail in its new direction. |
| RailFence.WalkIsZigZag | cipha-lib/src/lib.rs:353-361 | The loop puts character `k` on rail `ZigZag(k)`: 0, 1, ..., r-1, r-2, ..., 1, 0, ... |
| RailFence.FenceKeepsCharacters | cipha-lib/src/lib.rs:349-363 | The joined rails have the text's length, multiset of characters and UTF-8 length. |
| RailFence.RailFenceCipher | cipha-lib/src/lib.rs:344-364 | Same length and same multiset of characters; unchanged when `rails == 1` or `rails >= len`; zero rails on non-empty text is excluded (it panics). |
| RailFence.RailFenceIsZigZag | cipha-lib/src/lib.rs:344-364 | Outside the degenerate cases, the ciphertext is rail 0, rail 1, ... of the closed-form zig-zag. |
| RailFence.RailFenceDecipher | cipha-lib/src/lib.rs:374-377 | Unchanged in the same degenerate cases; zero rails on non-empty text is excluded. |
| RailFence.Split | cipha-lib/src/lib.rs:396-401 | Rail `r` receives `counts[r]` consecutive ciphertext characters, and joining the pieces gives the ciphertext. |
| RailFence.CountsAreLengths | cipha-lib/src/lib.rs:384-393 | The first loop's counts are the rail lengths of the fence, and they add up to the text length. |
| RailFence.SplitConcat | cipha-lib/src/lib.rs:396-401 | Cutting the joined rails by their lengths gives the rails back. |
| RailFence.ReadFence | cipha-lib/src/lib.rs:404-417 | Replaying the labels over a text's fence reads the text back. |
| RailFence.RailFenceRoundTrip | cipha-lib/src/lib.rs:344-420 | For every text and every number of rails the functions accept, deciphering the cipher gives the text back. |
| RailFence.RailFenceCipherLoop | cipha-lib/src/lib.rs:349-363 | The imperative cipher loop computes `RailFenceCipher`. |
| RailFence.RailFenceDecipherLoops | cipha-lib/src/lib.rs:374-420 | The three imperative loops together compute `RailFenceDecipher`. |
| RailFence.CountRails | cipha-lib/src/lib.rs:384-393 | The counting loop yields, for each rail, the number of characters the zig-zag puts on it. |
| RailFence.ReadRails | cipha-lib/src/lib.rs:404-417 | The `while` loop stops after exactly one turn per character, having read what the replay reads. |
| RailFence.RowsLeft | cipha-lib/src/lib.rs:407-410 | While labels remain, the rails still hold bytes, and once none remain they are empty; so the byte-length test ends the loop at the right turn. |
| RailFenceVector.RailFenceExample | cipha-lib/src/lib.rs:484-489 | `WEAREDISCOVEREDSAVEYOURSELF` on three rails enciphers to `WECRAOEERDSOEESVYUSLAIVDERF`. |
| RailFenceVector.RailFenceExampleDeciphers | cipha-lib/src/lib.rs:491-492 | That ciphertext deciphers back to the plaintext. |
| RailFenceVector.ThreeRows | cipha-lib/src/lib.rs:344-364 | On 27 characters and three rails, the cipher joins the three rows of the zig-zag. |
| RailFenceVector.PeriodicLabels | cipha-lib/src/lib.rs:355-360 | The period-four label sequence for 27 characters is six copies of `0 1 2 1` followed by `0 1 2`. |
| Ciphers.MapChars | cipha-lib/src/ciphers.rs:10-16 | `chars().map(f).collect()`: the same length, and character `i` is `f` of character `i`. |
| Ciphers.Rot13Cipher.Encipher | cipha-lib/src/ciphers.rs:9-17 | `Rot13Cipher::encipher` equals the library's `rot13`. |
| Ciphers.Rot13Cipher.Decipher | cipha/src/ciphers.rs:28-30 | `decipher` equals `rot13`, and enciphering its result gives the message back. |
| Ciphers.CaesarCipher.Encipher | cipha-lib/src/ciphers.rs:33-41 | Defined exactly where `caesar_cipher` is, and equal to it with the stored shift. |
| Ciphers.CaesarCipher.DecipherAsWritten | cipha/src/ciphers.rs:62-71 | Defined only for shifts of at most 26; there it is `caesar_cipher` by `26 - shift`, whose sum never overflows. |
| Ciphers.CaesarCipher.Decipher | cipha-lib/src/ciphers.rs:43-52 | The corrected decipher: `caesar_cipher` by `26 - shift % 26`, defined for every message. |
| Ciphers.CaesarStructRoundTrip | cipha/src/ciphers.rs:49-71 | For shifts up to 26, the source's `decipher` undoes `encipher`. |
| Ciphers.CaesarStructInverse | cipha-lib/src/ciphers.rs:33-52 | The corrected `decipher` undoes `encipher` for every shift. |
| Ciphers.CaesarDecipherUnderflows | cipha-lib/src/ciphers.rs:44 | Shift 27 enciphers every message, but `26 - 27` underflows in `decipher`; the corrected one still inverts. |
| Ciphers.CaesarStructExample | cipha/src/ciphers.rs:338-352 | Shift 3 takes `Hello, World!` to `Khoor, Zruog!` and back. |
| Ciphers.VigenereCipher.Encipher | cipha-lib/src/ciphers.rs:64-81 | The empty key is the identity; the length is kept and non-letters are copied. |
| Ciphers.VigenereCipher.DecipherAsWritten | cipha-lib/src/ciphers.rs:83-100 | Defined where line 95 does not underflow, and there equal to the corrected `Decipher`. |
| Ciphers.VigenereCipher.Decipher | cipha/src/ciphers.rs:112-129 | The empty key is the identity; the length is kept and non-letters are copied. |
| Ciphers.NewVigenere | cipha/src/ciphers.rs:83-85 | The stored key's bytes are the lowercased key's bytes. |
| Ciphers.VigenereStructRefines | cipha-lib/src/ciphers.rs:60-100 | A struct built by `new` panics exactly where the free functions do, and otherwise computes what they compute, in both directions. |
| Ciphers.VigenereNewFoldsCase | cipha/src/ciphers.rs:83-85 | `new(K)`, `new` of K lowercased and `new` of K uppercased build the same struct. |
| Ciphers.VigenereStructRoundTrip | cipha/src/ciphers.rs:90-129 | For every key the struct accepts, its corrected `decipher` undoes its `encipher`. |
| Ciphers.VigenereStructExample | cipha/src/ciphers.rs:355-360 | `new("LEMON")` enciphers `ATTACKATDAWN` to `LXFOPVEFRNHR`. |
| Ciphers.MorseCode.Encode | cipha-lib/src/ciphers.rs:145-156 | With the map `new` builds, it equals `morse_code_cipher`. |
| Ciphers.MorseCode.Decode | cipha-lib/src/ciphers.rs:159-170 | With the reverse map `new` builds, it equals `morse_code_decipher`. |
| Ciphers.InsertBoth | cipha-lib/src/ciphers.rs:133-136 | The single insertion loop of `new` builds exactly the two maps of the library's two `create_*_map` loops. |
| Ciphers.NewMorseCode | cipha/src/ciphers.rs:158-171 | `new` holds `create_morse_code_map` and `create_reverse_morse_code_map`. |
| Ciphers.MorseStructRoundTrip | cipha/src/ciphers.rs:174-199 | Decoding the encoding of ASCII text gives its uppercased table characters, with `X` read as `*`. |
| Ciphers.MorseStructXIsStar | cipha-lib/src/ciphers.rs:111-135 | In the struct's reverse map, `-..-` names `*`. |
| Ciphers.AtbashCipher.Transform | cipha/src/ciphers.rs:216-222 | `transform` equals the library's `atbash_cipher`. |
| Ciphers.AtbashCipher.Encipher | cipha-lib/src/ciphers.rs:190-192 | `transform` of the result gives the plaintext back. |
| Ciphers.AtbashCipher.Decipher | cipha/src/ciphers.rs:234-236 | `encipher` of the result gives the ciphertext back, and it equals `atbash_decipher`. |
| Ciphers.AtbashStructExample | cipha/src/ciphers.rs:386-399 | `ATTACKATDAWN` and `ZGGZXPZGWZDM` encipher and decipher to each other. |
| Ciphers.AlphaNumConverter.AlphaToNum | cipha/src/ciphers.rs:251-267 | The loop computes the library's `alpha2num`. |
| Ciphers.AlphaNumConverter.NumToAlpha | cipha-lib/src/ciphers.rs:228-269 | The loop, with `continue` and the early return, computes the library's `num2alpha`, stale buffer and panics included. |
| Ciphers.PanicStays | cipha/src/ciphers.rs:279 | Once the scan of a prefix has panicked, the whole call panics. |
| Ciphers.AlphaNumStructRoundTrip | cipha-lib/src/ciphers.rs:209-269 | For text without ASCII digits, `num_to_alpha(alpha_to_num(m))` gives the letters of `m` in lower case. |
| Cli.EncodeMessage | cipha-cli/src/main.rs:143-154 | An unknown name gives `Unsupported cipher`. It panics exactly on a Caesar overflow with the shift or its default 3, or on a Vigenère key byte below `b'a'` with the key or its default `""`. Which library function each name calls is stated by the seven `*Routes` lemmas. |
| Cli.UnwrapOr | cipha-cli/src/main.rs:146 | `Option::unwrap_or`: the value when present, the default otherwise. |
| Cli.ReverseShiftAsWritten | cipha-cli/src/main.rs:171 | `shift * 25` fits in `u8` exactly for shifts up to 10, and then cancels the shift modulo 26. |
| Cli.DecodeMessageAsWritten | cipha-cli/src/main.rs:168-179 | An unknown name gives `Unsupported cipher`. Caesar panics for shifts above 10. Vigenère succeeds exactly where the source's decipher does not underflow. The `*Routes` lemmas state the function each name calls. |
| Cli.ReverseShift | cipha-cli/src/main.rs:171 | The intended reverse shift, which always cancels the shift modulo 26. |
| Cli.DecodeMessage | cipha-cli/src/main.rs:168-179 | The corrected decoder: an unknown name gives `Unsupported cipher`. It fails exactly on a gematria parse panic or an unusable Vigenère key. The `*Routes` lemmas state the function each name calls. |
| Cli.Rot13Routes | cipha-cli/src/main.rs:145 | `rot13` calls `rot13` when encoding, and again when decoding (line 170). |
| Cli.CaesarRoutes | cipha-cli/src/main.rs:146 | `caesar` calls `caesar_cipher` with the shift (default 3) when encoding. When decoding (line 171) it uses `shift * 25` as written, or `26 - shift % 26` corrected. Each call panics where its `u8` sum overflows. |
| Cli.ReverseRoutes | cipha-cli/src/main.rs:147 | `reverse` calls `reverse_cipher` when encoding and when decoding (line 172). |
| Cli.GematriaRoutes | cipha-cli/src/main.rs:148 | `gematria` calls `alpha2num` when encoding and `num2alpha` when decoding (line 173). |
| Cli.VigenereRoutes | cipha-cli/src/main.rs:149 | `vigenere` calls `vigenere_cipher` when encoding, with the key or its default `""`, panicking on a key byte below `b'a'`. Decoding (line 174) returns `vigenere_decipher`'s result as written wherever it does not underflow and panics elsewhere; the corrected decoder returns the corrected decipher under the encoder's key condition. |
| Cli.MorseRoutes | cipha-cli/src/main.rs:150 | `morse` calls `morse_code_cipher` on ASCII text when encoding and `morse_code_decipher` when decoding (line 175). |
| Cli.AtbashRoutes | cipha-cli/src/main.rs:151 | `atbash` calls `atbash_cipher` when encoding and `atbash_decipher` when decoding (line 176). |
| Cli.CliRoundTrip | cipha-cli/src/main.rs:143-179 | For ROT13, reverse, Atbash, Caesar, and Vigenère with a letter key or no key, decoding the encoding gives the message. |
| Cli.CaesarRoundTrip | cipha-cli/src/main.rs:146-171 | Whenever Caesar encoding does not overflow, the corrected decoding of its output gives the message back. |
| Cli.VigenereRoundTrip | cipha-cli/src/main.rs:149-174 | With no key or a key of ASCII letters, Vigenère encoding never panics and the corrected decoding of its output gives the message back. |
| Cli.CliCaesarRoundTripAsWritten | cipha-cli/tests/cli_tests.rs:47-58 | With the source's `shift * 25`, Caesar decoding undoes encoding for every shift up to 9. |
| Cli.CliCaesarShiftTenOverflows | cipha-cli/src/main.rs:171 | Shift 10 encodes `z` as `j`. The source's decoding then overflows, and the corrected one gives `z`. |
| Cli.CliVigenereAsWrittenFails | cipha-cli/src/main.rs:174 | `ATTACKATDAWN` under `LEMON` encodes to `LXFOPVEFRNHR`. The source's decoding of it panics, and the corrected one recovers the plaintext. |
| Cli.CliVigenereNoKey | cipha-cli/src/main.rs:149 | Without a key, Vigenère encoding and decoding are the identity. |
| Cli.CliGematriaLowercases | cipha-cli/src/main.rs:148 | Decoding the gematria encoding of text without digits gives its letters in lower case. |

## Left out

- I/O and argument parsing of `cipha-cli/src/main.rs` (structopt, `get_message`, file and stdout writing): plumbing with no transform logic.
- `cipha-cli/tests/cli_tests.rs` runs the binary. Its vectors appear only as lemmas.
- The structs' `new` functions for the stateless ciphers (`Rot13Cipher`, `AtbashCipher`, `AlphaNumConverter`) construct an empty value. They are the datatype constructors.
- Release-build wrap-around: every `u8`/`u32` overflow is modelled as the debug build's panic (a precondition or `None`), not as wrapping arithmetic.
- `HashMap` is modelled as a Dafny `map` built by in-order insertion. Hashing and iteration order are not modelled, and none of the functions depends on them.
- `char::from_u32(...).unwrap()` in `num2alpha` never fails for the codes it receives, so no panic is modelled there.
- Morse.MorseCodeCipher: requires ASCII text. For ASCII, `str::to_uppercase` is `to_ascii_uppercase`; full Unicode case mapping, including multi-character results, is not modelled.
- Cli.EncodeMessage: requires ASCII text for `morse`, for the same reason.
- Ciphers.MorseCode.Encode: requires ASCII text. For ASCII, `str::to_uppercase` is `to_ascii_uppercase`; full Unicode case mapping, including multi-character results, is not modelled. Equality with `morse_code_cipher` is stated only when the struct holds the map `new` builds; structs holding other maps are not constrained.
- Ciphers.MorseCode.Decode: states equality with `morse_code_decipher` only when the struct holds the reverse map `new` builds.
- RailFence.RailFenceDecipher: its own contract states only the degenerate cases. Its meaning is given by `RailFenceRoundTrip` and `RailFenceDecipherLoops`.
- RailFence.Advance: the casts `rail as i32` and `as usize` are taken as the identity, which holds only while the rail index fits in `i32`; rail counts above `i32::MAX` are not modelled.
- `rail_fence_cipher`/`rail_fence_decipher` with zero rails on a non-empty text index an empty vector. That panic is excluded by a precondition, not returned as a value.

## Findings

| source | as written | input that shows it | evidently intended | confidence | as-written member | corrected member |
|---|---|---|---|---|---|---|
| cipha-lib/src/lib.rs:216 | `c as u8 - first - shift + 26` is evaluated left to right in `u8`, so it underflows whenever the key shift exceeds the letter's position (the same code is at cipha-lib/src/ciphers.rs:95 and cipha/src/ciphers.rs:124). Only a debug build panics. A release build wraps: for key bytes up to `{` (shift at most 26, every letter key included) the wrapped value is exactly the intended `v - shift + 26`. For larger key bytes, which `vigenere_cipher` accepts, the wrapped value can be `v - shift + 282`, which `% 26` takes to a different letter: key `|` enciphers `z` as `a`, and a release build deciphers `a` as `v`. The commented-out `test_vigenere_decipher` at cipha-lib/src/ciphers.rs:320-326 and cipha/src/ciphers.rs:362-368 fits a debug-build panic. | `vigenere_decipher("LXFOPVEFRNHR", "LEMON")`: the third letter `F` (5) minus the shift 12 of `m`. | `(v - shift + 26) % 26`, which inverts `vigenere_cipher` for every accepted key. | not executed | Vigenere.LemonDecipherUnderflows | Vigenere.VigenereRoundTrip |
| cipha-lib/src/lib.rs:131 | After a number above 52, `continue` skips `number_buffer.clear()` at line 134, so its digits prefix the next number. | `num2alpha("53 1")` returns `""` (it reads `531`). | Discard the number and clear the buffer, giving `"a"`. | not executed | AlphaNum.StaleBufferExample | AlphaNum.DiscardedNumber |
| cipha-lib/src/ciphers.rs:44 | `26 - self.shift` in `u8` underflows for shifts above 26, which `encipher` accepts up to 230 (also cipha/src/ciphers.rs:63). | `CaesarCipher::new(27).decipher(m)` for any `m`. | The reverse shift `26 - shift % 26`, so `decipher` inverts `encipher` for every shift. | not executed | Ciphers.CaesarDecipherUnderflows | Ciphers.CaesarStructInverse |
| cipha-cli/src/main.rs:171 | `shift.unwrap_or(3) * 25` in `u8` overflows for shifts of 11 and more. For shift 10 the product 250 overflows the sum inside `caesar_cipher`. | `decode --cipher caesar --shift 10` of `j`, which is `z` encoded with shift 10. | A reverse shift that cannot overflow, such as `26 - shift % 26`, so decoding undoes encoding for every shift. | not executed | Cli.CliCaesarShiftTenOverflows | Cli.CliRoundTrip |
