/**
 Morse code, `MORSE_CODE_MAP`, `create_morse_code_map`,
 `create_reverse_morse_code_map`, `morse_code_cipher` and
 `morse_code_decipher` in cipha-lib/src/lib.rs.

 Every key of the table is a one-character string, so keys are modelled
 as `char`s and the `HashMap<String, String>` lookups `get(&c.to_string())`
 as lookups by character.
 */
module Morse {
  import opened Chars
  import opened Strings

  /** `MORSE_CODE_MAP`, pair for pair and in the same order, one constant
      per source line: 53 pairs for 52 characters and 51 codes. `'-'` is
      listed twice with the same code; `'X'` and `'*'` share `-..-`, the
      code Recommendation ITU-R M.1677-1 (Part I, section 1.1.3) gives
      both to the letter X and to the multiplication sign. */
  const Line1: seq<(char, string)> := [('A', ".-"), ('B', "-..."), ('C', "-.-."), ('D', "-.."), ('E', "."), ('F', "..-.")]
  const Line2: seq<(char, string)> := [('G', "--."), ('H', "...."), ('I', ".."), ('J', ".---"), ('K', "-.-"), ('L', ".-..")]
  const Line3: seq<(char, string)> := [('M', "--"), ('N', "-."), ('O', "---"), ('P', ".--."), ('Q', "--.-"), ('R', ".-.")]
  const Line4: seq<(char, string)> := [('S', "..."), ('T', "-"), ('U', "..-"), ('V', "...-"), ('W', ".--"), ('X', "-..-")]
  const Line5: seq<(char, string)> := [('Y', "-.--"), ('Z', "--..")]
  const Line6: seq<(char, string)> := [('0', "-----"), ('1', ".----"), ('2', "..---"), ('3', "...--"), ('4', "....-")]
  const Line7: seq<(char, string)> := [('5', "....."), ('6', "-...."), ('7', "--..."), ('8', "---.."), ('9', "----.")]
  const Line8: seq<(char, string)> := [(' ', "/")]
  const Line9: seq<(char, string)> := [('.', ".-.-.-"), (',', "--..--"), ('?', "..--.."), (';', "-.-.-.")]
  const Line10: seq<(char, string)> := [(':', "---..."), ('-', "-....-"), ('/', "-..-."), ('\'', ".----.")]
  const Line11: seq<(char, string)> := [('"', ".-..-.")]
  const Line12: seq<(char, string)> := [('=', "-...-"), ('_', "..--.-"), ('+', ".-.-."), ('-', "-....-")]
  const Line13: seq<(char, string)> := [('*', "-..-"), ('(', "-.--."), (')', "-.--.-")]

  /** The lines joined, as a balanced tree so that looking up an index
      stays shallow. */
  const MorseCodeMap: seq<(char, string)> :=
    (((Line1 + Line2) + (Line3 + Line4)) + ((Line5 + Line6) + Line7)) +
    (((Line8 + Line9) + Line10) + ((Line11 + Line12) + Line13))

  /** `X`, at index 23, and `*`, at index 50, share a code. */
  lemma XAndStarShareCode()
    ensures MorseCodeMap[23] == ('X', "-..-") && MorseCodeMap[50] == ('*', "-..-")
  {
    Line4At();
    Line13At();
  }

  /** `'-'`, at index 42, is listed again at index 49. */
  lemma DashRepeated()
    ensures MorseCodeMap[42] == ('-', "-....-") && MorseCodeMap[49] == ('-', "-....-")
  {
    Line10At();
    Line12At();
  }

  // Distinctness is proved through the index of each key's and each
  // code's first entry: every entry's key and code name their own index,
  // except at the two listed repeats, so two entries with the same key or
  // code are those repeats. This is linear in the table, block by block.

  /** The index of the first entry with key `x`, or -1: letters and
      digits come in alphabetical and numerical order. */
  function KeyRank(x: char): int
  {
    if 'A' <= x <= 'Z' then x as int - 'A' as int
    else if '0' <= x <= '9' then 26 + (x as int - '0' as int)
    else if x == ' ' then 36
    else if x == '.' then 37
    else if x == ',' then 38
    else if x == '?' then 39
    else if x == ';' then 40
    else if x == ':' then 41
    else if x == '-' then 42
    else if x == '/' then 43
    else if x == '\'' then 44
    else if x == '"' then 45
    else if x == '=' then 46
    else if x == '_' then 47
    else if x == '+' then 48
    else if x == '*' then 50
    else if x == '(' then 51
    else if x == ')' then 52
    else -1
  }

  /** The index of the first entry with code `x`, or -1: the Morse
      decoding tree, one dot or dash at a time. */
  function CodeRank(x: string): int
  {
    if |x| == 0 then -1
    else if x[0] == '/' then (if |x| == 1 then 36 else -1)
    else if x[0] == '.' then
      if |x| == 1 then 4
      else if x[1] == '.' then
        if |x| == 2 then 8
        else if x[2] == '.' then
          if |x| == 3 then 18
          else if x[3] == '.' then
            if |x| == 4 then 7
            else if x[4] == '.' then
              if |x| == 5 then 31 else -1
            else if x[4] == '-' then
              if |x| == 5 then 30 else -1
            else -1
          else if x[3] == '-' then
            if |x| == 4 then 21
            else if x[4] == '-' then
              if |x| == 5 then 29 else -1
            else -1
          else -1
        else if x[2] == '-' then
          if |x| == 3 then 20
          else if x[3] == '.' then
            if |x| == 4 then 5 else -1
          else if x[3] == '-' then
            if |x| == 4 then -1
            else if x[4] == '.' then
              if |x| == 5 then -1
              else if x[5] == '.' then
                if |x| == 6 then 39 else -1
              else if x[5] == '-' then
                if |x| == 6 then 47 else -1
              else -1
            else if x[4] == '-' then
              if |x| == 5 then 28 else -1
            else -1
          else -1
        else -1
      else if x[1] == '-' then
        if |x| == 2 then 0
        else if x[2] == '.' then
          if |x| == 3 then 17
          else if x[3] == '.' then
            if |x| == 4 then 11
            else if x[4] == '-' then
              if |x| == 5 then -1
              else if x[5] == '.' then
                if |x| == 6 then 45 else -1
              else -1
            else -1
          else if x[3] == '-' then
            if |x| == 4 then -1
            else if x[4] == '.' then
              if |x| == 5 then 48
              else if x[5] == '-' then
                if |x| == 6 then 37 else -1
              else -1
            else -1
          else -1
        else if x[2] == '-' then
          if |x| == 3 then 22
          else if x[3] == '.' then
            if |x| == 4 then 15 else -1
          else if x[3] == '-' then
            if |x| == 4 then 9
            else if x[4] == '-' then
              if |x| == 5 then 27
              else if x[5] == '.' then
                if |x| == 6 then 44 else -1
              else -1
            else -1
          else -1
        else -1
      else -1
    else if x[0] == '-' then
      if |x| == 1 then 19
      else if x[1] == '.' then
        if |x| == 2 then 13
        else if x[2] == '.' then
          if |x| == 3 then 3
          else if x[3] == '.' then
            if |x| == 4 then 1
            else if x[4] == '.' then
              if |x| == 5 then 32
              else if x[5] == '-' then
                if |x| == 6 then 42 else -1
              else -1
            else if x[4] == '-' then
              if |x| == 5 then 46 else -1
            else -1
          else if x[3] == '-' then
            if |x| == 4 then 23
            else if x[4] == '.' then
              if |x| == 5 then 43 else -1
            else -1
          else -1
        else if x[2] == '-' then
          if |x| == 3 then 10
          else if x[3] == '.' then
            if |x| == 4 then 2
            else if x[4] == '-' then
              if |x| == 5 then -1
              else if x[5] == '.' then
                if |x| == 6 then 40 else -1
              else -1
            else -1
          else if x[3] == '-' then
            if |x| == 4 then 24
            else if x[4] == '.' then
              if |x| == 5 then 51
              else if x[5] == '-' then
                if |x| == 6 then 52 else -1
              else -1
            else -1
          else -1
        else -1
      else if x[1] == '-' then
        if |x| == 2 then 12
        else if x[2] == '.' then
          if |x| == 3 then 6
          else if x[3] == '.' then
            if |x| == 4 then 25
            else if x[4] == '.' then
              if |x| == 5 then 33 else -1
            else if x[4] == '-' then
              if |x| == 5 then -1
              else if x[5] == '-' then
                if |x| == 6 then 38 else -1
              else -1
            else -1
          else if x[3] == '-' then
            if |x| == 4 then 16 else -1
          else -1
        else if x[2] == '-' then
          if |x| == 3 then 14
          else if x[3] == '.' then
            if |x| == 4 then -1
            else if x[4] == '.' then
              if |x| == 5 then 34
              else if x[5] == '.' then
                if |x| == 6 then 41 else -1
              else -1
            else -1
          else if x[3] == '-' then
            if |x| == 4 then -1
            else if x[4] == '.' then
              if |x| == 5 then 35 else -1
            else if x[4] == '-' then
              if |x| == 5 then 26 else -1
            else -1
          else -1
        else -1
      else -1
    else -1
  }

  /** The rank the entry at index `i` has among keys: its own index,
      except the repeated `'-'`. */
  function KeyIndex(i: int): int {
    if i == 49 then 42 else i
  }

  /** The rank the entry at index `i` has among codes: its own index,
      except the repeated `'-'` and the `*` that shares X's code. */
  function CodeIndex(i: int): int {
    if i == 49 then 42 else if i == 50 then 23 else i
  }

  lemma Line1Ranks()
    ensures forall j | 0 <= j < |Line1| ::
      KeyRank(Line1[j].0) == KeyIndex(j) && CodeRank(Line1[j].1) == CodeIndex(j)
  {
  }

  lemma Line2Ranks()
    ensures forall j | 0 <= j < |Line2| ::
      KeyRank(Line2[j].0) == KeyIndex(6 + j) && CodeRank(Line2[j].1) == CodeIndex(6 + j)
  {
  }

  lemma Line3Ranks()
    ensures forall j | 0 <= j < |Line3| ::
      KeyRank(Line3[j].0) == KeyIndex(12 + j) && CodeRank(Line3[j].1) == CodeIndex(12 + j)
  {
  }

  lemma Line4Ranks()
    ensures forall j | 0 <= j < |Line4| ::
      KeyRank(Line4[j].0) == KeyIndex(18 + j) && CodeRank(Line4[j].1) == CodeIndex(18 + j)
  {
  }

  lemma Line5Ranks()
    ensures forall j | 0 <= j < |Line5| ::
      KeyRank(Line5[j].0) == KeyIndex(24 + j) && CodeRank(Line5[j].1) == CodeIndex(24 + j)
  {
  }

  lemma Line6Ranks()
    ensures forall j | 0 <= j < |Line6| ::
      KeyRank(Line6[j].0) == KeyIndex(26 + j) && CodeRank(Line6[j].1) == CodeIndex(26 + j)
  {
  }

  lemma Line7Ranks()
    ensures forall j | 0 <= j < |Line7| ::
      KeyRank(Line7[j].0) == KeyIndex(31 + j) && CodeRank(Line7[j].1) == CodeIndex(31 + j)
  {
  }

  lemma Line8Ranks()
    ensures forall j | 0 <= j < |Line8| ::
      KeyRank(Line8[j].0) == KeyIndex(36 + j) && CodeRank(Line8[j].1) == CodeIndex(36 + j)
  {
  }

  lemma Line9Ranks()
    ensures forall j | 0 <= j < |Line9| ::
      KeyRank(Line9[j].0) == KeyIndex(37 + j) && CodeRank(Line9[j].1) == CodeIndex(37 + j)
  {
  }

  lemma Line10Ranks()
    ensures forall j | 0 <= j < |Line10| ::
      KeyRank(Line10[j].0) == KeyIndex(41 + j) && CodeRank(Line10[j].1) == CodeIndex(41 + j)
  {
  }

  lemma Line11Ranks()
    ensures forall j | 0 <= j < |Line11| ::
      KeyRank(Line11[j].0) == KeyIndex(45 + j) && CodeRank(Line11[j].1) == CodeIndex(45 + j)
  {
  }

  lemma Line12Ranks()
    ensures forall j | 0 <= j < |Line12| ::
      KeyRank(Line12[j].0) == KeyIndex(46 + j) && CodeRank(Line12[j].1) == CodeIndex(46 + j)
  {
  }

  lemma Line13Ranks()
    ensures forall j | 0 <= j < |Line13| ::
      KeyRank(Line13[j].0) == KeyIndex(50 + j) && CodeRank(Line13[j].1) == CodeIndex(50 + j)
  {
  }

  lemma Line1At()
    ensures forall i | 0 <= i < 6 :: MorseCodeMap[i] == Line1[i]
  {
  }

  lemma Line2At()
    ensures forall i | 6 <= i < 12 :: MorseCodeMap[i] == Line2[i - 6]
  {
  }

  lemma Line3At()
    ensures forall i | 12 <= i < 18 :: MorseCodeMap[i] == Line3[i - 12]
  {
  }

  lemma Line4At()
    ensures forall i | 18 <= i < 24 :: MorseCodeMap[i] == Line4[i - 18]
  {
  }

  lemma Line5At()
    ensures forall i | 24 <= i < 26 :: MorseCodeMap[i] == Line5[i - 24]
  {
  }

  lemma Line6At()
    ensures forall i | 26 <= i < 31 :: MorseCodeMap[i] == Line6[i - 26]
  {
  }

  lemma Line7At()
    ensures forall i | 31 <= i < 36 :: MorseCodeMap[i] == Line7[i - 31]
  {
  }

  lemma Line8At()
    ensures forall i | 36 <= i < 37 :: MorseCodeMap[i] == Line8[i - 36]
  {
  }

  lemma Line9At()
    ensures forall i | 37 <= i < 41 :: MorseCodeMap[i] == Line9[i - 37]
  {
  }

  lemma Line10At()
    ensures forall i | 41 <= i < 45 :: MorseCodeMap[i] == Line10[i - 41]
  {
  }

  lemma Line11At()
    ensures forall i | 45 <= i < 46 :: MorseCodeMap[i] == Line11[i - 45]
  {
  }

  lemma Line12At()
    ensures forall i | 46 <= i < 50 :: MorseCodeMap[i] == Line12[i - 46]
  {
  }

  lemma Line13At()
    ensures forall i | 50 <= i < 53 :: MorseCodeMap[i] == Line13[i - 50]
  {
  }

  /** Every entry's key and code name the entry's own index, up to the
      repeats. */
  lemma Ranks()
    ensures forall i | 0 <= i < |MorseCodeMap| ::
      KeyRank(MorseCodeMap[i].0) == KeyIndex(i) && CodeRank(MorseCodeMap[i].1) == CodeIndex(i)
  {
    Line1Ranks();
    Line2Ranks();
    Line3Ranks();
    Line4Ranks();
    Line5Ranks();
    Line6Ranks();
    Line7Ranks();
    Line8Ranks();
    Line9Ranks();
    Line10Ranks();
    Line11Ranks();
    Line12Ranks();
    Line13Ranks();
    Line1At();
    Line2At();
    Line3At();
    Line4At();
    Line5At();
    Line6At();
    Line7At();
    Line8At();
    Line9At();
    Line10At();
    Line11At();
    Line12At();
    Line13At();
  }

  /** The codes are pairwise different except for the two entries sharing
      `-..-` and the repeated `'-'` entry. */
  lemma CodesDistinct()
    ensures forall i, j | 0 <= i < j < |MorseCodeMap| ::
      MorseCodeMap[i].1 == MorseCodeMap[j].1 ==> (i == 23 && j == 50) || (i == 42 && j == 49)
  {
    Ranks();
  }

  /** The keys are pairwise different except for the repeated `'-'` entry. */
  lemma KeysDistinct()
    ensures forall i, j | 0 <= i < j < |MorseCodeMap| ::
      MorseCodeMap[i].0 == MorseCodeMap[j].0 ==> i == 42 && j == 49
  {
    Ranks();
  }

  /** The three symbols codes are written with. */
  predicate CodeSymbol(c: char) {
    c == '.' || c == '-' || c == '/'
  }

  /** A code is a non-empty word of dots, dashes and slashes. */
  predicate WellFormedCode(code: string) {
    |code| > 0 && forall c | c in code :: CodeSymbol(c)
  }

  /** Every code the table holds is well formed. */
  lemma RankedWellFormed(x: string)
    requires CodeRank(x) >= 0
    ensures WellFormedCode(x)
  {
  }

  /** Every code of the table is well formed. */
  lemma CodesWellFormed()
    ensures forall i | 0 <= i < |MorseCodeMap| :: WellFormedCode(MorseCodeMap[i].1)
  {
    Ranks();
    forall i | 0 <= i < |MorseCodeMap|
      ensures WellFormedCode(MorseCodeMap[i].1)
    {
      RankedWellFormed(MorseCodeMap[i].1);
    }
  }

  /** A well-formed code holds neither spaces nor other whitespace. */
  lemma WellFormedNoWhitespace(code: string)
    requires WellFormedCode(code)
    ensures NoSpace(code) && !IsWhitespace(code[0]) && !IsWhitespace(code[|code| - 1])
  {
    forall k | 0 <= k < |code|
      ensures CodeSymbol(code[k])
    {
      assert code[k] in code;
    }
  }

  /** Inserting the pairs into an empty `HashMap` in order: every key
      ends up in the map, nothing else does, and a later pair for the
      same key replaces an earlier one (see `InsertAllLastWins`). */
  function InsertAll<K(==), V>(pairs: seq<(K, V)>): (m: map<K, V>)
    ensures forall i | 0 <= i < |pairs| :: pairs[i].0 in m
    ensures forall k | k in m :: exists i | 0 <= i < |pairs| :: pairs[i].0 == k
    decreases |pairs|
  {
    if |pairs| == 0 then map[]
    else
      var last := pairs[|pairs| - 1];
      InsertAll(pairs[..|pairs| - 1])[last.0 := last.1]
  }

  /** A key maps to the value of its pair when no later pair gives the
      same key another value. */
  lemma {:induction false} InsertAllLastWins<K, V>(pairs: seq<(K, V)>, i: nat)
    requires i < |pairs|
    requires forall j | i < j < |pairs| :: pairs[j].0 == pairs[i].0 ==> pairs[j].1 == pairs[i].1
    ensures InsertAll(pairs)[pairs[i].0] == pairs[i].1
    decreases |pairs|
  {
    if i < |pairs| - 1 && pairs[|pairs| - 1].0 != pairs[i].0 {
      InsertAllLastWins(pairs[..|pairs| - 1], i);
    }
  }

  /** The pairs with key and value exchanged, as the reverse map reads them. */
  function Swapped<K, V>(pairs: seq<(K, V)>): (r: seq<(V, K)>)
    ensures |r| == |pairs|
    ensures forall i | 0 <= i < |pairs| :: r[i].0 == pairs[i].1 && r[i].1 == pairs[i].0
  {
    seq(|pairs|, i requires 0 <= i < |pairs| => (pairs[i].1, pairs[i].0))
  }

  /** The characters the table knows. */
  predicate Known(c: char) {
    exists i | 0 <= i < |MorseCodeMap| :: MorseCodeMap[i].0 == c
  }

  /** The character a code decodes back to: `*` comes after `X` in the
      table, so its entry replaces `X`'s in the reverse map. */
  function Canonical(c: char): (d: char)
    ensures c != 'X' ==> d == c
  {
    if c == 'X' then '*' else c
  }

  /** `create_morse_code_map`: exactly the table's characters, each with
      its code. */
  function CreateMorseCodeMap(): (m: map<char, string>)
    ensures forall i | 0 <= i < |MorseCodeMap| :: MorseCodeMap[i].0 in m && m[MorseCodeMap[i].0] == MorseCodeMap[i].1
    ensures forall c :: c in m <==> Known(c)
  {
    ForwardEntries();
    InsertAll(MorseCodeMap)
  }

  lemma ForwardEntries()
    ensures forall i | 0 <= i < |MorseCodeMap| :: InsertAll(MorseCodeMap)[MorseCodeMap[i].0] == MorseCodeMap[i].1
  {
    KeysDistinct();
    forall i | 0 <= i < |MorseCodeMap|
      ensures InsertAll(MorseCodeMap)[MorseCodeMap[i].0] == MorseCodeMap[i].1
    {
      InsertAllLastWins(MorseCodeMap, i);
    }
  }

  /** `create_reverse_morse_code_map`: exactly the table's codes, each
      decoding to its character, except that `-..-` decodes to `*`; so
      no code decodes to `X`. */
  function CreateReverseMorseCodeMap(): (m: map<string, char>)
    ensures forall i | 0 <= i < |MorseCodeMap| :: MorseCodeMap[i].1 in m && m[MorseCodeMap[i].1] == Canonical(MorseCodeMap[i].0)
    ensures forall code | code in m :: exists i | 0 <= i < |MorseCodeMap| :: MorseCodeMap[i].1 == code
    ensures forall code | code in m :: Known(m[code]) && m[code] != 'X'
  {
    ReverseMapEntries();
    ReverseMapValues();
    InsertAll(Swapped(MorseCodeMap))
  }

  lemma ReverseMapEntries()
    ensures forall i | 0 <= i < |MorseCodeMap| ::
      InsertAll(Swapped(MorseCodeMap))[MorseCodeMap[i].1] == Canonical(MorseCodeMap[i].0)
  {
    CodesDistinct();
    KeysDistinct();
    XAndStarShareCode();
    DashRepeated();
    ReverseEntries(MorseCodeMap);
  }

  lemma ReverseMapValues()
    ensures forall code | code in InsertAll(Swapped(MorseCodeMap)) ::
      var c := InsertAll(Swapped(MorseCodeMap))[code]; c != 'X' && Known(c)
  {
    ReverseMapEntries();
    ReverseValues(MorseCodeMap);
  }

  /** The reverse map of a table laid out like `MORSE_CODE_MAP`: the
      only clashing codes are those of `X`/`*` and of the repeated `-`. */
  lemma ReverseEntries(t: seq<(char, string)>)
    requires |t| == 53 && t[23] == ('X', "-..-") && t[50] == ('*', "-..-") && t[42].0 == '-' && t[49].0 == '-'
    requires forall i, j | 0 <= i < j < |t| :: t[i].1 == t[j].1 ==> (i == 23 && j == 50) || (i == 42 && j == 49)
    requires forall i, j | 0 <= i < j < |t| :: t[i].0 == t[j].0 ==> i == 42 && j == 49
    ensures forall i | 0 <= i < |t| :: InsertAll(Swapped(t))[t[i].1] == Canonical(t[i].0)
  {
    var pairs := Swapped(t);
    forall i | 0 <= i < |t|
      ensures InsertAll(pairs)[t[i].1] == Canonical(t[i].0)
    {
      if i == 23 {
        InsertAllLastWins(pairs, 50);
      } else {
        InsertAllLastWins(pairs, i);
      }
    }
  }

  /** No code of such a table decodes to `X`, and every code decodes to
      one of the table's characters. */
  lemma ReverseValues(t: seq<(char, string)>)
    requires |t| == 53 && t[50].0 == '*'
    requires forall i | 0 <= i < |t| :: InsertAll(Swapped(t))[t[i].1] == Canonical(t[i].0)
    ensures forall code | code in InsertAll(Swapped(t)) ::
      var c := InsertAll(Swapped(t))[code]; c != 'X' && exists i | 0 <= i < |t| :: t[i].0 == c
  {
    var pairs := Swapped(t);
    forall code | code in InsertAll(pairs)
      ensures var c := InsertAll(pairs)[code]; c != 'X' && exists i | 0 <= i < |t| :: t[i].0 == c
    {
      var i :| 0 <= i < |pairs| && pairs[i].0 == code;
      assert t[i].1 == code;
      var c := Canonical(t[i].0);
      assert InsertAll(pairs)[code] == c;
      if t[i].0 == 'X' {
        assert t[50].0 == c;
      } else {
        assert t[i].0 == c;
      }
    }
  }

  /** The codes of the characters of `upper` that `codes` knows, in order;
      unknown characters contribute nothing. */
  function CodesOf(codes: map<char, string>, upper: string): (r: seq<string>)
    ensures |r| <= |upper|
    decreases |upper|
  {
    if |upper| == 0 then []
    else (if upper[0] in codes then [codes[upper[0]]] else []) + CodesOf(codes, upper[1..])
  }

  /** The encoding loop: every known character's code followed by one space. */
  function Padded(codes: map<char, string>, upper: string): string
    decreases |upper|
  {
    if |upper| == 0 then ""
    else (if upper[0] in codes then codes[upper[0]] + " " else "") + Padded(codes, upper[1..])
  }

  /** The encoding of an already uppercased text: the codes of its known
      characters, separated by single spaces, with no space at either end. */
  function EncodeUppercased(upper: string): (r: string)
    ensures r == JoinSpace(CodesOf(CreateMorseCodeMap(), upper))
  {
    var codes := CreateMorseCodeMap();
    MorseMapWellFormed();
    PaddedIsJoin(codes, upper);
    var joined := JoinSpace(CodesOf(codes, upper));
    if CodesOf(codes, upper) == [] then
      Trim(Padded(codes, upper))
    else
      JoinedEnds(CodesOf(codes, upper));
      TrimTrailingSpace(joined);
      Trim(Padded(codes, upper))
  }

  /** Every code of the map is well formed. */
  lemma MapCodesWellFormed(c: char)
    requires c in CreateMorseCodeMap()
    ensures WellFormedCode(CreateMorseCodeMap()[c])
  {
    CodesWellFormed();
    var i :| 0 <= i < |MorseCodeMap| && MorseCodeMap[i].0 == c;
  }

  /** Every code a map holds is well formed. */
  predicate MapWellFormed(codes: map<char, string>) {
    forall c | c in codes :: WellFormedCode(codes[c])
  }

  lemma MorseMapWellFormed()
    ensures MapWellFormed(CreateMorseCodeMap())
  {
    forall c | c in CreateMorseCodeMap()
      ensures WellFormedCode(CreateMorseCodeMap()[c])
    {
      MapCodesWellFormed(c);
    }
  }

  lemma {:induction false} PaddedIsJoin(codes: map<char, string>, upper: string)
    requires MapWellFormed(codes)
    ensures CodesOf(codes, upper) == [] ==> Padded(codes, upper) == ""
    ensures CodesOf(codes, upper) != [] ==> Padded(codes, upper) == JoinSpace(CodesOf(codes, upper)) + " "
    ensures forall k | 0 <= k < |CodesOf(codes, upper)| :: WellFormedCode(CodesOf(codes, upper)[k])
    decreases |upper|
  {
    if |upper| > 0 {
      PaddedIsJoin(codes, upper[1..]);
      var rest := CodesOf(codes, upper[1..]);
      if upper[0] in codes {
        var all := [codes[upper[0]]] + rest;
        assert CodesOf(codes, upper) == all;
        if rest != [] {
          assert all[1..] == rest;
        }
      } else {
        assert CodesOf(codes, upper) == rest;
      }
    }
  }

  /** Joining well-formed codes gives a string with no whitespace at
      either end. */
  lemma {:induction false} JoinedEnds(tokens: seq<string>)
    requires |tokens| > 0
    requires forall k | 0 <= k < |tokens| :: WellFormedCode(tokens[k])
    ensures var s := JoinSpace(tokens); |s| > 0 && !IsWhitespace(s[0]) && !IsWhitespace(s[|s| - 1])
    decreases |tokens|
  {
    WellFormedNoWhitespace(tokens[0]);
    if |tokens| > 1 {
      JoinedEnds(tokens[1..]);
    }
  }

  /** `morse_code_cipher` on ASCII text, where `to_uppercase` is
      `to_ascii_uppercase`. */
  function MorseCodeCipher(text: string): (r: string)
    requires IsAscii(text)
    ensures r == JoinSpace(CodesOf(CreateMorseCodeMap(), ToAsciiUppercase(text)))
  {
    EncodeUppercased(ToAsciiUppercase(text))
  }

  /** The characters of the tokens the reverse map knows, in order;
      unknown tokens, the empty one included, contribute nothing. */
  function DecodeTokens(chars: map<string, char>, tokens: seq<string>): (r: string)
    ensures |r| <= |tokens|
    decreases |tokens|
  {
    if |tokens| == 0 then ""
    else (if tokens[0] in chars then [chars[tokens[0]]] else "") + DecodeTokens(chars, tokens[1..])
  }

  /** One token decodes to its character, or to nothing when the map
      does not know it. */
  lemma DecodeOne(chars: map<string, char>, t: string)
    ensures DecodeTokens(chars, [t]) == if t in chars then [chars[t]] else ""
  {
    assert [t][1..] == [];
  }

  /** Decoding works piece by piece: two token lists one after the other
      decode to the two decodings joined. */
  lemma {:induction false} DecodeTokensAppend(chars: map<string, char>, a: seq<string>, b: seq<string>)
    ensures DecodeTokens(chars, a + b) == DecodeTokens(chars, a) + DecodeTokens(chars, b)
    decreases |a|
  {
    if |a| == 0 {
      assert a + b == b;
    } else {
      assert (a + b)[0] == a[0];
      assert (a + b)[1..] == a[1..] + b;
      DecodeTokensAppend(chars, a[1..], b);
    }
  }

  /** A token the map does not know is dropped wherever it stands, and the
      tokens around it decode as if it were not there. */
  lemma UnknownDropped(chars: map<string, char>, a: seq<string>, t: string, b: seq<string>)
    requires t !in chars
    ensures DecodeTokens(chars, a + [t] + b) == DecodeTokens(chars, a + b)
  {
    DecodeTokensAppend(chars, a + [t], b);
    DecodeTokensAppend(chars, a, [t]);
    DecodeOne(chars, t);
    DecodeTokensAppend(chars, a, b);
  }

  /** Text decoding can produce: characters of the table, never `X`. */
  predicate DecodedText(s: string) {
    forall k | 0 <= k < |s| :: Known(s[k]) && s[k] != 'X'
  }

  /** `morse_code_decipher`: split at every single space and decode each
      piece the reverse map knows; the output has at most one character
      per piece, each a character of the table other than `X`. */
  function MorseCodeDecipher(code: string): (r: string)
    ensures |r| <= |SplitSpace(code)|
    ensures DecodedText(r)
  {
    DecipheredKnown(SplitSpace(code));
    DecodeTokens(CreateReverseMorseCodeMap(), SplitSpace(code))
  }

  predicate AllIn(s: string, values: set<char>) {
    forall k | 0 <= k < |s| :: s[k] in values
  }

  /** Decoding only ever emits values of the map. */
  lemma {:induction false} DecodedValues(chars: map<string, char>, tokens: seq<string>)
    ensures AllIn(DecodeTokens(chars, tokens), chars.Values)
    decreases |tokens|
  {
    if |tokens| > 0 {
      DecodedValues(chars, tokens[1..]);
      var rest := DecodeTokens(chars, tokens[1..]);
      if tokens[0] in chars {
        var r := [chars[tokens[0]]] + rest;
        assert DecodeTokens(chars, tokens) == r;
        assert r[0] in chars.Values;
        assert forall k | 0 < k < |r| :: r[k] == rest[k - 1];
      } else {
        assert DecodeTokens(chars, tokens) == rest;
      }
    }
  }

  lemma DecipheredKnown(tokens: seq<string>)
    ensures DecodedText(DecodeTokens(CreateReverseMorseCodeMap(), tokens))
  {
    var chars := CreateReverseMorseCodeMap();
    DecodedValues(chars, tokens);
    var r := DecodeTokens(chars, tokens);
    forall k | 0 <= k < |r|
      ensures Known(r[k]) && r[k] != 'X'
    {
      var code :| code in chars && chars[code] == r[k];
    }
  }

  /** What decoding gives back for an uppercased text: its known
      characters in order, with `X` read as `*`. */
  function Recovered(upper: string): (r: string)
    ensures |r| <= |upper|
    decreases |upper|
  {
    if |upper| == 0 then ""
    else (if Known(upper[0]) then [Canonical(upper[0])] else "") + Recovered(upper[1..])
  }

  /** Each known character's code decodes to the character, up to `X`/`*`. */
  lemma CodeDecodes(c: char)
    requires Known(c)
    ensures c in CreateMorseCodeMap()
    ensures CreateMorseCodeMap()[c] in CreateReverseMorseCodeMap()
    ensures CreateReverseMorseCodeMap()[CreateMorseCodeMap()[c]] == Canonical(c)
  {
    var i :| 0 <= i < |MorseCodeMap| && MorseCodeMap[i].0 == c;
  }

  lemma {:induction false} DecodeCodes(upper: string)
    ensures DecodeTokens(CreateReverseMorseCodeMap(), CodesOf(CreateMorseCodeMap(), upper)) == Recovered(upper)
    decreases |upper|
  {
    if |upper| > 0 {
      var codes, chars := CreateMorseCodeMap(), CreateReverseMorseCodeMap();
      DecodeCodes(upper[1..]);
      var rest := CodesOf(codes, upper[1..]);
      if upper[0] in codes {
        CodeDecodes(upper[0]);
        var all := [codes[upper[0]]] + rest;
        assert CodesOf(codes, upper) == all;
        assert all[1..] == rest;
      } else {
        assert !Known(upper[0]);
        assert CodesOf(codes, upper) == rest;
      }
    }
  }

  /** The empty piece is not a code. */
  lemma EmptyNotACode()
    ensures "" !in CreateReverseMorseCodeMap()
  {
    CodesWellFormed();
  }

  /** Deciphering an encipherment gives back the known characters of the
      uppercased text, in order, with `X` read as `*`. */
  lemma MorseRoundTrip(text: string)
    requires IsAscii(text)
    ensures MorseCodeDecipher(MorseCodeCipher(text)) == Recovered(ToAsciiUppercase(text))
  {
    var upper := ToAsciiUppercase(text);
    var codes := CodesOf(CreateMorseCodeMap(), upper);
    DecodeCodes(upper);
    if codes == [] {
      EmptyNotACode();
    } else {
      MorseMapWellFormed();
      PaddedIsJoin(CreateMorseCodeMap(), upper);
      forall k | 0 <= k < |codes|
        ensures NoSpace(codes[k])
      {
        WellFormedNoWhitespace(codes[k]);
      }
      SplitJoin(codes);
    }
  }

  /** Without `X`, `x` and unknown characters, the round trip gives the
      uppercased text back exactly. */
  lemma {:induction false} RecoveredIsIdentity(upper: string)
    requires forall k | 0 <= k < |upper| :: Known(upper[k]) && upper[k] != 'X'
    ensures Recovered(upper) == upper
    decreases |upper|
  {
    if |upper| > 0 {
      RecoveredIsIdentity(upper[1..]);
      assert [upper[0]] + upper[1..] == upper;
    }
  }

  lemma HelloEntries()
    ensures MorseCodeMap[7] == ('H', "....") && MorseCodeMap[4] == ('E', ".")
    ensures MorseCodeMap[11] == ('L', ".-..") && MorseCodeMap[14] == ('O', "---")
  {
    Line1At();
    Line2At();
    Line3At();
  }

  lemma HelloCodes(codes: map<char, string>, text: string)
    requires text == "HELLO"
    requires 'H' in codes && codes['H'] == "...."
    requires 'E' in codes && codes['E'] == "."
    requires 'L' in codes && codes['L'] == ".-.."
    requires 'O' in codes && codes['O'] == "---"
    ensures CodesOf(codes, text) == ["....", ".", ".-..", ".-..", "---"]
  {
    assert CodesOf(codes, text[5..]) == [];
    assert text[4..][1..] == text[5..];
    assert CodesOf(codes, text[4..]) == ["---"];
    assert text[3..][1..] == text[4..];
    assert CodesOf(codes, text[3..]) == [".-..", "---"];
    assert text[2..][1..] == text[3..];
    assert CodesOf(codes, text[2..]) == [".-..", ".-..", "---"];
    assert text[1..][1..] == text[2..];
    assert CodesOf(codes, text[1..]) == [".", ".-..", ".-..", "---"];
  }

  /** Joining five tokens. */
  lemma JoinFive(t: seq<string>)
    requires |t| == 5
    ensures JoinSpace(t) == t[0] + " " + (t[1] + " " + (t[2] + " " + (t[3] + " " + t[4])))
  {
    assert JoinSpace(t[4..]) == t[4];
    assert t[3..][1..] == t[4..];
    assert JoinSpace(t[3..]) == t[3] + " " + JoinSpace(t[4..]);
    assert t[2..][1..] == t[3..];
    assert JoinSpace(t[2..]) == t[2] + " " + JoinSpace(t[3..]);
    assert t[1..][1..] == t[2..];
    assert JoinSpace(t[1..]) == t[1] + " " + JoinSpace(t[2..]);
  }

  lemma HelloUpper(text: string)
    requires text == "HELLO"
    ensures ToAsciiUppercase(text) == text
  {
  }

  lemma HelloLookups()
    ensures 'H' in CreateMorseCodeMap() && CreateMorseCodeMap()['H'] == "...."
    ensures 'E' in CreateMorseCodeMap() && CreateMorseCodeMap()['E'] == "."
    ensures 'L' in CreateMorseCodeMap() && CreateMorseCodeMap()['L'] == ".-.."
    ensures 'O' in CreateMorseCodeMap() && CreateMorseCodeMap()['O'] == "---"
  {
    HelloEntries();
  }

  lemma HelloCodesJoined(text: string)
    requires text == "HELLO"
    ensures MorseCodeCipher(text) == JoinSpace(["....", ".", ".-..", ".-..", "---"])
  {
    HelloUpper(text);
    HelloLookups();
    HelloCodes(CreateMorseCodeMap(), text);
  }

  lemma HelloJoined(codes: seq<string>)
    requires codes == ["....", ".", ".-..", ".-..", "---"]
    ensures JoinSpace(codes) == ".... . .-.. .-.. ---"
  {
    JoinFive(codes);
  }

  lemma HelloEncoded(text: string)
    requires text == "HELLO"
    ensures MorseCodeCipher(text) == ".... . .-.. .-.. ---"
  {
    HelloCodesJoined(text);
    HelloJoined(["....", ".", ".-..", ".-..", "---"]);
  }

  lemma HelloRecovered(text: string)
    requires text == "HELLO"
    ensures Recovered(ToAsciiUppercase(text)) == text
  {
    HelloUpper(text);
    HelloEntries();
    assert forall k | 0 <= k < |text| :: text[k] in {'H', 'E', 'L', 'O'};
    assert Known('H') && Known('E') && Known('L') && Known('O');
    RecoveredIsIdentity(text);
  }

  /** The doc-test vector of `morse_code_cipher`, and its decoding. */
  lemma HelloExample()
    ensures MorseCodeCipher("HELLO") == ".... . .-.. .-.. ---"
    ensures MorseCodeDecipher(".... . .-.. .-.. ---") == "HELLO"
  {
    HelloVector("HELLO", ".... . .-.. .-.. ---");
  }

  lemma HelloVector(text: string, code: string)
    requires text == "HELLO" && code == ".... . .-.. .-.. ---"
    ensures MorseCodeCipher(text) == code
    ensures MorseCodeDecipher(code) == text
  {
    HelloEncoded(text);
    HelloDecoded(text);
  }

  lemma HelloDecoded(text: string)
    requires text == "HELLO"
    ensures MorseCodeDecipher(MorseCodeCipher(text)) == text
  {
    HelloRecovered(text);
    assert IsAscii(text);
    FixedByRoundTrip(text);
  }

  /** ASCII text that the round trip recovers unchanged deciphers to itself. */
  lemma FixedByRoundTrip(text: string)
    requires IsAscii(text) && Recovered(ToAsciiUppercase(text)) == text
    ensures MorseCodeDecipher(MorseCodeCipher(text)) == text
  {
    MorseRoundTrip(text);
  }

  /** `-..-` decodes as `*`, never as `X`. */
  lemma XDecodesAsStar()
    ensures MorseCodeDecipher("-..-") == "*"
  {
    SplitNoSpace("-..-");
    XAndStarShareCode();
  }

  /** The entries of `A`, `B` and the space. */
  lemma SampleEntries()
    ensures MorseCodeMap[0] == ('A', ".-") && MorseCodeMap[1] == ('B', "-...")
    ensures MorseCodeMap[36] == (' ', "/")
  {
    Line1At();
    Line8At();
  }

  lemma SampleLookups()
    ensures ".-" in CreateReverseMorseCodeMap() && CreateReverseMorseCodeMap()[".-"] == 'A'
    ensures "-..." in CreateReverseMorseCodeMap() && CreateReverseMorseCodeMap()["-..."] == 'B'
    ensures "/" in CreateReverseMorseCodeMap() && CreateReverseMorseCodeMap()["/"] == ' '
    ensures "" !in CreateReverseMorseCodeMap()
  {
    SampleEntries();
    EmptyNotACode();
  }

  /** Splitting `.-  / -...` at every space gives four pieces, one of
      them empty. */
  lemma SamplePieces(code: string)
    requires code == ".-  / -..."
    ensures SplitSpace(code) == [".-", "", "/", "-..."]
  {
    var tokens := [".-", "", "/", "-..."];
    assert JoinSpace(tokens) == code;
    SplitJoin(tokens);
  }

  /** Four tokens decode one by one. */
  lemma DecodeFour(chars: map<string, char>, t0: string, t1: string, t2: string, t3: string)
    ensures DecodeTokens(chars, [t0, t1, t2, t3]) ==
      DecodeTokens(chars, [t0]) + DecodeTokens(chars, [t1]) + DecodeTokens(chars, [t2]) + DecodeTokens(chars, [t3])
  {
    var ts := [t0, t1, t2, t3];
    assert ts == [t0] + ([t1] + ([t2] + [t3]));
    DecodeTokensAppend(chars, [t2], [t3]);
    DecodeTokensAppend(chars, [t1], [t2] + [t3]);
    DecodeTokensAppend(chars, [t0], [t1] + ([t2] + [t3]));
  }

  /** Four pieces, the second unknown, decode to the other three
      characters in order. */
  lemma DecodeSkippingSecond(chars: map<string, char>, t0: string, t1: string, t2: string, t3: string)
    requires t0 in chars && t1 !in chars && t2 in chars && t3 in chars
    ensures DecodeTokens(chars, [t0, t1, t2, t3]) == [chars[t0], chars[t2], chars[t3]]
  {
    DecodeFour(chars, t0, t1, t2, t3);
    DecodeOne(chars, t0);
    DecodeOne(chars, t1);
    DecodeOne(chars, t2);
    DecodeOne(chars, t3);
  }

  /** The four pieces decode to `A`, nothing, a space and `B`. */
  lemma SampleDecodes()
    ensures DecodeTokens(CreateReverseMorseCodeMap(), [".-", "", "/", "-..."]) == "A B"
  {
    SampleLookups();
    DecodeSkippingSecond(CreateReverseMorseCodeMap(), ".-", "", "/", "-...");
  }

  /** Two spaces in a row leave an empty piece, which is dropped, and `/`
      decodes to a space. */
  lemma EmptyPieceDropped()
    ensures MorseCodeDecipher(".-  / -...") == "A B"
  {
    EmptyPieceVector(".-  / -...");
  }

  lemma EmptyPieceVector(code: string)
    requires code == ".-  / -..."
    ensures MorseCodeDecipher(code) == "A B"
  {
    SamplePieces(code);
    SampleDecodes();
  }
}
