/**
 The letter/number converter ("gematria"), `alpha2num` and `num2alpha`
 in cipha-lib/src/lib.rs.

 `alpha2num` writes every character as a token followed by one space
 (a letter as its 1-based position in its case's alphabet, anything
 else as itself) and trims the result. `num2alpha` scans for runs of
 ASCII digits, reads each run when whitespace or the end of the text
 follows it, and emits the letter that number names.
 */
module AlphaNum {
  import opened Chars
  import opened Strings

  /** What `alpha2num` writes for one character, before its space. */
  function Alpha2NumToken(c: char): (t: string)
    ensures |t| >= 1
    ensures IsLetter(c) ==> AllDigits(t) && ParseDecimal(t) == Offset(c) + 1
    ensures IsLetter(c) ==> t[0] != '0' && |t| <= 2
    ensures !IsLetter(c) ==> t == [c]
  {
    if IsLetter(c) then
      var t := Decimal(Offset(c) + 1);
      DecimalCanonical(Offset(c) + 1);
      Pow10Hundred(|t| - 1);
      t
    else [c]
  }

  /** The tokens of a text, one per character. */
  function Tokens(text: string): (ts: seq<string>)
    ensures |ts| == |text|
    ensures forall i | 0 <= i < |text| :: ts[i] == Alpha2NumToken(text[i])
  {
    seq(|text|, i requires 0 <= i < |text| => Alpha2NumToken(text[i]))
  }

  /** The loop of `alpha2num`: every token followed by one space. */
  function Alpha2NumRaw(text: string): string
    decreases |text|
  {
    if |text| == 0 then "" else Alpha2NumToken(text[0]) + " " + Alpha2NumRaw(text[1..])
  }

  predicate NoWhitespace(s: string) {
    forall i | 0 <= i < |s| :: !IsWhitespace(s[i])
  }

  /** `alpha2num`: the tokens separated by single spaces, with whitespace
      at either end trimmed; a text without whitespace gives exactly its
      tokens joined by single spaces. */
  function Alpha2Num(text: string): (r: string)
    ensures r == Trim(JoinSpace(Tokens(text)))
    ensures NoWhitespace(text) ==> r == JoinSpace(Tokens(text))
  {
    RawShape(text);
    Trim(Alpha2NumRaw(text))
  }

  lemma RawShape(text: string)
    ensures Trim(Alpha2NumRaw(text)) == Trim(JoinSpace(Tokens(text)))
    ensures NoWhitespace(text) ==> Trim(JoinSpace(Tokens(text))) == JoinSpace(Tokens(text))
  {
    RawIsJoin(text);
    if |text| > 0 {
      TrimTrailingSpaceAny(JoinSpace(Tokens(text)));
    }
    if NoWhitespace(text) {
      JoinedTokenEnds(text);
    }
  }

  /** The loop output is the joined tokens plus one final space. */
  lemma {:induction false} RawIsJoin(text: string)
    ensures |text| == 0 ==> Alpha2NumRaw(text) == ""
    ensures |text| > 0 ==> Alpha2NumRaw(text) == JoinSpace(Tokens(text)) + " "
    decreases |text|
  {
    if |text| > 1 {
      RawIsJoin(text[1..]);
      assert Tokens(text)[1..] == Tokens(text[1..]);
    }
  }

  /** One trailing space never changes the trim. */
  lemma TrimTrailingSpaceAny(s: string)
    ensures Trim(s + " ") == Trim(s)
  {
    assert IsWhitespace(' ');
    assert (s + " ")[..|s|] == s;
  }

  /** Tokens of non-whitespace characters leave no whitespace at the ends
      of their join. */
  lemma JoinedTokenEnds(text: string)
    requires NoWhitespace(text)
    ensures Trim(JoinSpace(Tokens(text))) == JoinSpace(Tokens(text))
  {
    if |text| > 0 {
      JoinedEnds(Tokens(text));
    }
    TrimUnchanged(JoinSpace(Tokens(text)));
  }

  predicate TokenEnds(t: string) {
    |t| > 0 && !IsWhitespace(t[0]) && !IsWhitespace(t[|t| - 1])
  }

  lemma {:induction false} JoinedEnds(ts: seq<string>)
    requires |ts| > 0
    requires forall k | 0 <= k < |ts| :: TokenEnds(ts[k])
    ensures TokenEnds(JoinSpace(ts))
    decreases |ts|
  {
    if |ts| > 1 {
      JoinedEnds(ts[1..]);
    }
  }

  /** The token of a non-whitespace character has no whitespace at its ends. */
  lemma TokenHasEnds(c: char)
    requires !IsWhitespace(c)
    ensures TokenEnds(Alpha2NumToken(c))
  {
    var t := Alpha2NumToken(c);
    if IsLetter(c) {
      assert IsDigit(t[0]) && IsDigit(t[|t| - 1]);
    }
  }

  /** The state of the `num2alpha` loop: the letters so far and the
      pending digits. */
  datatype Scan = Scan(decrypted: string, buffer: string)

  /** `u32::MAX`; `parse::<u32>().unwrap()` panics above it. */
  const U32Max: int := 0xFFFF_FFFF

  /** The character a number names: 1..26 the lowercase letters, 27..52
      the uppercase ones, and 0 the character just before `a`, which the
      `u32` arithmetic `'a' + 0 - 1` produces. Above 52: nothing. */
  function CharCode(n: nat): (r: Option<char>)
    ensures n == 0 ==> r == Some('`')
    ensures 1 <= n <= 26 ==> r.Some? && IsLower(r.value) && Offset(r.value) == n - 1
    ensures 27 <= n <= 52 ==> r.Some? && IsUpper(r.value) && Offset(r.value) == n - 27
    ensures n > 52 <==> r == None
  {
    if n <= 26 then Some(('a' as int + n - 1) as char)
    else if n <= 52 then Some(('A' as int + n - 27) as char)
    else None
  }

  /** One character of the scan; `None` is the panic of `parse().unwrap()`.
      A digit joins the buffer; whitespace after digits reads the buffer.
      A number naming no character is skipped: `clear` says whether the
      buffer is then emptied (the evident intent) or kept (the source,
      whose `continue` jumps over `number_buffer.clear()`). Every other
      character changes nothing. */
  function Step(st: Scan, c: char, clear: bool): (r: Option<Scan>)
    requires AllDigits(st.buffer)
    ensures r.Some? ==> AllDigits(r.value.buffer)
    ensures IsDigit(c) ==> r == Some(Scan(st.decrypted, st.buffer + [c]))
    ensures !IsDigit(c) && (!IsWhitespace(c) || |st.buffer| == 0) ==> r == Some(st)
  {
    if IsDigit(c) then Some(Scan(st.decrypted, st.buffer + [c]))
    else if IsWhitespace(c) && |st.buffer| > 0 then
      var n := ParseDecimal(st.buffer);
      if n > U32Max then None
      else match CharCode(n)
        case Some(d) => Some(Scan(st.decrypted + [d], ""))
        case None => if clear then Some(Scan(st.decrypted, "")) else Some(st)
    else Some(st)
  }

  /** The scan over a whole text, stopping at the first panic. */
  function Run(st: Scan, s: string, clear: bool): (r: Option<Scan>)
    requires AllDigits(st.buffer)
    ensures r.Some? ==> AllDigits(r.value.buffer)
    decreases |s|
  {
    if |s| == 0 then Some(st)
    else match Step(st, s[0], clear)
      case None => None
      case Some(next) => Run(next, s[1..], clear)
  }

  /** After the loop: a pending number is read once more; a number naming
      no character ends the function with the letters so far. */
  function Finish(st: Scan): (r: Option<string>)
    requires AllDigits(st.buffer)
    ensures |st.buffer| == 0 ==> r == Some(st.decrypted)
    ensures r.Some? ==> |st.decrypted| <= |r.value| <= |st.decrypted| + 1
  {
    if |st.buffer| == 0 then Some(st.decrypted)
    else
      var n := ParseDecimal(st.buffer);
      if n > U32Max then None
      else match CharCode(n)
        case Some(d) => Some(st.decrypted + [d])
        case None => Some(st.decrypted)
  }

  /** A finished scan, unless it panicked. */
  function Complete(r: Option<Scan>): Option<string>
    requires r.Some? ==> AllDigits(r.value.buffer)
  {
    match r
    case None => None
    case Some(st) => Finish(st)
  }

  const Start: Scan := Scan("", "")

  /** `num2alpha` as written (`None` where it panics): a number naming no
      character leaves its digits in the buffer. */
  function Num2AlphaAsWritten(cipherText: string): (r: Option<string>)
    ensures IsOutput(r)
  {
    ScanOutput(Start, cipherText, false);
    Complete(Run(Start, cipherText, false))
  }

  /** `num2alpha` with the buffer emptied after a skipped number, as its
      comment ("Ignore invalid numbers") intends. */
  function Num2Alpha(cipherText: string): (r: Option<string>)
    ensures IsOutput(r)
  {
    ScanOutput(Start, cipherText, true);
    Complete(Run(Start, cipherText, true))
  }

  /** What `num2alpha` can emit: letters and the character `` ` ``. */
  predicate OutputChar(c: char) {
    IsLetter(c) || c == '`'
  }

  predicate IsOutput(r: Option<string>) {
    r.Some? ==> forall k | 0 <= k < |r.value| :: OutputChar(r.value[k])
  }

  lemma CharCodeOutput(n: nat)
    requires CharCode(n).Some?
    ensures OutputChar(CharCode(n).value)
  {
  }

  lemma {:induction false} ScanOutput(st: Scan, s: string, clear: bool)
    requires AllDigits(st.buffer)
    requires forall k | 0 <= k < |st.decrypted| :: OutputChar(st.decrypted[k])
    ensures IsOutput(Complete(Run(st, s, clear)))
    decreases |s|
  {
    if |s| == 0 {
      if |st.buffer| > 0 && ParseDecimal(st.buffer) <= U32Max && CharCode(ParseDecimal(st.buffer)).Some? {
        CharCodeOutput(ParseDecimal(st.buffer));
      }
    } else {
      var next := Step(st, s[0], clear);
      if next.Some? {
        if IsWhitespace(s[0]) && !IsDigit(s[0]) && |st.buffer| > 0 && CharCode(ParseDecimal(st.buffer)).Some? {
          CharCodeOutput(ParseDecimal(st.buffer));
        }
        ScanOutput(next.value, s[1..], clear);
      }
    }
  }

  /** Carrying on from a scan that has not panicked. */
  function Continue(r: Option<Scan>, b: string, clear: bool): Option<Scan>
    requires r.Some? ==> AllDigits(r.value.buffer)
  {
    match r
    case None => None
    case Some(mid) => Run(mid, b, clear)
  }

  /** Scanning `a + b` is scanning `a`, then `b` from where it stopped. */
  lemma {:induction false} RunAppend(st: Scan, a: string, b: string, clear: bool)
    requires AllDigits(st.buffer)
    ensures Run(st, a + b, clear) == Continue(Run(st, a, clear), b, clear)
    decreases |a|
  {
    if |a| == 0 {
      assert a + b == b;
    } else {
      var ab := a + b;
      assert ab[0] == a[0] && ab[1..] == a[1..] + b;
      var next := Step(st, a[0], clear);
      if next.Some? {
        assert Run(st, ab, clear) == Run(next.value, a[1..] + b, clear);
        assert Run(st, a, clear) == Run(next.value, a[1..], clear);
        RunAppend(next.value, a[1..], b, clear);
      } else {
        assert Run(st, ab, clear) == None;
      }
    }
  }

  /** Digits only ever join the buffer. */
  lemma {:induction false} RunDigits(st: Scan, ds: string, clear: bool)
    requires AllDigits(st.buffer) && AllDigits(ds)
    ensures Run(st, ds, clear) == Some(Scan(st.decrypted, st.buffer + ds))
    decreases |ds|
  {
    if |ds| == 0 {
      assert st.buffer + ds == st.buffer;
    } else {
      assert IsDigit(ds[0]);
      var next := Scan(st.decrypted, st.buffer + [ds[0]]);
      assert Step(st, ds[0], clear) == Some(next);
      assert AllDigits(ds[1..]) by {
        forall i | 0 <= i < |ds| - 1
          ensures IsDigit(ds[1..][i])
        {
          assert ds[1..][i] == ds[i + 1];
        }
      }
      RunDigits(next, ds[1..], clear);
      assert st.buffer + [ds[0]] + ds[1..] == st.buffer + ds;
    }
  }

  lemma WhitespaceTail(ws: string)
    requires |ws| > 0 && AllWhitespace(ws)
    ensures IsWhitespace(ws[0]) && !IsDigit(ws[0]) && AllWhitespace(ws[1..])
  {
    assert forall i | 0 <= i < |ws| - 1 :: ws[1..][i] == ws[i + 1];
  }

  /** Whitespace at the end of the text changes nothing: each blank
      either reads the pending number, as the end of the text would, or
      finds the buffer empty. */
  lemma {:induction false} TrailingWhitespace(st: Scan, ws: string, clear: bool)
    requires AllDigits(st.buffer) && AllWhitespace(ws)
    ensures Complete(Run(st, ws, clear)) == Finish(st)
    decreases |ws|
  {
    if |ws| > 0 {
      WhitespaceTail(ws);
      var next := Step(st, ws[0], clear);
      if next.Some? {
        assert Run(st, ws, clear) == Run(next.value, ws[1..], clear);
        TrailingWhitespace(next.value, ws[1..], clear);
        assert Finish(next.value) == Finish(st);
      }
    }
  }

  /** Whitespace before any digit changes nothing. */
  lemma {:induction false} LeadingWhitespace(d: string, ws: string, s: string, clear: bool)
    requires AllWhitespace(ws)
    ensures Run(Scan(d, ""), ws + s, clear) == Run(Scan(d, ""), s, clear)
    decreases |ws|
  {
    if |ws| == 0 {
      assert ws + s == s;
    } else {
      WhitespaceTail(ws);
      var wss := ws + s;
      assert wss[0] == ws[0] && wss[1..] == ws[1..] + s;
      assert Step(Scan(d, ""), ws[0], clear) == Some(Scan(d, ""));
      LeadingWhitespace(d, ws[1..], s, clear);
    }
  }

  /** Trailing whitespace after any scan changes nothing. */
  lemma ContinueWhitespace(mid: Option<Scan>, tail: string, clear: bool)
    requires mid.Some? ==> AllDigits(mid.value.buffer)
    requires AllWhitespace(tail)
    ensures Complete(Continue(mid, tail, clear)) == Complete(mid)
  {
    if mid.Some? {
      TrailingWhitespace(mid.value, tail, clear);
    }
  }

  /** `num2alpha` ignores whitespace at either end of its input. */
  lemma TrimIgnored(s: string, clear: bool)
    ensures Complete(Run(Start, Trim(s), clear)) == Complete(Run(Start, s, clear))
  {
    var lead, tail := TrimParts(s);
    Surrounded(lead, Trim(s), tail, clear);
  }

  lemma Surrounded(lead: string, body: string, tail: string, clear: bool)
    requires AllWhitespace(lead) && AllWhitespace(tail)
    ensures Complete(Run(Start, lead + (body + tail), clear)) == Complete(Run(Start, body, clear))
  {
    var mid := Run(Start, body, clear);
    calc {
      Complete(Run(Start, lead + (body + tail), clear));
      { LeadingWhitespace("", lead, body + tail, clear); }
      Complete(Run(Start, body + tail, clear));
      { RunAppend(Start, body, tail, clear); }
      Complete(Continue(mid, tail, clear));
      { ContinueWhitespace(mid, tail, clear); }
      Complete(mid);
    }
  }

  /** The letters of a text, lowercased, in order. */
  function LowerLetters(text: string): (r: string)
    ensures forall k | 0 <= k < |r| :: IsLower(r[k])
    decreases |text|
  {
    if |text| == 0 then ""
    else (if IsLetter(text[0]) then [ToAsciiLower(text[0])] else "") + LowerLetters(text[1..])
  }

  predicate NoDigits(text: string) {
    forall i | 0 <= i < |text| :: !IsDigit(text[i])
  }

  /** A letter's token and its space decode to the lowercase letter; any
      other character's token (not a digit) decodes to nothing. */
  lemma TokenDecodes(d: string, c: char, clear: bool)
    requires !IsDigit(c)
    ensures Run(Scan(d, ""), Alpha2NumToken(c) + " ", clear) ==
      Some(Scan(d + (if IsLetter(c) then [ToAsciiLower(c)] else ""), ""))
  {
    var t := Alpha2NumToken(c);
    RunAppend(Scan(d, ""), t, " ", clear);
    if IsLetter(c) {
      RunDigits(Scan(d, ""), t, clear);
      assert "" + t == t;
      var n := Offset(c) + 1;
      LetterDetermined(CharCode(n).value, ToAsciiLower(c));
      assert IsWhitespace(' ');
    } else {
      var st := Scan(d, "");
      assert Step(st, c, clear) == Some(st);
      assert [c][1..] == "";
      assert Run(st, [c], clear) == Some(st);
      Blank(st, clear);
      assert d + "" == d;
    }
  }

  /** A blank with nothing pending changes nothing. */
  lemma Blank(st: Scan, clear: bool)
    requires st.buffer == ""
    ensures Run(st, " ", clear) == Some(st)
  {
    assert Step(st, ' ', clear) == Some(st);
    assert " "[1..] == "";
  }

  /** The loop output of `alpha2num` decodes to the text's letters,
      lowercased, when the text holds no ASCII digit. */
  lemma {:induction false} RawDecodes(d: string, text: string, clear: bool)
    requires NoDigits(text)
    ensures Run(Scan(d, ""), Alpha2NumRaw(text), clear) == Some(Scan(d + LowerLetters(text), ""))
    decreases |text|
  {
    if |text| > 0 {
      var c := text[0];
      var head := if IsLetter(c) then [ToAsciiLower(c)] else "";
      var token := Alpha2NumToken(c) + " ";
      var rest := Alpha2NumRaw(text[1..]);
      assert Alpha2NumRaw(text) == token + rest;
      assert LowerLetters(text) == head + LowerLetters(text[1..]);
      calc {
        Run(Scan(d, ""), token + rest, clear);
        { RunAppend(Scan(d, ""), token, rest, clear); }
        Continue(Run(Scan(d, ""), token, clear), rest, clear);
        { TokenDecodes(d, c, clear); }
        Run(Scan(d + head, ""), rest, clear);
        { RawDecodes(d + head, text[1..], clear); }
        Some(Scan(d + head + LowerLetters(text[1..]), ""));
        { assert d + head + LowerLetters(text[1..]) == d + LowerLetters(text); }
        Some(Scan(d + LowerLetters(text), ""));
      }
    } else {
      assert d + "" == d;
    }
  }

  /** `num2alpha(alpha2num(m))` is the letters of `m`, lowercased, for
      every text without ASCII digits, in the source and in the corrected
      scan alike. A digit in `m` is read back as a number
      (`DigitBreaksRoundTrip`). */
  lemma Num2AlphaRoundTrip(text: string)
    requires NoDigits(text)
    ensures Num2Alpha(Alpha2Num(text)) == Some(LowerLetters(text))
    ensures Num2AlphaAsWritten(Alpha2Num(text)) == Some(LowerLetters(text))
  {
    DecodesBack(text, true);
    DecodesBack(text, false);
  }

  lemma DecodesBack(text: string, clear: bool)
    requires NoDigits(text)
    ensures Complete(Run(Start, Alpha2Num(text), clear)) == Some(LowerLetters(text))
  {
    var raw := Alpha2NumRaw(text);
    assert Alpha2Num(text) == Trim(raw);
    calc {
      Complete(Run(Start, Trim(raw), clear));
      { TrimIgnored(raw, clear); }
      Complete(Run(Start, raw, clear));
      { RawDecodes("", text, clear); assert "" + LowerLetters(text) == LowerLetters(text); }
      Complete(Some(Scan(LowerLetters(text), "")));
    }
  }

  /** A character that is neither a digit nor whitespace is skipped
      without ending the number around it: `1,2` reads as twelve. */
  lemma IgnoredCharacter(a: string, c: char, b: string, clear: bool)
    requires !IsDigit(c) && !IsWhitespace(c)
    ensures Complete(Run(Start, a + [c] + b, clear)) == Complete(Run(Start, a + b, clear))
  {
    RunAppend(Start, a, [c] + b, clear);
    RunAppend(Start, a, b, clear);
    assert a + [c] + b == a + ([c] + b);
    var mid := Run(Start, a, clear);
    if mid.Some? {
      assert ([c] + b)[0] == c && ([c] + b)[1..] == b;
    }
  }

  /** A number from 1 to 52 followed by whitespace emits its letter and
      empties the buffer, whichever way skipped numbers are handled. */
  lemma NumberDecodes(d: string, n: nat, clear: bool)
    requires 1 <= n <= 52
    ensures Run(Scan(d, ""), Decimal(n) + " ", clear) == Some(Scan(d + [CharCode(n).value], ""))
  {
    RunAppend(Scan(d, ""), Decimal(n), " ", clear);
    RunDigits(Scan(d, ""), Decimal(n), clear);
    assert "" + Decimal(n) == Decimal(n);
    assert IsWhitespace(' ');
  }

  /** A number above `u32::MAX` makes `num2alpha` panic. */
  lemma OverflowPanics(d: string, n: nat, clear: bool)
    requires n > U32Max
    ensures Run(Scan(d, ""), Decimal(n) + " ", clear) == None
    ensures Finish(Scan(d, Decimal(n))) == None
  {
    RunAppend(Scan(d, ""), Decimal(n), " ", clear);
    RunDigits(Scan(d, ""), Decimal(n), clear);
    assert "" + Decimal(n) == Decimal(n);
    assert IsWhitespace(' ');
  }

  /** A number from 53 to `u32::MAX` emits nothing. The source keeps its
      digits in the buffer; the corrected scan forgets them. */
  lemma DiscardedNumber(d: string, ds: string)
    requires AllDigits(ds) && |ds| > 0 && 52 < ParseDecimal(ds) <= U32Max
    ensures Run(Scan(d, ""), ds + " ", false) == Some(Scan(d, ds))
    ensures Run(Scan(d, ""), ds + " ", true) == Some(Scan(d, ""))
  {
    RunAppend(Scan(d, ""), ds, " ", false);
    RunAppend(Scan(d, ""), ds, " ", true);
    RunDigits(Scan(d, ""), ds, false);
    RunDigits(Scan(d, ""), ds, true);
    assert "" + ds == ds;
    assert IsWhitespace(' ');
  }

  /** The digits after a skipped number: the source appends them to the
      stale buffer, the corrected scan starts afresh. */
  lemma AfterDiscarded(ds: string, e: string, clear: bool)
    requires AllDigits(ds) && |ds| > 0 && 52 < ParseDecimal(ds) <= U32Max
    requires AllDigits(e)
    ensures AllDigits(ds + e)
    ensures Run(Start, ds + " " + e, clear) == Some(Scan("", if clear then e else ds + e))
  {
    DiscardedNumber("", ds);
    RunAppend(Start, ds + " ", e, clear);
    var buffer := if clear then "" else ds;
    RunDigits(Scan("", buffer), e, clear);
    assert "" + e == e;
  }

  /** `53 1`: the source keeps `53` after skipping it, reads `531` at the
      end and returns nothing; the corrected scan returns `a`. */
  lemma StaleBufferExample()
    ensures Num2AlphaAsWritten("53 1") == Some("")
    ensures Num2Alpha("53 1") == Some("a")
  {
    StaleBufferVector("53 1");
  }

  lemma StaleBufferVector(s: string)
    requires s == "53 1"
    ensures Num2AlphaAsWritten(s) == Some("")
    ensures Num2Alpha(s) == Some("a")
  {
    StaleAsWritten(s, "53", "1");
    StaleCorrected(s, "53", "1");
  }

  lemma FiftyThree(ds: string)
    requires ds == "53"
    ensures AllDigits(ds) && ParseDecimal(ds) == 53
  {
    ParseAppend("", '5');
    ParseAppend("5", '3');
    assert ds == "" + ['5'] + ['3'];
  }

  lemma StaleAsWritten(s: string, ds: string, e: string)
    requires ds == "53" && e == "1" && s == ds + " " + e
    ensures Num2AlphaAsWritten(s) == Some("")
  {
    FiftyThree(ds);
    AfterDiscarded(ds, e, false);
    ParseAppend(ds, '1');
    assert ds + e == ds + ['1'];
  }

  lemma StaleCorrected(s: string, ds: string, e: string)
    requires ds == "53" && e == "1" && s == ds + " " + e
    ensures Num2Alpha(s) == Some("a")
  {
    FiftyThree(ds);
    AfterDiscarded(ds, e, true);
    ParseAppend("", '1');
    assert e == "" + ['1'];
    assert CharCode(1) == Some('a');
    assert "" + ['a'] == "a";
  }

  /** A digit in the text comes back as a letter: `a1` encodes as `1 1`
      and decodes as `aa`. */
  lemma DigitBreaksRoundTrip()
    ensures Alpha2Num("a1") == "1 1"
    ensures Num2Alpha(Alpha2Num("a1")) == Some("aa")
  {
    DigitVector("a1");
  }

  lemma DigitVector(text: string)
    requires text == "a1"
    ensures Alpha2Num(text) == "1 1"
    ensures Num2Alpha(Alpha2Num(text)) == Some("aa")
  {
    EncodesOneOne(text);
    OneSpaceOne();
    DecodesOneOne("1" + " " + "1", "1");
  }

  lemma OneSpaceOne() ensures "1" + " " + "1" == "1 1" {}

  lemma EncodesOneOne(text: string)
    requires text == "a1"
    ensures Alpha2Num(text) == "1 1"
  {
    TwoTokens(text, text[0], text[1], "1");
    assert NoWhitespace(text);
  }

  lemma TwoTokens(text: string, a: char, d: char, one: string)
    requires a == 'a' && d == '1' && text == [a, d] && one == "1"
    ensures Tokens(text) == [one, one]
    ensures JoinSpace(Tokens(text)) == one + " " + one
  {
    assert Offset(a) == 0;
    assert Decimal(1) == one;
    var ts := Tokens(text);
    assert ts[0] == one && ts[1] == [d];
    assert ts == [one, one];
    assert ts[1..] == [one];
  }

  lemma DecodesOneOne(s: string, one: string)
    requires one == "1" && s == one + " " + one
    ensures Num2Alpha(s) == Some("aa")
  {
    assert Decimal(1) == one;
    NumberDecodes("", 1, true);
    assert CharCode(1) == Some('a');
    RunAppend(Start, one + " ", one, true);
    RunDigits(Scan("" + "a", ""), one, true);
    assert "" + one == one;
    ParseAppend("", '1');
    assert one == "" + ['1'];
    assert "" + "a" + "a" == "aa";
  }

  /** The loop output of a concatenation is the two loop outputs in turn. */
  lemma {:induction false} RawAppend(a: string, b: string)
    ensures Alpha2NumRaw(a + b) == Alpha2NumRaw(a) + Alpha2NumRaw(b)
    decreases |a|
  {
    if |a| == 0 {
      assert a + b == b;
    } else {
      assert (a + b)[0] == a[0];
      assert (a + b)[1..] == a[1..] + b;
      RawAppend(a[1..], b);
    }
  }

  /** The letters of a concatenation are the two texts' letters in turn. */
  lemma {:induction false} LowerAppend(a: string, b: string)
    ensures LowerLetters(a + b) == LowerLetters(a) + LowerLetters(b)
    decreases |a|
  {
    if |a| == 0 {
      assert a + b == b;
    } else {
      assert (a + b)[0] == a[0];
      assert (a + b)[1..] == a[1..] + b;
      LowerAppend(a[1..], b);
    }
  }

  // The documented example, piece by piece: "Hello, World!" is read as
  // "He", "ll", "o,", " ", "Wo", "rl" and "d!".

  lemma EncodesHe() ensures Alpha2NumRaw("He") == "8 5 " {}
  lemma EncodesLl() ensures Alpha2NumRaw("ll") == "12 12 " {}
  lemma EncodesO() ensures Alpha2NumRaw("o,") == "15 , " {}
  lemma EncodesBlank() ensures Alpha2NumRaw(" ") == "  " {}
  lemma EncodesWo() ensures Alpha2NumRaw("Wo") == "23 15 " {}
  lemma EncodesRl() ensures Alpha2NumRaw("rl") == "18 12 " {}
  lemma EncodesD() ensures Alpha2NumRaw("d!") == "4 ! " {}
  lemma LowersHe() ensures LowerLetters("He") == "he" {}
  lemma LowersLl() ensures LowerLetters("ll") == "ll" {}
  lemma LowersO() ensures LowerLetters("o,") == "o" {}
  lemma LowersWo() ensures LowerLetters("Wo") == "wo" {}
  lemma LowersRl() ensures LowerLetters("rl") == "rl" {}
  lemma LowersD() ensures LowerLetters("d!") == "d" {}
  lemma SpacedPieces() ensures "Hello, World!" == "He" + "ll" + "o," + " " + "Wo" + "rl" + "d!" {}
  lemma JoinedPieces() ensures "Hello,World!" == "He" + "ll" + "o," + "Wo" + "rl" + "d!" {}
  lemma SpacedCode()
    ensures "8 5 " + "12 12 " + "15 , " + "  " + "23 15 " + "18 12 " + "4 ! " == "8 5 12 12 15 ,   23 15 18 12 4 !" + " "
  {}
  lemma JoinedCode()
    ensures "8 5 " + "12 12 " + "15 , " + "23 15 " + "18 12 " + "4 ! " == "8 5 12 12 15 , 23 15 18 12 4 !" + " "
  {}
  lemma JoinedLower() ensures "he" + "ll" + "o" + "wo" + "rl" + "d" == "helloworld" {}
  lemma JoinedNoDigits() ensures NoDigits("Hello,World!") {}

  lemma SpacedRaw(text: string, code: string)
    requires text == "Hello, World!" && code == "8 5 12 12 15 ,   23 15 18 12 4 !"
    ensures Alpha2NumRaw(text) == code + " "
  {
    SpacedPieces();
    SpacedCode();
    EncodesHe(); EncodesLl(); EncodesO(); EncodesBlank(); EncodesWo(); EncodesRl(); EncodesD();
    RawAppend("He" + "ll" + "o," + " " + "Wo" + "rl", "d!");
    RawAppend("He" + "ll" + "o," + " " + "Wo", "rl");
    RawAppend("He" + "ll" + "o," + " ", "Wo");
    RawAppend("He" + "ll" + "o,", " ");
    RawAppend("He" + "ll", "o,");
    RawAppend("He", "ll");
  }

  lemma JoinedRaw(text: string, code: string)
    requires text == "Hello,World!" && code == "8 5 12 12 15 , 23 15 18 12 4 !"
    ensures Alpha2NumRaw(text) == code + " "
  {
    JoinedPieces();
    JoinedCode();
    EncodesHe(); EncodesLl(); EncodesO(); EncodesWo(); EncodesRl(); EncodesD();
    RawAppend("He" + "ll" + "o," + "Wo" + "rl", "d!");
    RawAppend("He" + "ll" + "o," + "Wo", "rl");
    RawAppend("He" + "ll" + "o,", "Wo");
    RawAppend("He" + "ll", "o,");
    RawAppend("He", "ll");
  }

  lemma JoinedLetters(text: string, lower: string)
    requires text == "Hello,World!" && lower == "helloworld"
    ensures LowerLetters(text) == lower
  {
    JoinedPieces();
    JoinedLower();
    LowersHe(); LowersLl(); LowersO(); LowersWo(); LowersRl(); LowersD();
    LowerAppend("He" + "ll" + "o," + "Wo" + "rl", "d!");
    LowerAppend("He" + "ll" + "o," + "Wo", "rl");
    LowerAppend("He" + "ll" + "o,", "Wo");
    LowerAppend("He" + "ll", "o,");
    LowerAppend("He", "ll");
  }

  /** A code that starts with a digit and ends with a character other
      than whitespace loses only the loop's final space to the trim. */
  lemma TrimsFinalSpace(code: string)
    requires |code| > 0 && IsDigit(code[0]) && !IsWhitespace(code[|code| - 1])
    ensures Trim(code + " ") == code
  {
    assert !IsWhitespace(code[0]);
    TrimTrailingSpace(code);
  }

  /** `alpha2num("Hello, World!")` is `8 5 12 12 15 ,   23 15 18 12 4 !`:
      each letter becomes its position, `,` and `!` stay, and the space
      between the words becomes a token of its own, so three spaces
      follow the comma. */
  lemma Alpha2NumExample()
    ensures Alpha2Num("Hello, World!") == "8 5 12 12 15 ,   23 15 18 12 4 !"
  {
    SpacedVector("Hello, World!", "8 5 12 12 15 ,   23 15 18 12 4 !");
  }

  lemma SpacedVector(text: string, code: string)
    requires text == "Hello, World!" && code == "8 5 12 12 15 ,   23 15 18 12 4 !"
    ensures Alpha2Num(text) == code
  {
    SpacedRaw(text, code);
    TrimsFinalSpace(code);
  }

  /** `num2alpha("8 5 12 12 15 , 23 15 18 12 4 !")` is `helloworld`, in
      the source and in the corrected scan: every number is a letter, and
      `,` and `!` are skipped. The code is the encoding of "Hello,World!". */
  lemma Num2AlphaExample()
    ensures Num2Alpha("8 5 12 12 15 , 23 15 18 12 4 !") == Some("helloworld")
    ensures Num2AlphaAsWritten("8 5 12 12 15 , 23 15 18 12 4 !") == Some("helloworld")
  {
    JoinedVector("8 5 12 12 15 , 23 15 18 12 4 !", "Hello,World!", "helloworld");
  }

  lemma JoinedVector(code: string, text: string, lower: string)
    requires code == "8 5 12 12 15 , 23 15 18 12 4 !" && text == "Hello,World!" && lower == "helloworld"
    ensures Num2Alpha(code) == Some(lower)
    ensures Num2AlphaAsWritten(code) == Some(lower)
  {
    JoinedRaw(text, code);
    TrimsFinalSpace(code);
    assert Alpha2Num(text) == code;
    JoinedLetters(text, lower);
    JoinedNoDigits();
    Num2AlphaRoundTrip(text);
  }
}
