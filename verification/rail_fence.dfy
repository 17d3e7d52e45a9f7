/**
 The rail fence cipher, `rail_fence_cipher` and `rail_fence_decipher`
 in cipha-lib/src/lib.rs.

 Both functions walk a cursor down and up the rails, one rail per
 character. The cipher puts each character on the rail the cursor is on
 and reads the rails top to bottom. The decipher counts how many
 characters each rail receives, cuts the ciphertext into rails of those
 lengths, and walks the cursor again, taking the front character of the
 rail it is on.

 The rails a text visits are kept as a sequence of labels; everything
 from `Row` on holds for any labelling, the zig-zag included.
 */
module RailFence {
  import opened Strings

  /** The loop's `rail` and `dir` (+1 down, -1 up). */
  datatype Cursor = Cursor(rail: nat, dir: int)

  const Top: Cursor := Cursor(0, 1)

  predicate ValidCursor(c: Cursor, rails: nat) {
    c.rail < rails && (c.dir == 1 || c.dir == -1)
  }

  /** One turn of the loop: on the top rail head down, on the bottom rail
      head up, then move one rail. The sum never leaves `0 .. rails - 1`,
      so while the rail stays within `i32` range the casts through `i32`
      and back to `usize` change nothing. */
  function Advance(c: Cursor, rails: nat): (d: Cursor)
    requires rails >= 2 && ValidCursor(c, rails)
    ensures ValidCursor(d, rails)
    ensures d.rail == c.rail + d.dir
  {
    var dir := if c.rail == 0 then 1 else if c.rail == rails - 1 then -1 else c.dir;
    Cursor(c.rail + dir, dir)
  }

  /** The rails the cursor visits for `n` characters, starting at `c`. */
  function Walk(c: Cursor, rails: nat, n: nat): (ls: seq<nat>)
    requires rails >= 2 && ValidCursor(c, rails)
    ensures |ls| == n
    ensures forall k | 0 <= k < n :: ls[k] < rails
    decreases n
  {
    if n == 0 then [] else [c.rail] + Walk(Advance(c, rails), rails, n - 1)
  }

  /** The cursor after `k` turns of the loop. */
  function After(c: Cursor, rails: nat, k: nat): (d: Cursor)
    requires rails >= 2 && ValidCursor(c, rails)
    ensures ValidCursor(d, rails)
    decreases k
  {
    if k == 0 then c else After(Advance(c, rails), rails, k - 1)
  }

  /** The zig-zag in closed form: with period `2 * (rails - 1)`, the
      phase `p` of position `k` is on rail `p` going down and on rail
      `2 * (rails - 1) - p` coming back up. */
  function ZigZag(k: nat, rails: nat): (r: nat)
    requires rails >= 2
    ensures r < rails
  {
    var period := 2 * (rails - 1);
    var p := k % period;
    if p < rails then p else period - p
  }

  /** Character `k` goes to rail `ZigZag(k, rails)`: the loop's cursor
      runs 0, 1, ..., rails - 1, rails - 2, ..., 1, 0, 1, ... */
  lemma WalkIsZigZag(rails: nat, n: nat, k: nat)
    requires rails >= 2 && k < n
    ensures Walk(Top, rails, n)[k] == ZigZag(k, rails)
  {
    WalkAt(Top, rails, n, k);
    AfterTop(rails, k);
  }

  /** Label `k` of a walk is the rail of the cursor after `k` turns. */
  lemma {:induction false} WalkAt(c: Cursor, rails: nat, n: nat, k: nat)
    requires rails >= 2 && ValidCursor(c, rails) && k < n
    ensures Walk(c, rails, n)[k] == After(c, rails, k).rail
    decreases k
  {
    if k > 0 {
      WalkAt(Advance(c, rails), rails, n - 1, k - 1);
    }
  }

  /** One more turn is one more `Advance` at the end. */
  lemma {:induction false} AfterLast(c: Cursor, rails: nat, k: nat)
    requires rails >= 2 && ValidCursor(c, rails)
    ensures After(c, rails, k + 1) == Advance(After(c, rails, k), rails)
    decreases k
  {
    if k > 0 {
      AfterLast(Advance(c, rails), rails, k - 1);
    }
  }

  /** From the top, the cursor after `k` turns is on rail
      `ZigZag(k, rails)`; strictly between the top and bottom rails it
      heads down in the first half of the period and up in the second. */
  lemma {:induction false} AfterTop(rails: nat, k: nat)
    requires rails >= 2
    ensures After(Top, rails, k).rail == ZigZag(k, rails)
    ensures var c := After(Top, rails, k);
      0 < c.rail < rails - 1 ==> c.dir == if k % (2 * (rails - 1)) < rails then 1 else -1
    decreases k
  {
    var period := 2 * (rails - 1);
    if k > 0 {
      AfterTop(rails, k - 1);
      AfterLast(Top, rails, k - 1);
      ModStep(k - 1, period);
    }
  }

  /** Counting one further moves the remainder on by one, wrapping at
      the divisor. */
  lemma ModStep(k: nat, m: nat)
    requires m > 0
    ensures (k + 1) % m == if k % m == m - 1 then 0 else k % m + 1
  {
    var q := k / m;
    assert k == q * m + k % m;
    if k % m == m - 1 {
      DivisionUnique(k + 1, q + 1, 0, m);
    } else {
      DivisionUnique(k + 1, q, k % m + 1, m);
    }
  }

  /** Euclidean division has one quotient and one remainder. */
  lemma DivisionUnique(x: int, q: int, r: int, m: int)
    requires m > 0 && 0 <= r < m && x == q * m + r
    ensures x % m == r && x / m == q
  {
    var q', r' := x / m, x % m;
    assert x == q' * m + r';
    Distribute(q, q', m);
    Distribute(q', q, m);
    if q > q' {
      MultipleAtLeast(q - q', m);
    } else if q < q' {
      MultipleAtLeast(q' - q, m);
    }
  }

  lemma Distribute(a: int, b: int, m: int)
    ensures (a - b) * m == a * m - b * m
  {
  }

  lemma MultipleAtLeast(d: int, m: int)
    requires d >= 1 && m > 0
    ensures d * m >= m
  {
  }

  predicate Labels(ls: seq<nat>, rails: nat) {
    forall k | 0 <= k < |ls| :: ls[k] < rails
  }

  /** The characters of `s` labelled with rail `r`, in order: what
      `fence[r]` holds after the cipher's loop. */
  function Row(s: string, ls: seq<nat>, r: nat): (row: string)
    requires |ls| == |s|
    ensures |row| <= |s|
    decreases |s|
  {
    if |s| == 0 then ""
    else (if ls[0] == r then [s[0]] else "") + Row(s[1..], ls[1..], r)
  }

  /** The whole fence, rail 0 first. */
  function Fence(s: string, ls: seq<nat>, rails: nat): (fence: seq<string>)
    requires |ls| == |s|
    ensures |fence| == rails
    ensures forall r | 0 <= r < rails :: fence[r] == Row(s, ls, r)
  {
    seq(rails, r requires 0 <= r < rails => Row(s, ls, r))
  }

  /** `join("")`. */
  function Concat(rows: seq<string>): string
    decreases |rows|
  {
    if |rows| == 0 then "" else rows[0] + Concat(rows[1..])
  }

  /** How many labels name rail `r`: `positions[r]` after the decipher's
      first loop. */
  function Count(ls: seq<nat>, r: nat): (n: nat)
    ensures n <= |ls|
    decreases |ls|
  {
    if |ls| == 0 then 0 else (if ls[0] == r then 1 else 0) + Count(ls[1..], r)
  }

  function Counts(ls: seq<nat>, rails: nat): (counts: seq<nat>)
    ensures |counts| == rails
    ensures forall r | 0 <= r < rails :: counts[r] == Count(ls, r)
  {
    seq(rails, r requires 0 <= r < rails => Count(ls, r))
  }

  function Sum(ns: seq<nat>): nat
    decreases |ns|
  {
    if |ns| == 0 then 0 else ns[0] + Sum(ns[1..])
  }

  function Lengths(rows: seq<string>): (ns: seq<nat>)
    ensures |ns| == |rows|
    ensures forall r | 0 <= r < |rows| :: ns[r] == |rows[r]|
  {
    seq(|rows|, r requires 0 <= r < |rows| => |rows[r]|)
  }

  /** The decipher's second loop: consecutive pieces of the ciphertext,
      `counts[r]` characters for rail `r`. Cutting and joining again gives
      the ciphertext back. */
  function Split(c: string, counts: seq<nat>): (rows: seq<string>)
    requires Sum(counts) == |c|
    ensures |rows| == |counts|
    ensures forall r | 0 <= r < |counts| :: |rows[r]| == counts[r]
    ensures Concat(rows) == c
    decreases |counts|
  {
    if |counts| == 0 then []
    else
      var rows := [c[..counts[0]]] + Split(c[counts[0]..], counts[1..]);
      assert rows[1..] == Split(c[counts[0]..], counts[1..]);
      rows
  }

  /** The decipher's third loop, from the rails `rows` and the output so
      far: each label takes the front character of its rail, if any. */
  function ReadFrom(rows: seq<string>, out: string, ls: seq<nat>): string
    requires Labels(ls, |rows|)
    decreases |ls|
  {
    if |ls| == 0 then out
    else
      var r := ls[0];
      if |rows[r]| > 0 then ReadFrom(rows[r := rows[r][1..]], out + [rows[r][0]], ls[1..])
      else ReadFrom(rows, out, ls[1..])
  }

  /** `rails == 1 || rails >= plaintext.len()` (a length in UTF-8 bytes):
      the text is returned unchanged. */
  predicate Degenerate(s: string, rails: nat) {
    rails == 1 || rails >= Utf8Len(s)
  }

  /** `rail_fence_cipher`; zero rails on a non-empty text index an empty
      fence and panic. */
  function RailFenceCipher(plaintext: string, rails: nat): (r: string)
    requires rails > 0 || |plaintext| == 0
    ensures |r| == |plaintext| && multiset(r) == multiset(plaintext)
    ensures Utf8Len(r) == Utf8Len(plaintext)
    ensures Degenerate(plaintext, rails) ==> r == plaintext
  {
    if Degenerate(plaintext, rails) then plaintext
    else
      var ls := Walk(Top, rails, |plaintext|);
      FenceKeepsCharacters(plaintext, ls, rails);
      Concat(Fence(plaintext, ls, rails))
  }

  /** `rail_fence_decipher`, with the same degenerate cases and the same
      panic. */
  function RailFenceDecipher(ciphertext: string, rails: nat): (r: string)
    requires rails > 0 || |ciphertext| == 0
    ensures Degenerate(ciphertext, rails) ==> r == ciphertext
  {
    if Degenerate(ciphertext, rails) then ciphertext
    else
      var ls := Walk(Top, rails, |ciphertext|);
      CountsAreLengths(ciphertext, ls, rails);
      FenceKeepsCharacters(ciphertext, ls, rails);
      ReadFrom(Split(ciphertext, Counts(ls, rails)), "", ls)
  }

  /** Joining rails is joining those before `r`, rail `r`, and those after. */
  lemma {:induction false} ConcatAt(rows: seq<string>, r: nat)
    requires r < |rows|
    ensures Concat(rows) == Concat(rows[..r]) + rows[r] + Concat(rows[r + 1..])
    decreases r
  {
    if r == 0 {
      assert rows[..0] == [];
      assert rows[1..] == rows[r + 1..];
    } else {
      ConcatAt(rows[1..], r - 1);
      assert rows[1..][..r - 1] == rows[..r][1..];
      assert rows[1..][r - 1 + 1..] == rows[r + 1..];
      assert rows[1..][r - 1] == rows[r];
    }
  }

  /** Putting `x` in front of rail `r` adds `x` to the joined fence:
      one more character, one more `x`, `x`'s bytes more. */
  lemma PrependRow(rows: seq<string>, r: nat, x: char)
    requires r < |rows|
    ensures var grown := rows[r := [x] + rows[r]];
      |Concat(grown)| == |Concat(rows)| + 1 &&
      multiset(Concat(grown)) == multiset(Concat(rows)) + multiset{x} &&
      Utf8Len(Concat(grown)) == Utf8Len(Concat(rows)) + Utf8Len([x])
  {
    var grown := rows[r := [x] + rows[r]];
    ConcatAt(rows, r);
    ConcatAt(grown, r);
    assert grown[..r] == rows[..r];
    assert grown[r + 1..] == rows[r + 1..];
    var before, after := Concat(rows[..r]), Concat(rows[r + 1..]);
    assert Concat(grown) == before + [x] + rows[r] + after;
    Utf8Append(before + [x] + rows[r], after);
    Utf8Append(before + [x], rows[r]);
    Utf8Append(before, [x]);
    Utf8Append(before + rows[r], after);
    Utf8Append(before, rows[r]);
  }

  /** The fence of a text whose first character is labelled `r` is the
      fence of the rest with that character put in front of rail `r`. */
  lemma FenceHead(s: string, ls: seq<nat>, rails: nat)
    requires |ls| == |s| > 0 && ls[0] < rails
    ensures var rest := Fence(s[1..], ls[1..], rails);
      Fence(s, ls, rails) == rest[ls[0] := [s[0]] + rest[ls[0]]]
    ensures var f := Fence(s, ls, rails);
      f[ls[0]][0] == s[0] && f[ls[0] := f[ls[0]][1..]] == Fence(s[1..], ls[1..], rails)
  {
    var f, rest := Fence(s, ls, rails), Fence(s[1..], ls[1..], rails);
    forall r | 0 <= r < rails
      ensures f[r] == if r == ls[0] then [s[0]] + rest[r] else rest[r]
    {
      assert "" + rest[r] == rest[r];
    }
    assert ([s[0]] + rest[ls[0]])[1..] == rest[ls[0]];
  }

  /** The rails hold exactly the characters of the text: the joined fence
      has the text's length, characters and UTF-8 length. */
  lemma {:induction false} FenceKeepsCharacters(s: string, ls: seq<nat>, rails: nat)
    requires |ls| == |s| && Labels(ls, rails)
    ensures |Concat(Fence(s, ls, rails))| == |s|
    ensures multiset(Concat(Fence(s, ls, rails))) == multiset(s)
    ensures Utf8Len(Concat(Fence(s, ls, rails))) == Utf8Len(s)
    decreases |s|
  {
    if |s| == 0 {
      EmptyFence(rails);
    } else {
      var rest := Fence(s[1..], ls[1..], rails);
      FenceKeepsCharacters(s[1..], ls[1..], rails);
      FenceHead(s, ls, rails);
      PrependRow(rest, ls[0], s[0]);
      FirstRest(s);
      Utf8Append([s[0]], s[1..]);
    }
  }

  /** Rails that are all empty join to nothing. */
  lemma {:induction false} EmptyFence(rails: nat)
    ensures Concat(Fence("", [], rails)) == ""
    decreases rails
  {
    if rails > 0 {
      var f := Fence("", [], rails);
      assert f[1..] == Fence("", [], rails - 1);
      EmptyFence(rails - 1);
    }
  }

  /** Rail `r` receives as many characters as there are labels `r`. */
  lemma {:induction false} RowLength(s: string, ls: seq<nat>, r: nat)
    requires |ls| == |s|
    ensures |Row(s, ls, r)| == Count(ls, r)
    decreases |s|
  {
    if |s| > 0 {
      RowLength(s[1..], ls[1..], r);
    }
  }

  /** The lengths of joined rails add up to the length of their join. */
  lemma {:induction false} ConcatLength(rows: seq<string>)
    ensures |Concat(rows)| == Sum(Lengths(rows))
    decreases |rows|
  {
    if |rows| > 0 {
      ConcatLength(rows[1..]);
      assert Lengths(rows)[1..] == Lengths(rows[1..]);
    }
  }

  /** The counts of the first loop are the lengths of the fence's rails,
      and they add up to the length of the text. */
  lemma CountsAreLengths(s: string, ls: seq<nat>, rails: nat)
    requires |ls| == |s| && Labels(ls, rails)
    ensures Counts(ls, rails) == Lengths(Fence(s, ls, rails))
    ensures Sum(Counts(ls, rails)) == |s|
  {
    forall r | 0 <= r < rails
      ensures Count(ls, r) == |Row(s, ls, r)|
    {
      RowLength(s, ls, r);
    }
    ConcatLength(Fence(s, ls, rails));
    FenceKeepsCharacters(s, ls, rails);
  }

  /** Cutting the joined rails by their lengths gives the rails back. */
  lemma {:induction false} SplitConcat(rows: seq<string>)
    ensures Sum(Lengths(rows)) == |Concat(rows)|
    ensures Split(Concat(rows), Lengths(rows)) == rows
    decreases |rows|
  {
    ConcatLength(rows);
    if |rows| > 0 {
      SplitConcat(rows[1..]);
      assert Lengths(rows)[1..] == Lengths(rows[1..]);
      var c := Concat(rows);
      assert c == rows[0] + Concat(rows[1..]);
      assert c[..|rows[0]|] == rows[0];
      assert c[|rows[0]|..] == Concat(rows[1..]);
    }
  }

  /** Reading the fence of `s` along the labels it was built with gives
      `s` back, after whatever was read before. */
  lemma {:induction false} ReadFence(s: string, ls: seq<nat>, rails: nat, out: string)
    requires |ls| == |s| && Labels(ls, rails)
    ensures ReadFrom(Fence(s, ls, rails), out, ls) == out + s
    decreases |s|
  {
    if |s| == 0 {
      assert out + s == out;
    } else {
      var f, rest := Fence(s, ls, rails), Fence(s[1..], ls[1..], rails);
      FenceHead(s, ls, rails);
      ReadStep(f, rest, out, ls, s[0]);
      ReadFence(s[1..], ls[1..], rails, out + [s[0]]);
      ReadOneMore(out, s);
    }
  }

  lemma ReadOneMore(out: string, s: string)
    requires |s| > 0
    ensures out + [s[0]] + s[1..] == out + s
  {
    assert s == [s[0]] + s[1..];
  }

  /** A label whose rail starts with `x` reads `x` and moves on. */
  lemma ReadStep(rows: seq<string>, rest: seq<string>, out: string, ls: seq<nat>, x: char)
    requires |ls| > 0 && Labels(ls, |rows|)
    requires |rows[ls[0]]| > 0 && rows[ls[0]][0] == x && rows[ls[0] := rows[ls[0]][1..]] == rest
    ensures Labels(ls[1..], |rest|)
    ensures ReadFrom(rows, out, ls) == ReadFrom(rest, out + [x], ls[1..])
  {
  }

  /** `rail_fence_decipher(rail_fence_cipher(m, rails), rails) == m`
      for every text and every number of rails the functions accept. */
  lemma RailFenceRoundTrip(plaintext: string, rails: nat)
    requires rails > 0 || |plaintext| == 0
    ensures RailFenceDecipher(RailFenceCipher(plaintext, rails), rails) == plaintext
  {
    if !Degenerate(plaintext, rails) {
      var ls := Walk(Top, rails, |plaintext|);
      var fence := Fence(plaintext, ls, rails);
      var c := RailFenceCipher(plaintext, rails);
      assert c == Concat(fence);
      CountsAreLengths(plaintext, ls, rails);
      SplitConcat(fence);
      ReadFence(plaintext, ls, rails, "");
      assert "" + plaintext == plaintext;
    }
  }

  /** The rails the closed form assigns to the first `n` characters. */
  function ZigZagLabels(rails: nat, n: nat): (ls: seq<nat>)
    requires rails >= 2
    ensures |ls| == n && Labels(ls, rails)
  {
    seq(n, k requires 0 <= k < n => ZigZag(k, rails))
  }

  /** The walk of the loop is the closed-form zig-zag. */
  lemma WalkIsZigZagLabels(rails: nat, n: nat)
    requires rails >= 2
    ensures Walk(Top, rails, n) == ZigZagLabels(rails, n)
  {
    forall k | 0 <= k < n
      ensures Walk(Top, rails, n)[k] == ZigZagLabels(rails, n)[k]
    {
      WalkIsZigZag(rails, n, k);
    }
  }

  /** Outside the degenerate cases the ciphertext is rail 0, then rail 1,
      and so on, where character `k` sits on rail `ZigZag(k, rails)`. */
  lemma RailFenceIsZigZag(plaintext: string, rails: nat)
    requires rails > 0 || |plaintext| == 0
    requires !Degenerate(plaintext, rails)
    ensures rails >= 2
    ensures RailFenceCipher(plaintext, rails) == Concat(Fence(plaintext, ZigZagLabels(rails, |plaintext|), rails))
  {
    WalkIsZigZagLabels(rails, |plaintext|);
  }

  /** Appending a labelled character appends it to its own rail only. */
  lemma {:induction false} RowSnoc(s: string, ls: seq<nat>, r: nat, c: char, l: nat)
    requires |ls| == |s|
    ensures Row(s + [c], ls + [l], r) == Row(s, ls, r) + (if l == r then [c] else "")
    decreases |s|
  {
    var s', ls' := s + [c], ls + [l];
    if |s| == 0 {
      assert s'[1..] == s && ls'[1..] == ls;
    } else {
      assert s'[1..] == s[1..] + [c] && ls'[1..] == ls[1..] + [l];
      RowSnoc(s[1..], ls[1..], r, c, l);
    }
  }

  /** One turn of the cipher's loop: `fence[rail].push(c)`. */
  function PushRail(fence: seq<string>, s: string, ghost ls: seq<nat>, k: nat, r: nat): (pushed: seq<string>)
    requires k < |s| == |ls| && ls[k] == r && r < |fence|
    requires forall q | 0 <= q < |fence| :: fence[q] == Row(s[..k], ls[..k], q)
    ensures |pushed| == |fence|
    ensures forall q | 0 <= q < |pushed| :: pushed[q] == Row(s[..k + 1], ls[..k + 1], q)
  {
    assert s[..k + 1] == s[..k] + [s[k]] && ls[..k + 1] == ls[..k] + [ls[k]];
    forall q | 0 <= q < |fence|
      ensures Row(s[..k + 1], ls[..k + 1], q) == Row(s[..k], ls[..k], q) + (if r == q then [s[k]] else "")
    {
      RowSnoc(s[..k], ls[..k], q, s[k], r);
    }
    fence[r := fence[r] + [s[k]]]
  }

  /** `rail_fence_cipher` loop by loop: every character is pushed onto
      the cursor's rail, then the rails are joined. */
  method RailFenceCipherLoop(plaintext: string, rails: nat) returns (result: string)
    requires rails > 0 || |plaintext| == 0
    ensures result == RailFenceCipher(plaintext, rails)
  {
    if rails == 1 || rails >= Utf8Len(plaintext) {
      return plaintext;
    }
    var n := |plaintext|;
    ghost var ls := Walk(Top, rails, n);
    var fence := seq(rails, r => "");
    var cursor := Top;
    for k := 0 to n
      invariant |fence| == rails && ValidCursor(cursor, rails)
      invariant ls[k..] == Walk(cursor, rails, |ls| - k)
      invariant forall q | 0 <= q < rails :: fence[q] == Row(plaintext[..k], ls[..k], q)
    {
      WalkStep(ls, k, cursor, rails);
      fence := PushRail(fence, plaintext, ls, k, cursor.rail);
      cursor := Advance(cursor, rails);
    }
    assert plaintext[..n] == plaintext && ls[..n] == ls;
    assert fence == Fence(plaintext, ls, rails);
    result := Concat(fence);
  }

  /** `rail_fence_decipher` loop by loop. `CountRails` is the first loop,
      `Split` the second, which fills the rails, and `ReadRails` the
      third. */
  method RailFenceDecipherLoops(ciphertext: string, rails: nat) returns (result: string)
    requires rails > 0 || |ciphertext| == 0
    ensures result == RailFenceDecipher(ciphertext, rails)
  {
    if rails == 1 || rails >= Utf8Len(ciphertext) {
      return ciphertext;
    }
    ghost var ls := Walk(Top, rails, |ciphertext|);
    var positions := CountRails(|ciphertext|, rails);
    CountsAreLengths(ciphertext, ls, rails);
    var fence := Split(ciphertext, positions);
    result := ReadRails(ciphertext, fence, rails, ls);
  }

  /** The first loop: `positions[rail] += 1` for every character. */
  method CountRails(n: nat, rails: nat) returns (positions: seq<nat>)
    requires rails >= 2
    ensures positions == Counts(Walk(Top, rails, n), rails)
  {
    ghost var ls := Walk(Top, rails, n);
    positions := seq(rails, r => 0);
    var cursor := Top;
    for k := 0 to n
      invariant ValidCursor(cursor, rails) && |positions| == rails
      invariant ls[k..] == Walk(cursor, rails, |ls| - k)
      invariant forall r | 0 <= r < rails :: positions[r] + Count(ls[k..], r) == Count(ls, r)
    {
      WalkStep(ls, k, cursor, rails);
      positions := CountOne(positions, ls, k, cursor.rail);
      cursor := Advance(cursor, rails);
    }
    assert ls[n..] == [];
  }

  /** One turn of the first loop: the rail of label `k` counts one more. */
  function CountOne(positions: seq<nat>, ghost ls: seq<nat>, ghost k: nat, r: nat): (counted: seq<nat>)
    requires k < |ls| && ls[k] == r && r < |positions|
    requires forall q | 0 <= q < |positions| :: positions[q] + Count(ls[k..], q) == Count(ls, q)
    ensures |counted| == |positions|
    ensures forall q | 0 <= q < |counted| :: counted[q] + Count(ls[k + 1..], q) == Count(ls, q)
  {
    CountHead(ls, k);
    positions[r := positions[r] + 1]
  }

  /** The third loop: while the output has fewer UTF-8 bytes than the
      ciphertext, take the front character of the cursor's rail, if it
      has one, and move the cursor. It stops after exactly one turn per
      character and reads what `ReadFrom` reads. */
  method ReadRails(ciphertext: string, rows: seq<string>, rails: nat, ghost ls: seq<nat>) returns (result: string)
    requires rails >= 2 && ls == Walk(Top, rails, |ciphertext|) && |rows| == rails
    requires forall r | 0 <= r < rails :: |rows[r]| == Count(ls, r)
    requires Utf8Len(Concat(rows)) == Utf8Len(ciphertext)
    ensures result == ReadFrom(rows, "", ls)
  {
    var n := |ciphertext|;
    var fence := rows;
    result := "";
    var cursor := Top;
    var k := 0;
    while Utf8Len(result) < Utf8Len(ciphertext)
      invariant k <= n && ValidCursor(cursor, rails) && |fence| == rails
      invariant ls[k..] == Walk(cursor, rails, |ls| - k)
      invariant forall r | 0 <= r < rails :: |fence[r]| == Count(ls[k..], r)
      invariant Utf8Len(result) + Utf8Len(Concat(fence)) == Utf8Len(ciphertext)
      invariant ReadFrom(fence, result, ls[k..]) == ReadFrom(rows, "", ls)
      decreases n - k
    {
      RowsLeft(fence, ls, k, rails);
      WalkStep(ls, k, cursor, rails);
      ReadAdvance(fence, result, ls, k);
      var r := cursor.rail;
      if |fence[r]| > 0 {
        var x := fence[r][0];
        Utf8Append(result, [x]);
        result := result + [x];
        fence := TakeRail(fence, ls, k, r);
      }
      cursor := Advance(cursor, rails);
      k := k + 1;
    }
    RowsLeft(fence, ls, k, rails);
    assert ls[n..] == [];
  }

  /** Taking the front of the rail the next label names leaves every rail
      with the counts of the labels after it, and moves one character's
      bytes off the rails. */
  function TakeRail(fence: seq<string>, ghost ls: seq<nat>, ghost k: nat, r: nat): (taken: seq<string>)
    requires k < |ls| && ls[k] == r && r < |fence| && |fence[r]| > 0
    requires forall q | 0 <= q < |fence| :: |fence[q]| == Count(ls[k..], q)
    ensures taken == fence[r := fence[r][1..]]
    ensures forall q | 0 <= q < |taken| :: |taken[q]| == Count(ls[k + 1..], q)
    ensures Utf8Len(Concat(taken)) + Utf8Len([fence[r][0]]) == Utf8Len(Concat(fence))
  {
    TakeFront(fence, r);
    CountHead(ls, k);
    fence[r := fence[r][1..]]
  }

  /** Counting from label `k` is counting label `k` and then the rest. */
  lemma CountHead(ls: seq<nat>, k: nat)
    requires k < |ls|
    ensures forall r :: Count(ls[k..], r) == (if ls[k] == r then 1 else 0) + Count(ls[k + 1..], r)
  {
    assert ls[k..][0] == ls[k];
    assert ls[k..][1..] == ls[k + 1..];
  }

  /** The labels still to come are the walk from the current cursor: the
      next label is the cursor's rail and each later count drops by one
      on that rail only. */
  lemma WalkStep(ls: seq<nat>, k: nat, cursor: Cursor, rails: nat)
    requires rails >= 2 && ValidCursor(cursor, rails) && k < |ls|
    requires ls[k..] == Walk(cursor, rails, |ls| - k)
    ensures ls[k] == cursor.rail
    ensures ls[k + 1..] == Walk(Advance(cursor, rails), rails, |ls| - (k + 1))
    ensures forall r :: Count(ls[k..], r) == (if ls[k] == r then 1 else 0) + Count(ls[k + 1..], r)
  {
    assert ls[k..][0] == ls[k];
    assert ls[k..][1..] == ls[k + 1..];
  }

  /** While labels remain, the rail of the next one still holds a
      character, so the rails still hold bytes; once none remain the
      rails are empty. */
  lemma RowsLeft(fence: seq<string>, ls: seq<nat>, k: nat, rails: nat)
    requires k <= |ls| && |fence| == rails && Labels(ls, rails)
    requires forall r | 0 <= r < rails :: |fence[r]| == Count(ls[k..], r)
    ensures k < |ls| <==> Utf8Len(Concat(fence)) > 0
  {
    if k < |ls| {
      assert ls[k..][0] == ls[k];
      ConcatAt(fence, ls[k]);
      Utf8Append(Concat(fence[..ls[k]]) + fence[ls[k]], Concat(fence[ls[k] + 1..]));
      Utf8Append(Concat(fence[..ls[k]]), fence[ls[k]]);
    } else {
      forall r | 0 <= r < rails
        ensures fence[r] == ""
      {
        assert ls[k..] == [];
      }
      EmptyRows(fence);
    }
  }

  lemma {:induction false} EmptyRows(rows: seq<string>)
    requires forall r | 0 <= r < |rows| :: rows[r] == ""
    ensures Concat(rows) == ""
    decreases |rows|
  {
    if |rows| > 0 {
      EmptyRows(rows[1..]);
    }
  }

  /** Taking the front character of rail `r` moves its bytes from the
      rails to the output. */
  lemma TakeFront(rows: seq<string>, r: nat)
    requires r < |rows| && |rows[r]| > 0
    ensures Utf8Len(Concat(rows[r := rows[r][1..]])) + Utf8Len([rows[r][0]]) == Utf8Len(Concat(rows))
  {
    var shrunk := rows[r := rows[r][1..]];
    assert rows[r] == [rows[r][0]] + rows[r][1..];
    assert shrunk[r := [rows[r][0]] + shrunk[r]] == rows;
    PrependRow(shrunk, r, rows[r][0]);
  }

  /** The read loop's next label, from position `k`. */
  lemma ReadAdvance(rows: seq<string>, out: string, ls: seq<nat>, k: nat)
    requires k < |ls| && Labels(ls, |rows|)
    ensures Labels(ls[k..], |rows|) && Labels(ls[k + 1..], |rows|)
    ensures var r := ls[k];
      ReadFrom(rows, out, ls[k..]) ==
        if |rows[r]| > 0 then ReadFrom(rows[r := rows[r][1..]], out + [rows[r][0]], ls[k + 1..])
        else ReadFrom(rows, out, ls[k + 1..])
  {
    assert ls[k..][0] == ls[k];
    assert ls[k..][1..] == ls[k + 1..];
  }
}
