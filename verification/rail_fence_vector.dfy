/** The library's rail fence test vector, `WEAREDISCOVEREDSAVEYOURSELF`
    on three rails, worked four characters (one period) at a time. */
module RailFenceVector {
  import opened Strings
  import opened RailFence

  /** One period of the three-rail zig-zag. */
  const Down: seq<nat> := [0, 1, 2, 1]

  lemma {:induction false} RowAppend(a: string, la: seq<nat>, b: string, lb: seq<nat>, r: nat)
    requires |la| == |a| && |lb| == |b|
    ensures Row(a + b, la + lb, r) == Row(a, la, r) + Row(b, lb, r)
    decreases |a|
  {
    if |a| > 0 {
      assert (a + b)[1..] == a[1..] + b && (la + lb)[1..] == la[1..] + lb;
      RowAppend(a[1..], la[1..], b, lb, r);
    } else {
      assert a + b == b && la + lb == lb;
    }
  }

  lemma RowOne(c: char, l: nat, r: nat)
    ensures Row([c], [l], r) == if l == r then [c] else ""
  {
    assert [c][1..] == "";
    assert [l][1..] == [];
  }

  /** Within one period, rail 0 takes the first character, rail 1 the
      second and fourth, rail 2 the third. */
  lemma Period(p: string, r: nat)
    requires |p| == 4
    ensures Row(p, Down, r) == (if r == 0 then p[..1] else if r == 1 then p[1..2] + p[3..] else if r == 2 then p[2..3] else "")
  {
    assert p == [p[0]] + [p[1]] + [p[2]] + [p[3]];
    assert Down == [0] + [1] + [2] + [1];
    RowAppend([p[0]] + [p[1]] + [p[2]], [0] + [1] + [2], [p[3]], [1], r);
    RowAppend([p[0]] + [p[1]], [0] + [1], [p[2]], [2], r);
    RowAppend([p[0]], [0], [p[1]], [1], r);
    RowOne(p[0], 0, r);
    RowOne(p[1], 1, r);
    RowOne(p[2], 2, r);
    RowOne(p[3], 1, r);
  }

  /** The final three characters, on rails 0, 1 and 2. */
  lemma Last(t: string, r: nat)
    requires |t| == 3
    ensures Row(t, [0, 1, 2], r) == (if r == 0 then t[..1] else if r == 1 then t[1..2] else if r == 2 then t[2..] else "")
  {
    assert t == [t[0]] + [t[1]] + [t[2]];
    assert [0, 1, 2] == [0] + [1] + [2];
    RowAppend([t[0]] + [t[1]], [0] + [1], [t[2]], [2], r);
    RowAppend([t[0]], [0], [t[1]], [1], r);
    RowOne(t[0], 0, r);
    RowOne(t[1], 1, r);
    RowOne(t[2], 2, r);
  }

  /** A rail of six periods and a tail is the rail of each piece, joined. */
  lemma SixPeriods(p1: string, p2: string, p3: string, p4: string, p5: string, p6: string, t: string, r: nat)
    requires |p1| == |p2| == |p3| == |p4| == |p5| == |p6| == 4 && |t| == 3
    ensures Row(p1 + p2 + p3 + p4 + p5 + p6 + t, Down + Down + Down + Down + Down + Down + [0, 1, 2], r) ==
      Row(p1, Down, r) + Row(p2, Down, r) + Row(p3, Down, r) + Row(p4, Down, r) +
      Row(p5, Down, r) + Row(p6, Down, r) + Row(t, [0, 1, 2], r)
  {
    var d := Down;
    RowAppend(p1 + p2 + p3 + p4 + p5 + p6, d + d + d + d + d + d, t, [0, 1, 2], r);
    RowAppend(p1 + p2 + p3 + p4 + p5, d + d + d + d + d, p6, d, r);
    RowAppend(p1 + p2 + p3 + p4, d + d + d + d, p5, d, r);
    RowAppend(p1 + p2 + p3, d + d + d, p4, d, r);
    RowAppend(p1 + p2, d + d, p3, d, r);
    RowAppend(p1, d, p2, d, r);
  }

  /** The labels of period four, `0, 1, 2, 1, 0, 1, ...`. */
  function Periodic(n: nat): (ls: seq<nat>)
    ensures |ls| == n
  {
    seq(n, k requires 0 <= k < n => Down[k % 4])
  }

  lemma ThreeRailLabels(n: nat)
    ensures ZigZagLabels(3, n) == Periodic(n)
  {
  }

  lemma PeriodicStep(n: nat)
    ensures Periodic(n + 4) == Down + Periodic(n)
  {
    var a, b := Periodic(n + 4), Down + Periodic(n);
    forall k | 4 <= k < n + 4
      ensures a[k] == b[k]
    {
      assert (k - 4) % 4 == k % 4;
    }
  }

  lemma PeriodicLabels()
    ensures Periodic(27) == Down + Down + Down + Down + Down + Down + [0, 1, 2]
  {
    PeriodicStep(23);
    PeriodicStep(19);
    PeriodicStep(15);
    PeriodicStep(11);
    PeriodicStep(7);
    PeriodicStep(3);
    assert Periodic(3) == [0, 1, 2];
  }

  /** Any 27 characters cut into six periods and a tail: each rail is the
      rails of the pieces, joined. */
  lemma Pieces(s: string, r: nat, p1: string, p2: string, p3: string, p4: string, p5: string, p6: string, t: string)
    requires |p1| == |p2| == |p3| == |p4| == |p5| == |p6| == 4 && |t| == 3
    requires s == p1 + p2 + p3 + p4 + p5 + p6 + t
    ensures Row(s, ZigZagLabels(3, 27), r) ==
      Row(p1, Down, r) + Row(p2, Down, r) + Row(p3, Down, r) + Row(p4, Down, r) +
      Row(p5, Down, r) + Row(p6, Down, r) + Row(t, [0, 1, 2], r)
  {
    ThreeRailLabels(27);
    PeriodicLabels();
    SixPeriods(p1, p2, p3, p4, p5, p6, t, r);
  }


  /** Rail 0 takes the first character of every piece. */
  lemma RailZero(s: string, p1: string, p2: string, p3: string, p4: string, p5: string, p6: string, t: string)
    requires |p1| == |p2| == |p3| == |p4| == |p5| == |p6| == 4 && |t| == 3
    requires s == p1 + p2 + p3 + p4 + p5 + p6 + t
    ensures Row(s, ZigZagLabels(3, 27), 0) == p1[..1] + p2[..1] + p3[..1] + p4[..1] + p5[..1] + p6[..1] + t[..1]
  {
    Pieces(s, 0, p1, p2, p3, p4, p5, p6, t);
    Period(p1, 0);
    Period(p2, 0);
    Period(p3, 0);
    Period(p4, 0);
    Period(p5, 0);
    Period(p6, 0);
    Last(t, 0);
  }

  /** Rail 1 takes the second and fourth character of every period and
      the second of the tail. */
  lemma RailOne(s: string, p1: string, p2: string, p3: string, p4: string, p5: string, p6: string, t: string)
    requires |p1| == |p2| == |p3| == |p4| == |p5| == |p6| == 4 && |t| == 3
    requires s == p1 + p2 + p3 + p4 + p5 + p6 + t
    ensures Row(s, ZigZagLabels(3, 27), 1) ==
      (p1[1..2] + p1[3..]) + (p2[1..2] + p2[3..]) + (p3[1..2] + p3[3..]) + (p4[1..2] + p4[3..]) +
      (p5[1..2] + p5[3..]) + (p6[1..2] + p6[3..]) + t[1..2]
  {
    Pieces(s, 1, p1, p2, p3, p4, p5, p6, t);
    Period(p1, 1);
    Period(p2, 1);
    Period(p3, 1);
    Period(p4, 1);
    Period(p5, 1);
    Period(p6, 1);
    Last(t, 1);
  }

  /** Rail 2 takes the third character of every piece. */
  lemma RailTwo(s: string, p1: string, p2: string, p3: string, p4: string, p5: string, p6: string, t: string)
    requires |p1| == |p2| == |p3| == |p4| == |p5| == |p6| == 4 && |t| == 3
    requires s == p1 + p2 + p3 + p4 + p5 + p6 + t
    ensures Row(s, ZigZagLabels(3, 27), 2) == p1[2..3] + p2[2..3] + p3[2..3] + p4[2..3] + p5[2..3] + p6[2..3] + t[2..]
  {
    Pieces(s, 2, p1, p2, p3, p4, p5, p6, t);
    Period(p1, 2);
    Period(p2, 2);
    Period(p3, 2);
    Period(p4, 2);
    Period(p5, 2);
    Period(p6, 2);
    Last(t, 2);
  }

  /** The library's test vector `WEAREDISCOVEREDSAVEYOURSELF`, cut into
      six periods and a tail. */
  predicate VectorPieces(s: string, p1: string, p2: string, p3: string, p4: string, p5: string, p6: string, t: string)
  {
    p1 == "WEAR" && p2 == "EDIS" && p3 == "COVE" && p4 == "REDS" && p5 == "AVEY" && p6 == "OURS" && t == "ELF" &&
    s == p1 + p2 + p3 + p4 + p5 + p6 + t
  }

  lemma VectorRailZero(s: string, p1: string, p2: string, p3: string, p4: string, p5: string, p6: string, t: string)
    requires VectorPieces(s, p1, p2, p3, p4, p5, p6, t)
    ensures Row(s, ZigZagLabels(3, 27), 0) == "WECRAOE"
  {
    RailZero(s, p1, p2, p3, p4, p5, p6, t);
  }

  lemma VectorRailOne(s: string, p1: string, p2: string, p3: string, p4: string, p5: string, p6: string, t: string)
    requires VectorPieces(s, p1, p2, p3, p4, p5, p6, t)
    ensures Row(s, ZigZagLabels(3, 27), 1) == "ERDSOEESVYUSL"
  {
    RailOne(s, p1, p2, p3, p4, p5, p6, t);
  }

  lemma VectorRailTwo(s: string, p1: string, p2: string, p3: string, p4: string, p5: string, p6: string, t: string)
    requires VectorPieces(s, p1, p2, p3, p4, p5, p6, t)
    ensures Row(s, ZigZagLabels(3, 27), 2) == "AIVDERF"
  {
    RailTwo(s, p1, p2, p3, p4, p5, p6, t);
  }

  lemma ConcatThree(f: seq<string>)
    requires |f| == 3
    ensures Concat(f) == f[0] + f[1] + f[2]
  {
    var g, h := f[1..], f[2..];
    assert g[1..] == h;
    assert Concat(h[1..]) == "";
    assert Concat(h) == f[2];
    assert Concat(g) == f[1] + f[2];
  }

  /** Any 27 characters on three rails: the cipher joins the three rows. */
  lemma ThreeRows(s: string)
    requires |s| == 27
    ensures RailFenceCipher(s, 3) ==
      Row(s, ZigZagLabels(3, 27), 0) + Row(s, ZigZagLabels(3, 27), 1) + Row(s, ZigZagLabels(3, 27), 2)
  {
    assert !Degenerate(s, 3);
    RailFenceIsZigZag(s, 3);
    var f := Fence(s, ZigZagLabels(3, 27), 3);
    ConcatThree(f);
  }

  lemma JoinRails(a: string, b: string, c: string, w: string)
    requires a == "WECRAOE" && b == "ERDSOEESVYUSL" && c == "AIVDERF"
    requires w == "WECRAOEERDSOEESVYUSLAIVDERF"
    ensures a + b + c == w
  {
  }

  lemma VectorCipher(s: string, p1: string, p2: string, p3: string, p4: string, p5: string, p6: string, t: string)
    requires VectorPieces(s, p1, p2, p3, p4, p5, p6, t)
    ensures RailFenceCipher(s, 3) == "WECRAOEERDSOEESVYUSLAIVDERF"
  {
    ThreeRows(s);
    VectorRailZero(s, p1, p2, p3, p4, p5, p6, t);
    VectorRailOne(s, p1, p2, p3, p4, p5, p6, t);
    VectorRailTwo(s, p1, p2, p3, p4, p5, p6, t);
    JoinRails("WECRAOE", "ERDSOEESVYUSL", "AIVDERF", "WECRAOEERDSOEESVYUSLAIVDERF");
  }

  lemma CipherThenDecipher(plaintext: string, ciphertext: string, rails: nat)
    requires rails > 0 && RailFenceCipher(plaintext, rails) == ciphertext
    ensures RailFenceDecipher(ciphertext, rails) == plaintext
  {
    RailFenceRoundTrip(plaintext, rails);
  }

  lemma VectorSplit(s: string)
    requires s == "WEAREDISCOVEREDSAVEYOURSELF"
    ensures VectorPieces(s, "WEAR", "EDIS", "COVE", "REDS", "AVEY", "OURS", "ELF")
  {
  }

  /** The library's rail fence test: `WEAREDISCOVEREDSAVEYOURSELF` on three
      rails enciphers to `WECRAOEERDSOEESVYUSLAIVDERF`. */
  lemma RailFenceExample()
    ensures RailFenceCipher("WEAREDISCOVEREDSAVEYOURSELF", 3) == "WECRAOEERDSOEESVYUSLAIVDERF"
  {
    VectorEnciphers("WEAREDISCOVEREDSAVEYOURSELF", "WECRAOEERDSOEESVYUSLAIVDERF");
  }

  lemma VectorEnciphers(plaintext: string, ciphertext: string)
    requires plaintext == "WEAREDISCOVEREDSAVEYOURSELF"
    requires ciphertext == "WECRAOEERDSOEESVYUSLAIVDERF"
    ensures RailFenceCipher(plaintext, 3) == ciphertext
  {
    VectorSplit(plaintext);
    VectorCipher(plaintext, "WEAR", "EDIS", "COVE", "REDS", "AVEY", "OURS", "ELF");
  }

  /** The same test vector deciphers back to the plaintext. */
  lemma RailFenceExampleDeciphers()
    ensures RailFenceDecipher("WECRAOEERDSOEESVYUSLAIVDERF", 3) == "WEAREDISCOVEREDSAVEYOURSELF"
  {
    VectorDeciphers("WEAREDISCOVEREDSAVEYOURSELF", "WECRAOEERDSOEESVYUSLAIVDERF");
  }

  lemma VectorDeciphers(plaintext: string, ciphertext: string)
    requires plaintext == "WEAREDISCOVEREDSAVEYOURSELF"
    requires ciphertext == "WECRAOEERDSOEESVYUSLAIVDERF"
    ensures RailFenceDecipher(ciphertext, 3) == plaintext
  {
    VectorEnciphers(plaintext, ciphertext);
    CipherThenDecipher(plaintext, ciphertext, 3);
  }
}
