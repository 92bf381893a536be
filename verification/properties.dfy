/**
  Properties of the Bubble Babble encoding: where the delimiters, the dashes
  and the seed trailer sit, how the seed is threaded, how an even-length
  prefix fixes the start of the output, and worked examples.
*/
module BubbleBabbleProperties {
  import opened BubbleBabble

  /** The seed once every complete pair of d has been consumed from seed on;
      an unpaired last byte does not change it. */
  function SeedAfter(d: seq<Byte>, seed: Seed): Seed
    decreases |d|
  {
    if |d| < 2 then seed else SeedAfter(d[2..], NextSeed(seed, d[0], d[1]))
  }

  /** The unpaired last byte of an odd-length input leaves the seed alone. */
  lemma {:induction false} SeedAfterUnpaired(d: seq<Byte>, seed: Seed)
    requires |d| % 2 == 1
    ensures SeedAfter(d, seed) == SeedAfter(d[..|d| - 1], seed)
  {
    if |d| > 1 {
      var p := d[..|d| - 1];
      assert p[2..] == d[2..][..|d[2..]| - 1];
      SeedAfterUnpaired(d[2..], NextSeed(seed, d[0], d[1]));
    }
  }

  // ---------------------------------------------------------------------
  // The end of the output: the seed trailer exactly when the length is even.
  // ---------------------------------------------------------------------

  /** The last three characters of the tuples: the seed trailer for an even
      number of bytes, the last byte's triplet for an odd number, both from
      the seed the complete pairs leave behind. */
  lemma {:induction false} TuplesEnd(d: seq<Byte>, seed: Seed)
    ensures var r := Tuples(d, seed);
      r[|r| - 3..] == if |d| % 2 == 0 then SeedTrailer(SeedAfter(d, seed))
                      else Triplet(d[|d| - 1], SeedAfter(d, seed))
  {
    var r := Tuples(d, seed);
    if |d| < 2 {
      assert r[|r| - 3..] == r;
    } else {
      var rest, next := d[2..], NextSeed(seed, d[0], d[1]);
      var a, t := Triplet(d[0], seed) + PairTail(d[1]), Tuples(rest, next);
      assert r == a + t;
      LastThree(a, t);
      TuplesEnd(rest, next);
      assert SeedAfter(d, seed) == SeedAfter(rest, next);
      if |d| % 2 == 1 {
        assert d[|d| - 1] == rest[|rest| - 1];
      }
    }
  }

  /** Appending in front leaves the last three characters alone. */
  lemma LastThree(a: string, t: string)
    requires |t| >= 3
    ensures (a + t)[|a + t| - 3..] == t[|t| - 3..]
  {
    var r := a + t;
    assert forall k :: |r| - 3 <= k < |r| ==> r[k] == t[k - |a|];
  }

  /** Before the closing 'x', an even-length input ends with the seed trailer
      and an odd-length one with its last byte's triplet, encoded with the
      seed left by the bytes before it. */
  lemma EncodedEnd(d: seq<Byte>)
    ensures var r := Encoded(d);
      r[|r| - 4..|r| - 1] == if |d| % 2 == 0 then SeedTrailer(SeedAfter(d, InitialSeed))
                              else Triplet(d[|d| - 1], SeedAfter(d[..|d| - 1], InitialSeed))
  {
    var r, t := Encoded(d), Tuples(d, InitialSeed);
    TuplesEnd(d, InitialSeed);
    assert r[|r| - 4..|r| - 1] == t[|t| - 3..];
    if |d| % 2 == 1 {
      SeedAfterUnpaired(d, InitialSeed);
    }
  }

  // ---------------------------------------------------------------------
  // Where 'x' occurs.
  // ---------------------------------------------------------------------

  /** Inside the tuples, 'x' is only the middle of the seed trailer. */
  lemma {:induction false} TuplesXPositions(d: seq<Byte>, seed: Seed, q: nat)
    requires q < |Tuples(d, seed)|
    ensures Tuples(d, seed)[q] == 'x' <==> |d| % 2 == 0 && q == |Tuples(d, seed)| - 2
  {
    if |d| >= 2 && q >= 6 {
      var rest, next := d[2..], NextSeed(seed, d[0], d[1]);
      assert Tuples(d, seed) == Triplet(d[0], seed) + PairTail(d[1]) + Tuples(rest, next);
      TuplesXPositions(rest, next, q - 6);
    }
  }

  /** 'x' opens and closes the encoding and is otherwise only the middle of
      the seed trailer, which an even-length input has and an odd-length
      one does not. */
  lemma EncodedXPositions(d: seq<Byte>, p: nat)
    requires p < |Encoded(d)|
    ensures Encoded(d)[p] == 'x' <==>
      p == 0 || p == |Encoded(d)| - 1 || (|d| % 2 == 0 && p == |Encoded(d)| - 3)
  {
    if 0 < p < |Encoded(d)| - 1 {
      TuplesXPositions(d, InitialSeed, p - 1);
    }
  }

  /** The seed trailer is emitted if and only if the input length is even. */
  lemma TrailerIffEven(d: seq<Byte>)
    ensures var r := Encoded(d); r[|r| - 3] == 'x' <==> |d| % 2 == 0
  {
    EncodedXPositions(d, |Encoded(d)| - 3);
  }

  // ---------------------------------------------------------------------
  // Where '-' occurs, and how often.
  // ---------------------------------------------------------------------

  /** Inside the tuples, '-' is the fifth character of each six-character
      group that encodes a complete pair. */
  lemma {:induction false} TuplesDashPositions(d: seq<Byte>, seed: Seed, q: nat)
    requires q < |Tuples(d, seed)|
    ensures Tuples(d, seed)[q] == '-' <==> q % 6 == 4 && q / 6 < |d| / 2
  {
    if |d| >= 2 {
      var rest, next := d[2..], NextSeed(seed, d[0], d[1]);
      var t, pt := Triplet(d[0], seed), PairTail(d[1]);
      assert Tuples(d, seed) == t + pt + Tuples(rest, next);
      if q < 3 {
        assert Tuples(d, seed)[q] == t[q];
      } else if q < 6 {
        assert Tuples(d, seed)[q] == pt[q - 3];
        assert q / 6 == 0 < |d| / 2;
      } else {
        TuplesDashPositions(rest, next, q - 6);
        assert Tuples(d, seed)[q] == Tuples(rest, next)[q - 6];
        assert (q - 6) % 6 == q % 6 && (q - 6) / 6 == q / 6 - 1;
        assert |rest| / 2 == |d| / 2 - 1;
      }
    }
  }

  /** '-' occurs at the positions 6k + 5 for k below half the input length,
      and nowhere else. */
  lemma EncodedDashPositions(d: seq<Byte>, p: nat)
    requires p < |Encoded(d)|
    ensures Encoded(d)[p] == '-' <==> p % 6 == 5 && p / 6 < |d| / 2
  {
    var r, t := Encoded(d), Tuples(d, InitialSeed);
    if 0 < p < |r| - 1 {
      TuplesDashPositions(d, InitialSeed, p - 1);
      assert r[p] == t[p - 1];
      ShiftBySix(p - 1);
    } else if p > 0 {
      assert p == 6 * (|d| / 2) + 4;
      ShiftBySix(6 * (|d| / 2) + 3);
    }
  }

  /** Position arithmetic for the opening 'x': moving one place to the
      right turns residue 4 into residue 5 and keeps the group number. */
  lemma ShiftBySix(q: nat)
    ensures (q + 1) % 6 == 5 <==> q % 6 == 4
    ensures (q + 1) / 6 == q / 6 || (q + 1) % 6 == 0
    ensures q % 6 == 3 ==> (q + 1) % 6 == 4
  {
  }

  /** The number of occurrences of c in s. */
  function Count(s: string, c: char): nat
    decreases |s|
  {
    if s == [] then 0 else (if s[0] == c then 1 else 0) + Count(s[1..], c)
  }

  lemma {:induction false} CountConcat(a: string, b: string, c: char)
    ensures Count(a + b, c) == Count(a, c) + Count(b, c)
  {
    if a != [] {
      assert (a + b)[1..] == a[1..] + b;
      CountConcat(a[1..], b, c);
    } else {
      assert a + b == b;
    }
  }

  /** A three-character piece holds as many c as its characters say. */
  lemma CountThree(s: string, c: char)
    requires |s| == 3
    ensures Count(s, c) == (if s[0] == c then 1 else 0) + (if s[1] == c then 1 else 0)
                           + (if s[2] == c then 1 else 0)
  {
    var s1 := s[1..];
    var s2 := s1[1..];
    assert s2[1..] == [];
    assert Count(s2, c) == if s[2] == c then 1 else 0;
    assert Count(s1, c) == (if s[1] == c then 1 else 0) + Count(s2, c);
  }

  /** The tuples of d hold one '-' per complete pair. */
  lemma {:induction false} TuplesDashCount(d: seq<Byte>, seed: Seed)
    ensures Count(Tuples(d, seed), '-') == |d| / 2
  {
    if |d| == 0 {
      var t := SeedTrailer(seed);
      CountThree(t, '-');
    } else {
      var t := Triplet(d[0], seed);
      CountThree(t, '-');
      if |d| >= 2 {
        var rest, next := d[2..], NextSeed(seed, d[0], d[1]);
        var pt := PairTail(d[1]);
        CountThree(pt, '-');
        CountConcat(t + pt, Tuples(rest, next), '-');
        CountConcat(t, pt, '-');
        TuplesDashCount(rest, next);
      }
    }
  }

  /** '-' occurs exactly floor(n / 2) times in the encoding of n bytes. */
  lemma EncodedDashCount(d: seq<Byte>)
    ensures Count(Encoded(d), '-') == |d| / 2
  {
    var t := Tuples(d, InitialSeed);
    CountConcat("x" + t, "x", '-');
    CountConcat("x", t, '-');
    TuplesDashCount(d, InitialSeed);
  }

  // ---------------------------------------------------------------------
  // An even-length prefix fixes the start of the output.
  // ---------------------------------------------------------------------

  /** After an even number of bytes the encoder is back at a pair boundary:
      what follows is encoded from the seed those bytes leave behind. */
  lemma {:induction false} TuplesConcat(d: seq<Byte>, e: seq<Byte>, seed: Seed)
    requires |d| % 2 == 0
    ensures Tuples(d + e, seed) == Tuples(d, seed)[..3 * |d|] + Tuples(e, SeedAfter(d, seed))
  {
    if |d| > 0 {
      var rest, next := d[2..], NextSeed(seed, d[0], d[1]);
      assert (d + e)[2..] == rest + e;
      TuplesConcat(rest, e, next);
      var head := Triplet(d[0], seed) + PairTail(d[1]);
      assert Tuples(d, seed)[..3 * |d|] == head + Tuples(rest, next)[..3 * |rest|];
    } else {
      assert d + e == e;
    }
  }

  /** The encoding of d + e, for d of even length, starts with the first
      1 + 3|d| characters of the encoding of d. */
  lemma EncodedPrefixStable(d: seq<Byte>, e: seq<Byte>)
    requires |d| % 2 == 0
    ensures Encoded(d + e)[..1 + 3 * |d|] == Encoded(d)[..1 + 3 * |d|]
  {
    var k := 3 * |d|;
    var t, u := Tuples(d, InitialSeed), Tuples(d + e, InitialSeed);
    TuplesConcat(d, e, InitialSeed);
    assert u[..k] == t[..k];
    assert Encoded(d + e)[..1 + k] == "x" + u[..k];
    assert Encoded(d)[..1 + k] == "x" + t[..k];
  }

  /** A 16-byte digest is encoded with eight dashes and ends with the seed
      trailer, whose middle is the 'x' at position 50. */
  lemma Md5Shape(digestOf: string -> seq<Byte>, value: string)
    requires |digestOf(value)| == 16
    ensures Md5(digestOf, value)[50] == 'x'
    ensures Count(Md5(digestOf, value), '-') == 8
  {
    EncodedXPositions(digestOf(value), 50);
    EncodedDashCount(digestOf(value));
  }

  // ---------------------------------------------------------------------
  // Worked examples.
  // ---------------------------------------------------------------------

  /** The empty input, one zero byte and two zero bytes. */
  lemma GoldenVectors()
    ensures Encoded([]) == "xexax"
    ensures Encoded([0]) == "xebax"
    ensures Encoded([0, 0]) == "xebab-byxax"
  {
  }

  // Evaluating Tuples on a concrete input one piece at a time, so that
  // each step computes a single group.

  lemma LastStep(d: seq<Byte>, seed: Seed, out: string)
    requires |d| == 1 && out == Triplet(d[0], seed)
    ensures Tuples(d, seed) == out
  {
  }

  lemma PairStep(d: seq<Byte>, seed: Seed, next: Seed, group: string)
    requires |d| >= 2 && NextSeed(seed, d[0], d[1]) == next
    requires Triplet(d[0], seed) + PairTail(d[1]) == group
    ensures Tuples(d, seed) == group + Tuples(d[2..], next)
  {
  }

  // PineappleSuffixAt<k>: the tuples of the bytes of "Pineapple" from byte
  // offset k on, encoded from the seed the pairs before offset k leave. Each
  // lemma adds one pair in front of the next.

  lemma PineappleSuffixAt6(d: seq<Byte>)
    requires |d| == 3
    requires d[0] == 0x70 && d[1] == 0x6c && d[2] == 0x65
    ensures Tuples(d, 8) == "osek-s" + "ona"
  {
    assert Tuples(d[2..], 32) == "ona" by { LastStep(d[2..], 32, "ona"); }
    assert Triplet(0x70, 8) + PairTail(0x6c) == "osek-s";
    PairStep(d, 8, 32, "osek-s");
  }

  lemma PineappleSuffixAt4(d: seq<Byte>)
    requires |d| == 5
    requires d[0] == 0x61 && d[1] == 0x70 && d[2] == 0x70 && d[3] == 0x6c && d[4] == 0x65
    ensures Tuples(d, 9) == "umil-b" + ("osek-s" + "ona")
  {
    assert Tuples(d[2..], 8) == "osek-s" + "ona" by { PineappleSuffixAt6(d[2..]); }
    assert Triplet(0x61, 9) + PairTail(0x70) == "umil-b";
    PairStep(d, 9, 8, "umil-b");
  }

  lemma PineappleSuffixAt2(d: seq<Byte>)
    requires |d| == 7
    requires d[0] == 0x6e && d[1] == 0x65 && d[2] == 0x61 && d[3] == 0x70 && d[4] == 0x70
    requires d[5] == 0x6c && d[6] == 0x65
    ensures Tuples(d, 22) == "yryk-h" + ("umil-b" + ("osek-s" + "ona"))
  {
    assert Tuples(d[2..], 9) == "umil-b" + ("osek-s" + "ona") by { PineappleSuffixAt4(d[2..]); }
    assert Triplet(0x6e, 22) + PairTail(0x65) == "yryk-h";
    PairStep(d, 22, 9, "yryk-h");
  }

  /** The groups of the bytes of "Pineapple". */
  lemma PineappleSuffixAt0(d: seq<Byte>)
    requires |d| == 9
    requires d[0] == 0x50 && d[1] == 0x69 && d[2] == 0x6e && d[3] == 0x65 && d[4] == 0x61
    requires d[5] == 0x70 && d[6] == 0x70 && d[7] == 0x6c && d[8] == 0x65
    ensures Tuples(d, 1) == "igak-n" + ("yryk-h" + ("umil-b" + ("osek-s" + "ona")))
  {
    assert Tuples(d[2..], 22) == "yryk-h" + ("umil-b" + ("osek-s" + "ona")) by { PineappleSuffixAt2(d[2..]); }
    assert Triplet(0x50, 1) + PairTail(0x69) == "igak-n";
    PairStep(d, 1, 22, "igak-n");
  }

  /** The published example of the encoding on the ASCII bytes of
      "Pineapple": an odd length, so it ends with the last byte's triplet. */
  lemma PineappleVector(d: seq<Byte>)
    requires |d| == 9
    requires d[0] == 0x50 && d[1] == 0x69 && d[2] == 0x6e && d[3] == 0x65 && d[4] == 0x61
    requires d[5] == 0x70 && d[6] == 0x70 && d[7] == 0x6c && d[8] == 0x65
    ensures Encoded(d) == "xigak-nyryk-humil-bosek-sonax"
  {
    PineappleSuffixAt0(d);
  }
}
