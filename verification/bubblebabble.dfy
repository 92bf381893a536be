/**
  Bubble Babble: a pronounceable encoding of a byte string.

  The encoder walks its input two bytes at a time. Each pair becomes a
  five-letter group "vowel consonant vowel consonant - consonant" (the
  dash sits inside the group), an unpaired last byte becomes three letters,
  and an even-length input ends with three letters that encode only the
  rolling seed. The whole is wrapped in 'x' ... 'x'.

  This module holds the specification (the recursive function Encoded,
  which threads the seed through the byte pairs) and the imperative
  encoder (method Encode, the forward loop over i, j and seed) proved
  equal to it.
*/
module BubbleBabble {

  /** An input byte. Bit shifts and masks are written on the byte itself. */
  type Byte = bv8

  /** The rolling seed; it starts at 1 and every update reduces it modulo 36. */
  type Seed = s: int | 0 <= s < 36

  const InitialSeed: Seed := 1

  /** The six vowels and the seventeen consonants; 'x' is consonant 16. */
  const Vowels: string := "aeiouy"
  const Consonants: string := "bcdfghklmnprstvzx"

  // ---------------------------------------------------------------------
  // Alphabet indices. The byte-derived consonant indices are masked with
  // 15, so they never reach 16, the index of 'x'.
  // ---------------------------------------------------------------------

  /** First vowel of a byte's triplet: its top two bits shifted by the seed. */
  function HighVowelIndex(b: Byte, seed: Seed): (k: nat)
    ensures k < |Vowels|
  {
    (((b >> 6) & 3) as int + seed) % 6
  }

  /** Consonant of a byte's triplet: its middle four bits. */
  function MiddleConsonantIndex(b: Byte): (k: nat)
    ensures k < 16
  {
    ((b >> 2) & 15) as int
  }

  /** Last vowel of a byte's triplet: its low two bits shifted by seed / 6. */
  function LowVowelIndex(b: Byte, seed: Seed): (k: nat)
    ensures k < |Vowels|
  {
    ((b & 3) as int + seed / 6) % 6
  }

  /** Consonant before the dash: the high nibble of the second byte of a pair. */
  function HighNibbleIndex(b: Byte): (k: nat)
    ensures k < 16
  {
    ((b >> 4) & 15) as int
  }

  /** Consonant after the dash: the low nibble of the second byte of a pair. */
  function LowNibbleIndex(b: Byte): (k: nat)
    ensures k < 16
  {
    (b & 15) as int
  }

  /** The seed after a complete pair (b1, b2); it stays in [0, 36). */
  function NextSeed(seed: Seed, b1: Byte, b2: Byte): (s: int)
    ensures 0 <= s < 36
  {
    (seed * 5 + b1 as int * 7 + b2 as int) % 36
  }

  /** Vowel indices of the seed trailer: seed % 6 and seed / 6. The second is
      in range only because the seed is below 36. */
  function TrailerIndices(seed: Seed): (ks: (nat, nat))
    ensures ks.0 < |Vowels| && ks.1 < |Vowels|
    ensures ks.0 + 6 * ks.1 == seed
  {
    (seed % 6, seed / 6)
  }

  // ---------------------------------------------------------------------
  // The pieces of the output.
  // ---------------------------------------------------------------------

  /** The three letters emitted for the first byte of a pair: neither 'x'
      nor '-' can occur in them. */
  function Triplet(b: Byte, seed: Seed): (r: string)
    ensures |r| == 3
    ensures r[0] != 'x' && r[1] != 'x' && r[2] != 'x'
    ensures r[0] != '-' && r[1] != '-' && r[2] != '-'
  {
    [Vowels[HighVowelIndex(b, seed)], Consonants[MiddleConsonantIndex(b)], Vowels[LowVowelIndex(b, seed)]]
  }

  /** The three characters emitted for the second byte of a pair: two
      consonants other than 'x' around a dash. */
  function PairTail(b: Byte): (r: string)
    ensures |r| == 3
    ensures r[0] != 'x' && r[1] != 'x' && r[2] != 'x'
    ensures r[1] == '-' && r[0] != '-' && r[2] != '-'
  {
    [Consonants[HighNibbleIndex(b)], '-', Consonants[LowNibbleIndex(b)]]
  }

  /** The three letters emitted once all bytes are consumed as pairs: two
      vowels around consonant 16, 'x'. */
  function SeedTrailer(seed: Seed): (r: string)
    ensures |r| == 3
    ensures r[0] != '-' && r[1] != '-' && r[2] != '-'
    ensures r[1] == 'x' && r[0] != 'x' && r[2] != 'x'
  {
    var (lo, hi) := TrailerIndices(seed);
    [Vowels[lo], Consonants[16], Vowels[hi]]
  }

  /** Everything between the opening and the closing 'x', for the bytes d
      encoded from the given seed on. */
  function Tuples(d: seq<Byte>, seed: Seed): (r: string)
    ensures |r| == if |d| % 2 == 0 then 3 * |d| + 3 else 3 * |d|
    decreases |d|
  {
    if |d| == 0 then SeedTrailer(seed)
    else if |d| == 1 then Triplet(d[0], seed)
    else Triplet(d[0], seed) + PairTail(d[1]) + Tuples(d[2..], NextSeed(seed, d[0], d[1]))
  }

  /** The Bubble Babble encoding of a byte string. */
  function Encoded(d: seq<Byte>): (r: string)
    ensures |r| == if |d| % 2 == 0 then 3 * |d| + 5 else 3 * |d| + 2
    ensures r[0] == 'x' && r[|r| - 1] == 'x'
  {
    "x" + Tuples(d, InitialSeed) + "x"
  }

  // ---------------------------------------------------------------------
  // The encoder as the source runs it.
  // ---------------------------------------------------------------------

  // Steps of the loop against the specification: each lemma says which
  // piece of Tuples the loop emits next, given what it has emitted so far.

  /** A complete pair at position i: its triplet, its dash group, then the
      rest from the updated seed. */
  lemma EmitPair(target: string, d: seq<Byte>, i: nat, seed: Seed, r: string)
    requires i + 2 <= |d|
    requires target == r + Tuples(d[i..], seed)
    ensures target == r + Triplet(d[i], seed) + PairTail(d[i + 1])
                      + Tuples(d[i + 2..], NextSeed(seed, d[i], d[i + 1]))
  {
  }

  /** An unpaired last byte: only its triplet is left. */
  lemma EmitLast(target: string, d: seq<Byte>, i: nat, seed: Seed, r: string)
    requires i + 1 == |d|
    requires target == r + Tuples(d[i..], seed)
    ensures target == r + Triplet(d[i], seed)
  {
  }

  /** All bytes consumed as pairs: only the seed trailer is left. */
  lemma EmitTrailer(target: string, d: seq<Byte>, i: nat, seed: Seed, r: string)
    requires i == |d|
    requires target == r + Tuples(d[i..], seed)
    ensures target == r + SeedTrailer(seed)
  {
  }

  /** Writing a byte's triplet one character at a time. */
  lemma TripletChars(r: string, b: Byte, seed: Seed)
    ensures r + [Vowels[HighVowelIndex(b, seed)]] + [Consonants[MiddleConsonantIndex(b)]]
              + [Vowels[LowVowelIndex(b, seed)]] == r + Triplet(b, seed)
  {
  }

  /** Writing a dash group one character at a time. */
  lemma PairTailChars(r: string, b: Byte)
    ensures r + [Consonants[HighNibbleIndex(b)]] + ['-'] + [Consonants[LowNibbleIndex(b)]] == r + PairTail(b)
  {
  }

  /** Writing the seed trailer one character at a time. */
  lemma TrailerChars(r: string, seed: Seed)
    ensures r + [Vowels[seed % 6]] + [Consonants[16]] + [Vowels[seed / 6]] == r + SeedTrailer(seed)
  {
  }

  /** The forward loop over the digest: i reads bytes, j writes characters
      into the growing result, seed is updated after every complete pair. */
  method Encode(digest: seq<Byte>) returns (result: string)
    ensures result == Encoded(digest)
  {
    ghost var target := "x" + Tuples(digest, InitialSeed);
    var seed: int := 1;
    var n := |digest|;
    var i, j := 0, 0;
    result := [];
    result := result + ['x'];
    j := j + 1;

    while true
      invariant 0 <= i <= n
      invariant 0 <= seed < 36
      invariant j == |result|
      invariant target == result + Tuples(digest[i..], seed)
      decreases n - i
    {
      ghost var result0 := result;
      if i >= n {
        EmitTrailer(target, digest, i, seed, result0);
        result := result + [Vowels[seed % 6]];
        j := j + 1;
        result := result + [Consonants[16]];
        j := j + 1;
        result := result + [Vowels[seed / 6]];
        j := j + 1;
        TrailerChars(result0, seed);
        break;
      }

      var byte1 := digest[i];
      i := i + 1;
      result := result + [Vowels[HighVowelIndex(byte1, seed)]];
      j := j + 1;
      result := result + [Consonants[MiddleConsonantIndex(byte1)]];
      j := j + 1;
      result := result + [Vowels[LowVowelIndex(byte1, seed)]];
      j := j + 1;
      TripletChars(result0, byte1, seed);

      if i >= n {
        EmitLast(target, digest, i - 1, seed, result0);
        break;
      }

      var byte2 := digest[i];
      i := i + 1;
      ghost var result1 := result;
      result := result + [Consonants[HighNibbleIndex(byte2)]];
      j := j + 1;
      result := result + ['-'];
      j := j + 1;
      result := result + [Consonants[LowNibbleIndex(byte2)]];
      j := j + 1;
      PairTailChars(result1, byte2);

      EmitPair(target, digest, i - 2, seed, result0);
      seed := NextSeed(seed, byte1, byte2);
    }

    result := result + ['x'];
  }

  /** The digest-then-encode composition of the source's md5. The digest
      function is a parameter; the source uses MD5, whose digest has 16 bytes. */
  function Md5(digestOf: string -> seq<Byte>, value: string): (r: string)
    requires |digestOf(value)| == 16
    ensures |r| == 53
    ensures r[0] == 'x' && r[52] == 'x'
  {
    Encoded(digestOf(value))
  }
}
