# Bubble Babble encoder

A Dafny model of `BubbleBabble.encode` and `BubbleBabble.md5` from
`lib/bubblebabble.rb`. The Ruby module is a port of Ruby 2.1's
`Digest` bubblebabble. That in turn implements Antti Huima's
"Bubble Babble Binary Data Encoding". It turns a byte string into a
pronounceable ASCII string.

The encoder makes one forward pass over the input, two bytes at a time:

- the first byte of a pair gives a vowel, a consonant and a vowel, shifted by a rolling seed;
- the second byte gives a consonant, `-` and a consonant;
- after a complete pair the seed becomes `(seed * 5 + byte1 * 7 + byte2) % 36`;
- an unpaired last byte ends the loop right after its triplet;
- an input consumed entirely as pairs (also the empty one) ends with the seed trailer
  `vowel[seed % 6]`, `x`, `vowel[seed / 6]`;
- the output opens and closes with `x`.

Two modules, one per concern:

- `bubblebabble.dfy`, module `BubbleBabble`: the alphabets and index arithmetic;
  the specification `Encoded`, a recursive function over byte pairs that threads
  the seed; the imperative `Encode`, the source's `while true` loop over `i`, `j`
  and `seed` with the output buffer, proved equal to `Encoded`; and `Md5`.
- `properties.dfy`, module `BubbleBabbleProperties`: the placement of `x` and `-`,
  the seed trailer for even lengths only, the dash count, prefix stability and
  worked examples.

Bytes are `bv8`, so the shifts and masks read as they do in the source. The seed
of the specification is a subset type `0 <= s < 36`. In `Encode` it is a plain
`int` kept in that range by a loop invariant. Every alphabet lookup is checked
to be in range, `vowel[seed / 6]` included.

The `break` at lib/bubblebabble.rb:43-44 skips the seed trailer after an unpaired
byte. The pair group at lines 49-53 is consonant, `-`, consonant. So the code gives
`"xebax"` for `[0x00]` and `"xebab-byxax"` for `[0x00, 0x00]`, and `GoldenVectors`
proves these values. The code also matches the published "Pineapple" example of
the encoding (`PineappleVector`).

The seed the loop holds when it exits (lib/bubblebabble.rb:43-44, 56) is the
function `SeedAfter` of `properties.dfy`. It folds the update of line 56 over the
complete pairs and ignores an unpaired last byte (`SeedAfterUnpaired`). The
contracts of `TuplesEnd`, `EncodedEnd` and `TuplesConcat` are stated in terms of it.

## Model

| member | source | states |
|---|---|---|
| `BubbleBabble.HighVowelIndex` | lib/bubblebabble.rb:36 | the first vowel index of a byte's triplet, `((b >> 6) & 3) + seed) % 6`, is below 6 |
| `BubbleBabble.MiddleConsonantIndex` | lib/bubblebabble.rb:38 | the consonant index `(b >> 2) & 15` is below 16, so it never selects `x` |
| `BubbleBabble.LowVowelIndex` | lib/bubblebabble.rb:40 | the last vowel index `((b & 3) + seed / 6) % 6` is below 6 |
| `BubbleBabble.HighNibbleIndex` | lib/bubblebabble.rb:49 | the consonant index `(b >> 4) & 15` is below 16 |
| `BubbleBabble.LowNibbleIndex` | lib/bubblebabble.rb:53 | the consonant index `b & 15` is below 16 |
| `BubbleBabble.NextSeed` | lib/bubblebabble.rb:56 | the seed update after a complete pair stays in [0, 36) |
| `BubbleBabble.TrailerIndices` | lib/bubblebabble.rb:25-29 | both trailer vowel indices `seed % 6` and `seed / 6` are below 6 because the seed is below 36, and together they determine the seed |
| `BubbleBabble.Triplet` | lib/bubblebabble.rb:36-41 | a byte's triplet is three characters, none of them `x` or `-` |
| `BubbleBabble.PairTail` | lib/bubblebabble.rb:49-54 | the second byte of a pair emits three characters, no `x`, and `-` exactly in the middle |
| `BubbleBabble.SeedTrailer` | lib/bubblebabble.rb:24-31 | the seed trailer is three characters, no `-`, and `x` exactly in the middle |
| `BubbleBabble.Tuples` | lib/bubblebabble.rb:23-57 | the text between the delimiters has 3n + 3 characters for even n and 3n for odd n |
| `BubbleBabble.Encoded` | lib/bubblebabble.rb:11-61 | the encoding of n bytes has 3n + 5 characters for even n and 3n + 2 for odd n, and starts and ends with `x` |
| `BubbleBabble.Encode` | lib/bubblebabble.rb:11-61 | the loop over `i`, `j` and `seed`, writing the buffer one character at a time, returns exactly `Encoded(digest)` |
| `BubbleBabble.Md5` | lib/bubblebabble.rb:5-7 | encoding a 16-byte digest gives 53 characters that start and end with `x` |
| `BubbleBabbleProperties.SeedAfterUnpaired` | lib/bubblebabble.rb:43-56 | an unpaired last byte does not change the seed |
| `BubbleBabbleProperties.TuplesEnd` | lib/bubblebabble.rb:23-57 | the last three characters before the closing `x` are the seed trailer of the final seed for even n, and the last byte's triplet for odd n |
| `BubbleBabbleProperties.EncodedEnd` | lib/bubblebabble.rb:24-44 | before the closing `x`, even-length input ends with the seed trailer and odd-length input with the last byte's triplet, encoded with the seed left by the bytes before it |
| `BubbleBabbleProperties.TuplesXPositions` | lib/bubblebabble.rb:23-57 | between the delimiters, `x` occurs only as the middle of the seed trailer, and only for even n |
| `BubbleBabbleProperties.EncodedXPositions` | lib/bubblebabble.rb:20-59 | `x` is at position p exactly when p is the first or last position, or n is even and p is the middle of the trailer |
| `BubbleBabbleProperties.TrailerIffEven` | lib/bubblebabble.rb:24-44 | the seed trailer is emitted if and only if n is even, the empty input included |
| `BubbleBabbleProperties.TuplesDashPositions` | lib/bubblebabble.rb:49-53 | between the delimiters, `-` is at q exactly when q = 6k + 4 with k < floor(n/2) |
| `BubbleBabbleProperties.EncodedDashPositions` | lib/bubblebabble.rb:49-53 | `-` is at p exactly when p = 6k + 5 with k < floor(n/2) |
| `BubbleBabbleProperties.TuplesDashCount` | lib/bubblebabble.rb:49-53 | between the delimiters, `-` occurs floor(n/2) times |
| `BubbleBabbleProperties.EncodedDashCount` | lib/bubblebabble.rb:49-53 | `-` occurs exactly floor(n/2) times in the encoding |
| `BubbleBabbleProperties.TuplesConcat` | lib/bubblebabble.rb:23-57 | after an even-length prefix d, the rest is encoded exactly as on its own, starting from the seed d leaves |
| `BubbleBabbleProperties.EncodedPrefixStable` | lib/bubblebabble.rb:23-57 | for even-length d, the encodings of d + e and of d agree on their first 1 + 3m characters, m the length of d |
| `BubbleBabbleProperties.Md5Shape` | lib/bubblebabble.rb:5-7 | encoding a 16-byte digest puts the trailer's `x` at position 50 and holds eight dashes |
| `BubbleBabbleProperties.GoldenVectors` | lib/bubblebabble.rb:12-60 | `[]` gives `"xexax"`, `[0]` gives `"xebax"` and `[0, 0]` gives `"xebab-byxax"` |
| `BubbleBabbleProperties.PineappleVector` | lib/bubblebabble.rb:11-61 | the bytes of `"Pineapple"` give `"xigak-nyryk-humil-bosek-sonax"` |

## Left out

- MD5 (lib/bubblebabble.rb:6) is a foreign library call. `Md5` takes the digest function as a parameter and requires it to return 16 bytes for the given value, as MD5 does (RFC 1321).
- The conversion `digest.to_s.bytes.to_a` (lib/bubblebabble.rb:15) is not modelled. The input is a sequence of bytes.
- The Ruby string that `encode` writes by index is a `seq<char>` that grows by one character per write. Each write in the source goes to index `j == result.length`, which appends.
- lib/check_environment.rb, lib/coderdojo.rb and src/com/coderdojo/mcplugins/Main.java are not part of this model. They are interactive prompts, shell-outs, downloads, file copies, configuration files and JRuby embedding, all I/O.
