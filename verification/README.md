# Shamir secret sharing over GF(2^31 − 1), modelled in Dafny

This project models the algorithmic core of `shamir.go`, a Go program for
Shamir (k, n) threshold secret sharing modulo the prime `PRIME = 2^31 − 1`.
It also proves properties of that model.

The model covers these parts of the program:

- the scheme and its construction;
- the modular inverse;
- the random polynomial, its evaluation and share generation;
- reconstruction by Lagrange interpolation at x = 0;
- the byte-wise adapters that share text one byte at a time and images one
  gray pixel at a time;
- the line formats of the text and image share files.

`big.Int` values are Dafny `int`s. Go's `Mod` is Euclidean, so its results
are never negative, and Dafny's `%` is the same operation. Every Go `panic`
on the modelled paths becomes a `Failure` of the `Outcome.Result` type. The
error kinds are:

| error | Go behaviour it stands for |
|---|---|
| `ThresholdExceedsShares` | the constructor's panic |
| `ThresholdBelowOne` | `make` with a negative threshold (shamir.go:57), `coefficients[0]` when the threshold is 0 (shamir.go:58), or `points[:threshold]` with a negative threshold (shamir.go:111) |
| `NegativeCount` | `make` with a negative share or unit count (shamir.go:90, 296, 302, 356, 362) |
| `InsufficientShares` | the reconstruction panic for too few shares |
| `NoInverse` | `modInverse`'s panic |
| `MissingField` | `parts[1]` or `parts[2]` out of range |
| `MalformedCoordinate` | a coordinate that `SetString` rejects |
| `PixelIndexOutOfRange` | `pixels[idx]` out of range |

## Modules

- `Outcome` — the `Option` and `Result` types and the error kinds.
- `Arith` — facts about Euclidean division, and the extended Euclidean
  algorithm `ExtGcd` with its Bézout identity.
- `Primality` — a proof that 2^31 − 1 is prime, which nothing here assumes.
  - The proof is Lucas' test with primitive root 7, over
    P − 1 = 2·3²·7·11·31·151·331.
  - A counting argument then shows that every nonzero residue is a power of 7.
  - So every nonzero residue has an inverse, and Euclid's lemma holds.
- `Field` — `modInverse`.
- `Polynomial` — evaluation and its loop form. It also has the algebra used
  by the reconstruction proof: synthetic division, and the fact that two
  polynomials of at most k coefficients that agree at k distinct points agree
  everywhere.
- `Shamir` — the scheme, coefficients, share generation and interpolation,
  step by step as the Go loops compute them.
- `Reconstruction` — the proof that interpolation returns the secret.
  - It builds the interpolating polynomial explicitly.
  - It shows that this polynomial agrees with the sharing polynomial at the
    chosen x coordinates.
  - It concludes with the uniqueness lemma.
- `Bytewise` — `ShareText`/`ReconstructText`, and the pixel loops of
  `ShareImage`/`ReconstructImage`. Pixel (x, y) is at index y·width + x.
- `Decimal` — `%d`, `big.Int.String`, `big.Int.SetString(s, 10)`,
  `strconv.Atoi` and `strings.Split(s, " ")` on the strings the share files
  use.
- `ShareFile` — saving and loading share files, as sequences of lines.

The random coefficients are an input: each sharing gets a sequence of
`threshold − 1` draws standing for `rand.Int(rand.Reader, PRIME)`. The
correctness results hold for any draws, so the model does not constrain
their range.

Behaviour of the code that a reader might not expect.
The model follows the code in each case:

- **Threshold below 1.** The constructor only rejects a threshold above the
  number of shares. A threshold of 0 or below is accepted, and share
  generation then fails. A threshold of 0 makes reconstruction return 0.
- **Secrets outside [0, PRIME).** They are not rejected. They come back
  reduced modulo PRIME.
- **Reconstructed values above 255.** They are cut to their low 8 bits
  (`byte(...)`), not rejected.
- **Fewer pixels than width × height.** This makes `ReconstructImage` fail.
- **More pixels than width × height.** The extra pixels are ignored.
- **The loaders do not reject malformed files:**
  - a count that does not parse reads as 0;
  - a missing line reads as empty;
  - lines after the declared body are ignored.

## Model

| member | source | states |
|---|---|---|
| Primality.EveryUnitIsPower | shamir.go:17-17 | every residue 1 ≤ r < PRIME is 7^i for some i < PRIME − 1, that is, 2^31 − 1 is prime with primitive root 7 |
| Primality.InverseExists | shamir.go:17-17 | every residue that is not 0 modulo PRIME has an inverse in [0, PRIME) |
| Primality.EuclidPrime | shamir.go:17-17 | a product is 0 modulo PRIME only if one of its factors is |
| Field.ModInverse | shamir.go:42-53 | a result exists only when it lies in [0, m) and is an inverse of a modulo m; a negative a is reduced first |
| Field.ModInverseComplete | shamir.go:42-53 | `modInverse` reports no inverse exactly when a has no inverse modulo m |
| Field.ModInversePrime | shamir.go:42-53 | modulo PRIME, `modInverse` succeeds exactly on the residues other than 0 |
| Field.SameResidueProduct | shamir.go:43-45 | reducing a negative a modulo m does not change a·b modulo m, so it does not change which b are inverses |
| Polynomial.EvaluatePolynomial | shamir.go:73-85 | the loop's result is the polynomial's value at x reduced into [0, PRIME) |
| Polynomial.PowerSumIsEval | shamir.go:74-82 | the running sum of c_i·x^i after n terms equals the Horner value of the first n coefficients |
| Polynomial.EvalAtZero | shamir.go:58-58 | a polynomial's value at 0 is its first coefficient, the secret |
| Polynomial.Agree | shamir.go:115-150 | two polynomials of at most k coefficients that agree modulo PRIME at k points distinct modulo PRIME agree modulo PRIME everywhere |
| Shamir.NewScheme | shamir.go:31-39 | construction fails with `ThresholdExceedsShares` exactly when threshold > numShares, and keeps both numbers otherwise |
| Shamir.GenerateCoefficients | shamir.go:56-70 | fails exactly when threshold < 1; otherwise threshold coefficients whose value at 0 is the secret, followed by the draws in order |
| Shamir.GenerateShares | shamir.go:88-102 | succeeds exactly when threshold ≥ 1 and numShares ≥ 0, with the matching error otherwise; share i is (i + 1, c(i + 1) mod PRIME) with y in [0, PRIME) |
| Shamir.ThresholdOneShares | shamir.go:56-102 | with threshold 1 every share's y is the secret modulo PRIME |
| Shamir.Denominator | shamir.go:121-141 | the reduced Lagrange denominator lies in [0, PRIME) |
| Shamir.BasisValue | shamir.go:137-145 | the basis value exists exactly when the reduced denominator is not 0, and is numerator·inverse modulo PRIME in [0, PRIME) |
| Shamir.InterpolationSum | shamir.go:113-150 | the running sum succeeds exactly when every denominator so far is invertible, and otherwise fails with `NoInverse` |
| Shamir.LagrangeInterpolation | shamir.go:105-158 | fails with `InsufficientShares` exactly when there are fewer points than the threshold; a result lies in [0, PRIME); it succeeds exactly when every denominator of the first threshold points is invertible |
| Shamir.ExtraPointsIgnored | shamir.go:110-111 | points after the first threshold do not change the result |
| Shamir.ReconstructSecret | shamir.go:161-163 | too few shares give `InsufficientShares`, and a result lies in [0, PRIME) |
| Reconstruction.DenominatorsNonzeroIffDistinct | shamir.go:121-143 | every Lagrange denominator is invertible exactly when the x coordinates are pairwise distinct modulo PRIME |
| Reconstruction.InterpolationRecoversConstantTerm | shamir.go:113-152 | on points with distinct x that lie on a polynomial of at most that many coefficients, the Go sum is the constant term modulo PRIME |
| Reconstruction.InterpolationDefinedIffDistinct | shamir.go:105-158 | with enough points, interpolation succeeds exactly when the first threshold x coordinates are distinct modulo PRIME, and otherwise fails with `NoInverse` |
| Reconstruction.LagrangeInterpolationCorrect | shamir.go:105-158 | if the first threshold points lie on c and have distinct x, interpolation returns c(0) mod PRIME |
| Reconstruction.ReconstructFromAnyShares | shamir.go:88-163 | any threshold or more different generated shares, in any order, reconstruct the secret modulo PRIME, when numShares < PRIME |
| Reconstruction.GenerateThenReconstruct | shamir.go:88-163 | with 1 ≤ threshold ≤ numShares < PRIME, the full share list reconstructs the secret modulo PRIME, and a secret in [0, PRIME) exactly |
| Reconstruction.RepeatedShareFails | shamir.go:123-143 | two shares with the same x among the first threshold make reconstruction fail with `NoInverse` |
| Bytewise.ToByte | shamir.go:184-184 | `byte(v)` keeps v when it is in [0, 256) and is congruent to v modulo 256 |
| Bytewise.ShareBytes | shamir.go:166-177 | succeeds exactly when there is no byte or the scheme can generate shares; entry i is `GenerateShares` of byte i |
| Bytewise.ReconstructBytes | shamir.go:179-188 | succeeds exactly when every share list reconstructs; byte i is the low 8 bits of secret i; a failure is the failure of some share list |
| Bytewise.ShareText | shamir.go:166-177 | one share list per byte of the text, each numShares long and equal to `GenerateShares` of that byte |
| Bytewise.ReconstructText | shamir.go:179-188 | one byte per share list, in the same order, each the low 8 bits of that list's secret |
| Bytewise.ShareBytesRoundTrip | shamir.go:166-188 | reconstructing bytes from the same threshold or more different share positions of every byte gives the bytes back |
| Bytewise.TextRoundTrip | shamir.go:166-188 | `ReconstructText` after `ShareText` gives the text back from any threshold distinct share positions |
| Bytewise.Flatten | shamir.go:207-216 | the flat pixel list has width·height entries |
| Bytewise.FlattenIndex | shamir.go:207-216 | pixel (x, y) lands at index y·width + x of the flat list |
| Bytewise.Unflatten | shamir.go:238-246 | the rebuilt image has height rows of width pixels each |
| Bytewise.UnflattenIndex | shamir.go:241-246 | pixel (x, y) of the rebuilt image is entry y·width + x of the pixel list |
| Bytewise.UnflattenFlatten | shamir.go:207-246 | cutting a flattened image back into rows gives the rows |
| Bytewise.ShareImage | shamir.go:218-226 | one share list per pixel, each `GenerateShares` of that pixel, with the width and height passed on |
| Bytewise.ReconstructImage | shamir.go:229-246 | fails with `PixelIndexOutOfRange` exactly when fewer than width·height pixels were reconstructed; otherwise a well-formed width × height image |
| Bytewise.ReconstructImagePixel | shamir.go:231-246 | pixel (x, y) of the output is the low 8 bits of the secret of share list y·width + x |
| Bytewise.ImageRoundTrip | shamir.go:191-246 | reconstructing the image from any threshold distinct share positions gives back the gray image that was shared |
| Decimal.IntToDecimal | shamir.go:270-276 | the printed number has no space and starts with '-' exactly when it is negative |
| Decimal.ParseDecimal | shamir.go:306-307 | `SetString` succeeds exactly on a sign and at least one digit; the sign of the result follows the text |
| Decimal.Atoi | shamir.go:294-294 | a numeral's value, and 0 for anything else, since the error is dropped |
| Decimal.DecimalRoundTrip | shamir.go:270-307 | parsing a printed number, with `SetString` or `Atoi`, gives it back |
| Decimal.Split | shamir.go:305-305 | at least one piece, none containing a space |
| Decimal.JoinSplit | shamir.go:305-305 | joining the pieces with single spaces gives back the line |
| Decimal.SplitAfterPiece | shamir.go:276-305 | a line "a b" with a free of spaces splits into a, then the pieces of b |
| ShareFile.PointLines | shamir.go:275-277 | one "x y" line per share, in order |
| ShareFile.UnitLines | shamir.go:273-278 | a unit takes one count line plus one line per share |
| ShareFile.UnitsLines | shamir.go:272-279 | all units together take one line per unit plus one line per share |
| ShareFile.SaveText | shamir.go:259-281 | the file has one header line plus one line per unit and per share, and the header reads back as the number of units; `ShareFile.TextFileRoundTrip` is its full contract |
| ShareFile.SaveImage | shamir.go:316-338 | the file has one header line plus one line per unit and per share, and the header splits into three fields that read back as the width, the height and the number of units; `ShareFile.ImageFileRoundTrip` is its full contract |
| ShareFile.ParsePoint | shamir.go:304-308 | succeeds exactly when the line has two fields that are numerals, taking their values; fewer fields give `MissingField` |
| ShareFile.LoadPoints | shamir.go:303-309 | succeeds exactly when each of the m lines parses, and then yields m shares |
| ShareFile.LoadUnits | shamir.go:298-311 | a success yields count units and stops at or after line pos + count |
| ShareFile.LoadText | shamir.go:283-314 | a negative header count fails with `NegativeCount`; a success has as many units as the header says |
| ShareFile.LoadImage | shamir.go:340-374 | a header with fewer than three fields fails with `MissingField`; a success returns the header's width, height and unit count |
| ShareFile.PointLineRoundTrip | shamir.go:276-308 | a saved share line loads back as the share |
| ShareFile.PointsRoundTrip | shamir.go:275-309 | a unit's saved share lines load back as its shares, whatever surrounds them |
| ShareFile.UnitsRoundTrip | shamir.go:273-311 | saved units load back, and reading stops right after them |
| ShareFile.TextFileRoundTrip | shamir.go:259-314 | loading a saved text share file returns the shares, whatever lines follow |
| ShareFile.ImageFileRoundTrip | shamir.go:316-374 | loading a saved image share file returns the shares, the width and the height |
| ShareFile.EmptyFiles | shamir.go:290-354 | an empty text share file holds no units, and an empty image share file fails with `MissingField` |

## Left out

- Randomness: `rand.Int` and its failure (shamir.go:62-65) are replaced by
  caller-supplied draws. The secrecy claim that fewer than threshold shares
  reveal nothing is probabilistic and is not modelled.
- File I/O: `os.Open`, `os.Create` and `bufio` writers are left out. A file
  is modelled as its sequence of lines.
- Line splitting: the scanner's line splitting is left out, including the
  removal of '\r' and the 64 KiB token limit.
- Images: decoding and encoding (`image.Decode`, `png.Encode`) and the
  `color.GrayModel` conversion are library code. The model starts from the
  gray levels and ends with the gray image.
- The interactive `main` is left out.
- `big.Int` internals are left out: the model uses its own extended
  Euclidean algorithm in place of `big.Int.ModInverse`.
- `ShareFile.ParsePoint`, `ShareFile.LoadPoints`, `ShareFile.LoadUnits`,
  `ShareFile.LoadText`, `ShareFile.LoadImage`: a coordinate that `SetString`
  rejects makes loading fail here. The Go loader instead stores a nil
  coordinate, loads the rest of the file, and fails only when that share is
  used. So these loaders succeed on fewer files than the Go ones.
- `Decimal.Atoi`: the 64-bit range limit of `strconv.Atoi` is not modelled,
  so a huge count parses to its exact value.
- `Bytewise.ReconstructImage`: width and height are natural numbers here.
  The Go function takes `int`s, and with a negative dimension its loops do
  not run.
- `Field.ModInverse`: requires m > 0. Go panics on m = 0, and the program
  only calls it with PRIME.
- `Reconstruction.ReconstructFromAnyShares`: requires numShares < PRIME.
  Beyond that, the x coordinates of two shares can coincide modulo PRIME.
- Two normalisations are unreachable: `denominator < 0` after `Mod`
  (shamir.go:139-141) and `secret < 0` after `Mod` (shamir.go:153-155).
  Euclidean `Mod` never returns a negative value, so the model omits both
  branches.
