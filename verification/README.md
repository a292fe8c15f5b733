# Cookbook: a verified model

Cookbook is an artifact registry written in C with its own cryptography, token handling, policy engine and
publish lifecycle. This project models its hardest parts in Dafny and proves what they promise.

| files | what they model |
|---|---|
| Words, Digits, Buffer | machine words as bounded integers, little-endian bytes, digit sums, text in a buffer of fixed size |
| Field, FieldBytes, FieldPow, FermatField | arithmetic modulo 2^255-19 on five 51-bit limbs, packing, addition chains |
| Groups, Edwards, Ge, Compress | the abstract group, the curve formulas on limbs, point encoding |
| Slide, ScalarMult, Scalar, ScalarBytes | digit recodings, table-driven scalar multiplication, arithmetic modulo the group order L |
| Signature | Ed25519 key generation, signing and verification, and that a signature made verifies |
| Sha, ShaStream | SHA-256 and SHA-512 buffering and padding over an open compression function |
| Tls | the TLS 1.3 record layer over an open AEAD, and a whole session |
| Registry | publish, yank and reconcile as a state machine, and the handlers that refine it |
| Revocation | the bounded revocation list, its table, and restarts |
| RateLimit | the per-subject limiter |
| Text, JsonText, Policy, Grid | the policy printer and scanner, the decision, and the hop through request headers |
| SemVer, SemVerText | version parsing, precedence and ranges |
| ConnPool | the connection pool and socket ownership |
| Wrappers | the option type |

Every uint64_t, int64_t and 128-bit intermediate of the arithmetic is a subset type of the integers (u64, i64, u128,
i8, byte), so each assignment is also a proof that the C type does not overflow. Shifts are divisions and masks are
remainders.

## Hypotheses

The Ed25519 theorems about points are stated for parameters that satisfy:

- `FermatField.Fermat`: z^(p-1) = 1 for every z not divisible by p = 2^255-19, that is, p is prime.
- `Edwards.IsEdwards`: Edwards addition on the curve is complete and a commutative group.
- `ScalarMult.IsBaseTable` and `ScalarMult.IsOddPrecomp`: the precomputed tables hold the multiples of B their
  positions stand for.
- L·B is the neutral element (`Signature.SignThenVerify` only).
- `Signature.IsCompression`: the SHA-512 transform keeps eight chaining words eight. `Tls.IsAead`: opening undoes sealing.

The limb arithmetic, the byte formats, the addition chains, the recodings and the reductions modulo L need none of
these.

## What the proofs found

- `SemVer.ConventionIffNoGap`: the comment in cookbook_semver.c lines 200 to 202 says a pre-release matches only a range
  that targets its own major.minor.patch. Bounded ranges do not apply that rule.
- `Revocation.NeverAcceptedIff`: a token verifies at the second it expires while its revocation entry may already be
  pruned, and a token without an expiry verifies forever while its entry is pruned by the next revocation. The
  documentation promises that revoked tokens stay revoked.
- `Registry.ImmutableIff`: an accepted countersignature, an accepted now.pasta.sha256 and a key of exactly 511 characters
  can be overwritten by later uploads; every other accepted key cannot. This is about the artifact handlers; the object
  cache and graph handlers, which store under objects/ and graphs/, are not part of this model.
- `Registry.PublishedEarlyIff`: the probe for now.pasta is cut at 511 characters, so a coordinate whose key is longer can
  be published without its descriptor, by a file or a countersignature stored at the cut key.
- `Registry.PublishesIffOwnKey`: the comment in cookbook_server.c lines 2394 to 2395 says the upload of now.pasta will
  publish. It does so only under the path the descriptor itself names, or where a sidecar key cut at the buffer's end is
  that very key.
- `Policy.PrintedFaithfullyIff`: the printer makes no room for the 13 characters between the two maps (cookbook_policy.c
  line 190). Where fewer than 14 bytes are left, for example after two grants of 221 to 223 characters in all, the text
  ends there and its excludes no longer override.
- `Grid.HopPreservesIff`: an empty grant map, which allows nothing, is forwarded as an empty header, which allows
  everything. And the peer rebuilds the exclude map in a buffer of three times the header plus 16 bytes
  (cookbook_server.c line 785): with n keys of S characters in all and 5n > 2S + 12, as for five one-letter keys, the
  map loses its end and every exclude is skipped. At 5n = 2S + 12 the text is whole, but its terminator is stored one
  byte past the buffer.
- `Tls.ComesBackIff`: the sender takes payloads of more than 16623 bytes, which do not come back. The receiver refuses
  the length in the header or, from 65519 bytes on, where the length has wrapped, may cut the record short.
- `ConnPool.BoundSurvivesIffFits`: a host name of 256 characters or more is stored under a shorter name that the per-host
  count does not see. It matters for bounds below 128, the size of the pool.
- `RateLimit.AnySpan`: the exact number of calls that pass in a span of any length, and it is reached. 2·limit calls can
  pass within clock readings 60 seconds apart, and since readings are cut to whole seconds that can be less than 60
  seconds; within readings less than 60 apart it is one fewer.
- `Signature.SecondFormIff`: verification tests only that S is below 2^253 where RFC 8032 asks for S < L, so nearly every
  signature has a second accepted form. `Compress.CanonicalIff`: decoding also accepts a y of p or more and the sign bit
  on x = 0.
- `SemVer.Section11Iff`: two numeric identifiers of LONG_MAX and more are taken for the same number.

## Model

| member | source | states |
|---|---|---|
| `Field.FeAdd` | src/main/c/cookbook_ed25519.c:223-230 | limb-wise sum: the value is the sum, and limb bounds add up without 64-bit overflow |
| `Field.FeSub` | src/main/c/cookbook_ed25519.c:232-248 | the difference modulo 2^255-19: the subtrahend is carried and 2p added first, so no limb goes below zero, and each limb bound grows by the stated amount only |
| `Field.FeNeg` | src/main/c/cookbook_ed25519.c:250-255 | the negation modulo 2^255-19, tight limbs |
| `Field.CarryPass` | src/main/c/cookbook_ed25519.c:236-241 | one carry pass subtracts a multiple of p and leaves limbs 1 to 4 below 2^51 and limb 0 barely above |
| `Field.CarryColumns` | src/main/c/cookbook_ed25519.c:276-282 | 128-bit columns become five tight limbs with the same value modulo p; no carry leaves its 64- or 128-bit type |
| `Field.MulColumnsValue` | src/main/c/cookbook_ed25519.c:260-274 | the five columns with the 19-folded wrap-around have the value f·g modulo p |
| `Field.MulColumnsBounded` | src/main/c/cookbook_ed25519.c:260-274 | every column of loose limbs stays below the 128-bit bound the carry chain needs |
| `Field.FeMul` | src/main/c/cookbook_ed25519.c:257-283 | the product modulo p, tight limbs, for all loose limbs |
| `Field.SqColumnsAreMulColumns` | src/main/c/cookbook_ed25519.c:287-296 | the squaring columns with doubled and pre-multiplied limbs equal the multiplication columns of f with itself |
| `Field.FeSq` | src/main/c/cookbook_ed25519.c:285-305 | the square modulo p, tight limbs, for all loose limbs |
| `Field.FeSq2` | src/main/c/cookbook_ed25519.c:307-329 | twice the square modulo p, under the tighter limb bound doubling needs |
| `Field.Sq2OverflowsOnLooseLimbs` | src/main/c/cookbook_ed25519.c:320-328 | the tighter bound is needed: on limbs fe_mul accepts, a doubled carry no longer fits 64 bits |
| `FieldBytes.FeFromBytes` | src/main/c/cookbook_ed25519.c:341-348 | five overlapping 64-bit loads give the low 255 bits of the 32 bytes |
| `FieldBytes.Canonical` | src/main/c/cookbook_ed25519.c:368-385 | the last two passes subtract p exactly when the value has reached it |
| `FieldBytes.PackWords` | src/main/c/cookbook_ed25519.c:387-391 | four 64-bit words hold the value of five canonical limbs |
| `FieldBytes.FeToBytes` | src/main/c/cookbook_ed25519.c:350-397 | 32 bytes whose little-endian value is the unique representative in [0,p), for all limbs whose carries fit 64 bits |
| `FieldBytes.Repack` | src/main/c/cookbook_ed25519.c:341-397 | tobytes after frombytes is reduction modulo p of the low 255 bits |
| `FieldBytes.FeIsNegative` | src/main/c/cookbook_ed25519.c:399-404 | the parity of the canonical representative |
| `FieldBytes.FeIsZero` | src/main/c/cookbook_ed25519.c:406-414 | 1 exactly when the value is congruent to 0 |
| `FieldBytes.CmovLimb` | src/main/c/cookbook_ed25519.c:334-337 | the masked exclusive-or selects one of two limbs |
| `FieldBytes.FeCmov` | src/main/c/cookbook_ed25519.c:331-339 | the second element when b is 1, else the first |
| `FieldPow.SqPowerN` | src/main/c/cookbook_ed25519.c:428-450 | a loop of n squarings raises the exponent by 2^n |
| `FieldPow.Extend` | src/main/c/cookbook_ed25519.c:428-448 | one link of the chain: from 2^a-1 and 2^b-1 to 2^(a+b)-1 |
| `FieldPow.FeInvert` | src/main/c/cookbook_ed25519.c:416-452 | z^(2^255-21) modulo p for every loose z |
| `FieldPow.FePow22523` | src/main/c/cookbook_ed25519.c:454-490 | z^(2^252-3) modulo p for every loose z |
| `FermatField.Inverse` | src/main/c/cookbook_ed25519.c:416-452 | with Fermat's little theorem for p, z^(2^255-21) is the inverse of every nonzero z |
| `Edwards.DValue` | src/main/c/cookbook_ed25519.c:496-496 | the fraction -121665/121666 modulo p has exactly one value, the one the code stores |
| `Edwards.Constants` | src/main/c/cookbook_ed25519.c:496-498 | the limbs are those of d = -121665/121666, of 2d and of a square root of -1 |
| `Edwards.UnifiedAdd` | src/main/c/cookbook_ed25519.c:597-611 | the extended-coordinate addition formulas give the Edwards sum (section 5.1.4 of RFC 8032) and an invertible denominator |
| `Edwards.DblCore` | src/main/c/cookbook_ed25519.c:546-558 | the doubling formulas give the Edwards double |
| `Ge.P1P1ToP2` | src/main/c/cookbook_ed25519.c:518-523 | the same point in projective coordinates, limbs tight |
| `Ge.P1P1ToP3` | src/main/c/cookbook_ed25519.c:525-531 | the same point in extended coordinates with T = XY/Z, limbs tight |
| `Ge.P3ToCached` | src/main/c/cookbook_ed25519.c:538-544 | the cached form of the same point, limbs within the addition's bounds |
| `Ge.P2Dbl` | src/main/c/cookbook_ed25519.c:546-558 | represents the double of the point; limbs stay within what the next step accepts |
| `Ge.P3Dbl` | src/main/c/cookbook_ed25519.c:560-565 | represents the double of the point |
| `Ge.Madd` | src/main/c/cookbook_ed25519.c:567-580 | represents the sum with a precomputed point |
| `Ge.Msub` | src/main/c/cookbook_ed25519.c:582-595 | represents the difference with a precomputed point |
| `Ge.AddCached` | src/main/c/cookbook_ed25519.c:597-611 | represents the sum with a cached point |
| `Ge.SubCached` | src/main/c/cookbook_ed25519.c:613-627 | represents the difference with a cached point |
| `Compress.ToBytes` | src/main/c/cookbook_ed25519.c:629-647 | whatever the denominator, the 32 bytes are the encoding of the affine point |
| `Compress.SquareRoot` | src/main/c/cookbook_ed25519.c:660-678 | finds x with v·x^2 = u on the direct or the sqrt(-1) branch, and fails only when there is none |
| `Compress.ApplySign` | src/main/c/cookbook_ed25519.c:680-681 | negates when the parity equals the sign bit, so a nonzero x ends with the opposite parity |
| `Compress.FromBytesNegate` | src/main/c/cookbook_ed25519.c:649-685 | on success Z=1, T=XY, the point is on the curve over the encoded y and nonzero X has the opposite parity; it succeeds exactly when some point has that y, and an encoded point comes back negated |
| `Compress.DecodesOnce` | src/main/c/cookbook_ed25519.c:649-685 | at most one point meets that description, so decoding is a function |
| `Compress.EncodedDecodes` | src/main/c/cookbook_ed25519.c:629-685 | decompression after compression is negation |
| `Compress.CanonicalIff` | src/main/c/cookbook_ed25519.c:649-685 | bytes that decode are the encoding of their point exactly when y is below p and the sign bit is not set on x = 0, the two cases section 5.1.3 of RFC 8032 refuses |
| `Compress.OtherEncodings` | src/main/c/cookbook_ed25519.c:649-685 | the code accepts both: p + 1, and the sign bit on y = 1, decode to the neutral element |
| `ScalarMult.CtNegative` | src/main/c/cookbook_ed25519.c:701-705 | the sign bit |
| `ScalarMult.CtEqual` | src/main/c/cookbook_ed25519.c:691-699 | 1 exactly when the two chars are equal |
| `ScalarMult.CtAbs` | src/main/c/cookbook_ed25519.c:717-718 | the absolute value by masking in unsigned arithmetic |
| `ScalarMult.Cmov8` | src/main/c/cookbook_ed25519.c:714-734 | selects b times the base of the row for every b in [-8,8], the neutral element for 0 |
| `ScalarMult.Radix16` | src/main/c/cookbook_ed25519.c:2150-2161 | 64 digits in [-8,8] that sum to the scalar in radix 16, for all scalars below 2^255 |
| `ScalarMult.Half` | src/main/c/cookbook_ed25519.c:2165-2180 | 32 table additions accumulate the even or odd digits weighted by 256^k; every index is inside the table |
| `ScalarMult.TimesSixteen` | src/main/c/cookbook_ed25519.c:2171-2174 | four doublings multiply by 16 |
| `ScalarMult.ScalarmultBase` | src/main/c/cookbook_ed25519.c:2141-2181 | a·B for every scalar below 2^255 |
| `ScalarMult.OddMultiples` | src/main/c/cookbook_ed25519.c:2222-2232 | the table A, 3A, ..., 15A |
| `ScalarMult.DigitStep` | src/main/c/cookbook_ed25519.c:2241-2259 | one doubling and up to two signed table additions take xA+yB to (2x+d)A+(2y+e)B |
| `ScalarMult.DoubleScalarmult` | src/main/c/cookbook_ed25519.c:2209-2261 | a·A + b·B for all scalars below 2^255 |
| `Slide.AddCarry` | src/main/c/cookbook_ed25519.c:2198-2201 | adds 2^k to the bits above and always finds a zero in time: no carry is lost off the end |
| `Slide.Window` | src/main/c/cookbook_ed25519.c:2191-2205 | one window keeps the sum and leaves an odd digit in [-15,15] with four zeros above |
| `Slide.SlideVartime` | src/main/c/cookbook_ed25519.c:2183-2207 | digits that sum to the scalar, each zero or odd in [-15,15], nonzero ones at least five apart, for all scalars below 2^255 |
| `Scalar.Fold` | src/main/c/cookbook_ed25519.c:2308-2310 | replacing limb i by its multiples of the six constants subtracts a multiple of L: same residue, no int64 overflow |
| `Scalar.CarryRound` | src/main/c/cookbook_ed25519.c:2332-2343 | a rounding carry keeps the value and leaves the limb in [-2^20, 2^20) |
| `Scalar.CarryFloor` | src/main/c/cookbook_ed25519.c:2387-2398 | a floor carry keeps the value and leaves the limb in [0, 2^21) |
| `Scalar.ReduceHigh` | src/main/c/cookbook_ed25519.c:2308-2343 | folding limbs 23 to 18 and the carries keep the residue and the bounds |
| `Scalar.ReduceMiddle` | src/main/c/cookbook_ed25519.c:2345-2381 | folding limbs 17 to 12 and the carries keep the residue and the bounds |
| `Scalar.BeforeFloor` | src/main/c/cookbook_ed25519.c:2383-2387 | the value entering the floor carries lies strictly between -2^252 and 2^252 |
| `Scalar.SignLimb` | src/main/c/cookbook_ed25519.c:2387-2400 | after the floor carries limb 12 is -1 for a negative value and 0 otherwise |
| `Scalar.ReduceLow` | src/main/c/cookbook_ed25519.c:2383-2414 | the tail adds L exactly to negative values, so the limbs are the canonical residue |
| `Scalar.Reduce` | src/main/c/cookbook_ed25519.c:2308-2414 | any 24 limbs below 2^31 in size become their residue modulo L |
| `ScalarBytes.Unpack` | src/main/c/cookbook_ed25519.c:2280-2303 | the 21-bit limbs have the little-endian value of the bytes |
| `ScalarBytes.Pack` | src/main/c/cookbook_ed25519.c:2416-2447 | 32 bytes with the value of twelve canonical limbs |
| `ScalarBytes.ScReduce` | src/main/c/cookbook_ed25519.c:2278-2448 | the first 32 bytes become the 64-byte value modulo L; the rest is untouched |
| `ScalarBytes.SumsValue` | src/main/c/cookbook_ed25519.c:2498-2521 | the 23 product columns have the value a·b+c |
| `ScalarBytes.ScMulAdd` | src/main/c/cookbook_ed25519.c:2450-2688 | the 32-byte value of (a·b+c) mod L, for all 32-byte inputs |
| `Signature.Hash` | src/main/c/cookbook_ed25519.c:119-167 | up to three updates of a SHA-512 context and its final give the SHA-512 of the concatenation, the eight words in order and each most significant byte first |
| `Signature.Clamp` | src/main/c/cookbook_ed25519.c:2702-2704 | of the lower half of the hash, bits 3 to 253 stay, bit 254 is set, and the others are cleared |
| `Signature.Keygen` | src/main/c/cookbook_ed25519.c:2694-2715 | the public key encodes aB for a = 2^254 + 8·((h mod 2^254) / 8), h the lower half of the SHA-512 of the seed |
| `Signature.Sign` | src/main/c/cookbook_ed25519.c:2717-2750 | R encodes rB and S = (k·a + r) mod L, with a as for the key, r the hash of the upper half and the message, k the hash of R, the public key and the message (section 5.1.6 of RFC 8032) |
| `Signature.Verify` | src/main/c/cookbook_ed25519.c:2752-2779 | accepts exactly when the key decodes, S is below 2^253 and R encodes k·N + S·B for the decoded negated key N, k the hash of R, the key and the message |
| `Signature.SignThenVerify` | src/main/c/cookbook_ed25519.c:2694-2779 | every signature made with a generated key verifies |
| `Signature.TopBitsOfS` | src/main/c/cookbook_ed25519.c:2760-2760 | the test of the top three bits is S < 2^253 |
| `Signature.StandardIff` | src/main/c/cookbook_ed25519.c:2760-2761 | the acceptance of section 5.1.7 of RFC 8032, which asks for S < L, is the code's acceptance together with S < L |
| `Signature.SecondFormIff` | src/main/c/cookbook_ed25519.c:2760-2778 | an accepted signature with S < L has another accepted form with the same R and S modulo L exactly when S + L is below 2^253 |
| `Sha.BlocksAppend` | src/main/c/cookbook_sha256.c:82-86 | folding the compression function over a message splits at block boundaries |
| `Sha.WholeBlocks` | src/main/c/cookbook_sha256.c:82-86 | the block loop is the fold over the whole blocks and stops at the last partial one |
| `ShaStream.Ctx.Update` | src/main/c/cookbook_sha256.c:63-90 | after the call the context holds the old message and the new data, whatever was buffered |
| `Sha.PaddedForm` | src/main/c/cookbook_sha256.c:92-110 | the padded message is the message, 0x80, zeros, and the bit length big-endian, with the fewest zeros that make whole blocks (sections 5.1.1 and 5.1.2 of FIPS 180-4) |
| `Sha.OneShotBytes` | src/main/c/cookbook_sha256.c:112-117 | byte j of the digest is a byte of chaining word j / 4 (or j / 8), the most significant first |
| `ShaStream.InitialValues` | src/main/c/cookbook_sha256.c:55-61 | the initial values are the fractional parts of the square roots of the first eight primes, in 32 and in 64 bits |
| `ShaStream.Ctx.Final` | src/main/c/cookbook_sha256.c:92-118 | the digest is the words after the padded message, in order and big-endian |
| `ShaStream.Ctx.WriteLength` | src/main/c/cookbook_ed25519.c:151-154 | the big-endian bit count, in an 8-byte field for SHA-256 and a 16-byte field for SHA-512 |
| `ShaStream.HashParts` | src/main/c/cookbook_ed25519.c:119-167 | any split of a message into updates gives the same digest, its bytes those of the words after the padded concatenation, for the 64-byte and the 128-byte context |
| `ShaStream.Sha256Parts` | src/main/c/cookbook_sha256.c:55-118 | with the initial values of SHA-256, the init, any updates and the final give the eight words after the padded concatenation, four bytes each, big-endian |
| `Tls.BuildNonce` | src/main/c/cookbook_tls.c:114-118 | the first four bytes of the IV stay, and read from the last byte on, what is exclusive-or'ed into the other eight is the sequence number, least significant byte first |
| `Tls.NonceForm` | src/main/c/cookbook_tls.c:114-118 | that is the nonce of section 5.3 of RFC 8446 |
| `Tls.NonceInjective` | src/main/c/cookbook_tls.c:114-118 | under one IV, different sequence numbers below 2^64 give different nonces |
| `Tls.Session.NoNonceTwice` | src/main/c/cookbook_tls.c:139-180 | over a whole session no two records are sealed under the same nonce |
| `Tls.OpenRecord` | src/main/c/cookbook_tls.c:125-246 | opening what was sealed under the same key, IV and number gives back type and payload and consumes exactly the record |
| `Tls.ComesBackIff` | src/main/c/cookbook_tls.c:139-246 | a record of any payload and type comes back on opening exactly when its type is not 0 and its payload has at most 16623 bytes; a longer one is left before its end, refused or cut at the wrapped length |
| `Tls.OpenPadded` | src/main/c/cookbook_tls.c:228-243 | zeros at the end of what decryption gives are padding, and the last byte before them is the type |
| `Tls.Endpoint.SendRecord` | src/main/c/cookbook_tls.c:139-180 | appends 23, 3, 3, the 16-bit length and the sealed payload with its type behind it, the header as additional data, under the current number, and advances it |
| `Tls.Endpoint.RecvRecord` | src/main/c/cookbook_tls.c:185-246 | takes from the wire what opening the bytes takes, and advances the number exactly when decryption was tried |
| `Tls.Endpoint.Recv` | src/main/c/cookbook_tls.c:927-968 | drains the buffer first, else takes one record, treats an alert as end, returns as much as is there and asked for, and keeps the rest |
| `Tls.ReceiveStep` | src/main/c/cookbook_tls.c:921-968 | one receive against an in-order wire moves the accounting on by at most one record |
| `Tls.Session.constructor` | src/main/c/cookbook_tls.c:897-908 | fresh keys, both numbers zero, nothing pending |
| `Tls.Session.Send` | src/main/c/cookbook_tls.c:921-925 | a payload of up to 16623 bytes joins what was sent; the two counters stay in step with the wire |
| `Tls.Session.Recv` | src/main/c/cookbook_tls.c:927-968 | after any calls the bytes returned are a prefix of the payloads sent, and a call makes progress while any is outstanding |
| `Registry.ProbeIsFull` | src/main/c/cookbook_server.c:1042-1048 | the key try_publish looks for is the descriptor's own key exactly when it fits the buffers |
| `Registry.PutKeeps` | src/main/c/cookbook_server.c:2132-2416 | a PUT keeps every invariant of the tables and the store |
| `Registry.YankKeeps` | src/main/c/cookbook_server.c:1755-1764 | a yank keeps them and un-yanks nothing |
| `Registry.YankSticks` | src/main/c/cookbook_server.c:1755-1764 | in every run, a row that is published when its coordinate is yanked is there, published and yanked, in every later state |
| `Registry.UploadLeaves` | src/main/c/cookbook_server.c:2237-2330 | an accepted upload leaves its bytes, its countersignature and its descriptor digest in the store, for keys of any length but the two where the cut sidecar keys collide |
| `Registry.RefusalLeaves` | src/main/c/cookbook_server.c:2141-2320 | a refused upload leaves nothing under its key and the tables as they were |
| `Registry.LaterUpload` | src/main/c/cookbook_server.c:2400-2406 | an upload of any other file publishes the pending rows of its path's coordinate exactly when their now.pasta is stored, and changes no other row |
| `Registry.NameRules` | src/main/c/cookbook_server.c:479-503 | the accepted groups and artifacts: their lengths and characters, and no two dots in a row |
| `Registry.AcceptedChecked` | src/main/c/cookbook_server.c:2132-2225 | in every run every accepted body was uploaded under a good group and artifact, is not empty, and is ASCII when the file is a now.pasta or a .repro file |
| `Registry.SweepExact` | src/main/c/cookbook_server.c:1123-1133 | reconciling removes exactly the given pending rows and their semver rows |
| `Registry.ReconcileKeeps` | src/main/c/cookbook_server.c:1086-1140 | reconciling removes only pending rows older than the cutoff, and all of them when there are fewer than a hundred; it keeps the invariants |
| `Registry.RunKeeps` | src/main/c/cookbook_server.c:1026-1140 | the invariants hold in every state of every run |
| `Registry.PublishedForever` | src/main/c/cookbook_server.c:1053-1067 | in every run a published row is never removed, demoted or un-yanked |
| `Registry.PublishedComplete` | src/main/c/cookbook_server.c:1026-1068 | in every run a row has its semver row, and a published one its now.pasta in the store when that key fits |
| `Registry.PublishedEarlyIff` | src/main/c/cookbook_server.c:1042-1051 | some run publishes a coordinate without its now.pasta exactly when it passes the descriptor checks, its key is longer than 511 characters and an upload can write the cut key |
| `Registry.LongKeyPublishedEarly` | src/main/c/cookbook_server.c:1042-1051 | for every version that can be a path segment the key length alone decides: early publication is possible exactly above 511 characters |
| `Registry.LongVersion` | src/main/c/cookbook_server.c:2302-2305 | such versions pass the descriptor checks |
| `Registry.AcceptedForever` | src/main/c/cookbook_server.c:2141-2148 | in every run the bytes accepted at a protected key are there ever after |
| `Registry.ImmutableIff` | src/main/c/cookbook_server.c:2237-2330 | among the artifact handlers, accepted bytes never change exactly at the keys that are longer than 511 characters, or shorter and not named like a countersignature or a descriptor digest |
| `Registry.PublishesIffOwnKey` | src/main/c/cookbook_server.c:2394-2396 | an upload of a new descriptor adds its row, not yanked and dated, and its semver row, and publishes it exactly when the descriptor's own key is among the keys it writes |
| `Registry.ShortKeyIsOwn` | src/main/c/cookbook_server.c:2237-2330 | up to 500 characters that means exactly: the upload goes to the descriptor's own key |
| `Registry.OwnKey` | src/main/c/cookbook_server.c:1785-1826 | a path spelled with the descriptor's coordinate is that key |
| `Registry.ValidateAscii` | src/main/c/cookbook_server.c:282-288 | 0 exactly for ASCII without NUL, else one more than the offset of the first other byte |
| `Registry.Server.HandlePut` | src/main/c/cookbook_server.c:2129-2416 | the handler is the PUT step: 409 exactly for good names with the key taken, 201 exactly when every check on names, body and descriptor passes, and nothing changes for an empty or unsound body |
| `Registry.Server.ReconcileStale` | src/main/c/cookbook_server.c:1123-1133 | the delete loop is the reconcile step |
| `Revocation.List.Prune` | src/main/c/cookbook_auth.c:174-185 | compaction in place keeps exactly the unexpired entries in order |
| `Revocation.List.Add` | src/main/c/cookbook_auth.c:187-205 | prunes, succeeds without change on a duplicate, else appends exactly when fewer than 4096 entries are left |
| `Revocation.List.Check` | src/main/c/cookbook_auth.c:207-214 | whether the jti is listed |
| `Revocation.RevokeKeeps` | src/main/c/cookbook_server.c:2922-2968 | revoking keeps: every unexpired row is in memory and every unexpired revocation has a row |
| `Revocation.ReloadComplete` | src/main/c/cookbook_server.c:5415-5423 | a reload whose rows fit takes in every one of them |
| `Revocation.RestartKeeps` | src/main/c/cookbook_server.c:5517-5538 | a restart keeps the invariant, because the unexpired rows never exceed the capacity |
| `Revocation.RevokedUntilExpiry` | src/main/c/cookbook_auth.c:174-214 | in every run a revoked token is listed at every time strictly before its expiry |
| `Revocation.AcceptedUnlessRevoked` | src/main/c/cookbook_server.c:570-581 | in every run a token that was never reported revoked is let through until its expiry |
| `Revocation.NeverAcceptedIff` | src/main/c/cookbook_auth.c:532-534 | a revoked token is turned away in every run exactly when it has an expiry and the clock is not on that very second |
| `Revocation.ForgottenWhileValid` | src/main/c/cookbook_auth.c:174-185 | the failing family: the next revocation prunes the entry while the token still verifies |
| `Revocation.Server.HandleRevoke` | src/main/c/cookbook_server.c:2922-2968 | the handler is the revoke step: it succeeds exactly for an unexpired token with a jti that is listed or for which there is room, and then inserts its row unless there is one |
| `Revocation.Server.Bearer` | src/main/c/cookbook_server.c:570-581 | accepts exactly the unexpired tokens without a jti or whose jti no entry has |
| `Revocation.Server.Start` | src/main/c/cookbook_server.c:5517-5538 | the start-up code is the restart step |
| `RateLimit.AnySpan` | src/main/c/cookbook_server.c:513-551 | while the clock readings move on by d seconds, at most limit·(d/60 + 1) calls of a subject pass when d is a multiple of 60, and at most limit·(d/60 + 2) - 1 otherwise, for every d |
| `RateLimit.MinuteSpan` | src/main/c/cookbook_server.c:537-546 | so 2·limit calls within readings up to 60 seconds apart, and 2·limit - 1 within readings less than 60 apart |
| `RateLimit.AnySpanIsTight` | src/main/c/cookbook_server.c:537-546 | for every limit and every d some run reaches that bound |
| `RateLimit.OneWindowExact` | src/main/c/cookbook_server.c:539-545 | within one window exactly the first limit calls pass |
| `RateLimit.AfterOnly` | src/main/c/cookbook_server.c:520-535 | the state of a subject depends on its own calls alone |
| `RateLimit.Independent` | src/main/c/cookbook_server.c:513-551 | the answer to a call is the same whatever other subjects did |
| `RateLimit.CounterTells` | src/main/c/cookbook_server.c:542-545 | the int counter decides as the count of the window exactly while the count is within the limit, or its low 32 bits lie above the limit and below 2^31 |
| `RateLimit.Limiter.Check` | src/main/c/cookbook_server.c:513-551 | the bucket list answers as the subject's own window exactly while the int counter tells, in particular below 2^31 calls in a window, and keeps every subject's window |
| `JsonText.Scan` | src/main/c/cookbook_policy.c:445-480 | one turn of the scanner's loop |
| `JsonText.TurnForms` | src/main/c/cookbook_policy.c:445-480 | what a turn makes of a key, anything up to a colon, blanks and tabs, and a value of each kind |
| `JsonText.PairsMembers` | src/main/c/cookbook_policy.c:441-481 | scanning a printed map gives its entries back, in order |
| `JsonText.PairsFlags` | src/main/c/cookbook_policy.c:441-481 | scanning a printed exclude map gives its keys back |
| `Policy.WalkGrants` | src/main/c/cookbook_policy.c:483-523 | the walk ends with the best match over all entries |
| `Policy.WalkExcludes` | src/main/c/cookbook_policy.c:525-542 | the walk finds a covering key exactly when there is one |
| `Policy.MatchGrants` | src/main/c/cookbook_policy.c:492-523 | the best match contains the operation exactly when the longest dotted-prefix grant does, or the wildcard where there is no other |
| `Policy.CoversSegments` | src/main/c/cookbook_policy.c:504-514 | the prefix test with its dot is the prefix order on the dotted parts of the two names |
| `Policy.DecidesMeans` | src/main/c/cookbook_policy.c:488-523 | the deciding entry has the most parts among those whose parts are a prefix of the group's, or is the wildcard where there is none |
| `Policy.AuthCheck` | src/main/c/cookbook_policy.c:544-600 | allowed exactly when the located grants text and exclude text permit it |
| `Policy.BareDecided` | src/main/c/cookbook_policy.c:544-600 | on the two objects of a token the check is the policy: longest dotted prefix, wildcard last, excludes override |
| `Policy.BareMeans` | src/main/c/cookbook_policy.c:544-600 | the check allows exactly when the deciding entry has the letter and no exclude's parts are a prefix of the group's |
| `Policy.WrappedDecided` | src/main/c/cookbook_policy.c:544-600 | the same on the text the printer produces |
| `Policy.OrderIrrelevant` | src/main/c/cookbook_policy.c:483-542 | the order of entries does not matter |
| `Policy.MergeUnion` | src/main/c/cookbook_policy.c:141-159 | an array grants exactly the union of its parts' c, r, w and d letters |
| `Policy.Collect` | src/main/c/cookbook_policy.c:141-159 | the two loops compute that union, in order of first occurrence |
| `Policy.Serialize` | src/main/c/cookbook_policy.c:119-216 | the growing buffer ends with the wrapped form of the two maps, cut where the middle part ran out of room |
| `Policy.PrintedWhole` | src/main/c/cookbook_policy.c:190-190 | that text is the whole wrapped form exactly when 14 bytes are left after the last grant |
| `Policy.TwoGrantsCut` | src/main/c/cookbook_policy.c:170-190 | two grants of 221 to 223 characters in all leave fewer |
| `Policy.PrintedDecided` | src/main/c/cookbook_policy.c:119-216 | on the printer's own output the check is the policy when there is room, and the policy without its excludes otherwise |
| `Policy.PrintedFaithfullyIff` | src/main/c/cookbook_policy.c:119-216 | the printed policy decides every group and operation as the policy exactly when there is room or no exclude covers anything granted |
| `Policy.ExcludeLost` | src/main/c/cookbook_policy.c:190-190 | the failing family: an excluded group is granted by the printed text |
| `Policy.BitesExactly` | src/main/c/cookbook_policy.c:525-600 | an exclude covers something granted exactly when the grant that decides its own key is not empty, or a grant that is not empty lies below it |
| `Grid.WriteGrants` | src/main/c/cookbook_server.c:655-691 | the 2048-byte buffer goes on with key:value for the entries read from the JSON, whole exactly while it fits |
| `Grid.WriteExclude` | src/main/c/cookbook_server.c:694-721 | the buffer goes on with the keys read from the JSON, whole exactly while it fits |
| `Grid.BuildHeaders` | src/main/c/cookbook_server.c:647-726 | the two header lines, for version 2 claims with grants only: the whole text when it fits the 2048-byte buffer, a proper prefix of it otherwise |
| `Grid.ReadGrants` | src/main/c/cookbook_server.c:732-769 | the JSON of the header's tokens, which always fits its buffer; nothing for a missing or empty header |
| `Grid.ReadExclude` | src/main/c/cookbook_server.c:774-807 | the JSON of the excluded keys, whole exactly when it is no longer than three times the header plus 16, and a proper prefix otherwise |
| `Grid.RebuildableFits` | src/main/c/cookbook_server.c:786-806 | for n keys of S characters in all that means 5n <= 2S + 12 |
| `Grid.FindHeader` | src/main/c/cookbook_server.c:734-741 | the value of the first header of that name, whatever its case |
| `Grid.CheckGridAuth` | src/main/c/cookbook_server.c:812-822 | open without grants, else the policy check on the texts rebuilt from the two headers |
| `Grid.CellForm` | src/main/c/cookbook_server.c:659-684 | the builder takes an entry with blanks, line ends and commas before it and blanks and colons inside it |
| `Grid.KeyForm` | src/main/c/cookbook_server.c:700-718 | and an excluded key with anything up to the next comma or brace behind it |
| `Grid.HeadersFound` | src/main/c/cookbook_server.c:647-741 | in the header text the builder writes, the reader's lookups by name find the two values |
| `Grid.HeadersArrive` | src/main/c/cookbook_server.c:647-741 | so the printed claims arrive as their two values |
| `Grid.BuildPrinted` | src/main/c/cookbook_server.c:647-726 | from printed claims the builder writes exactly their header texts |
| `Grid.ParsePrinted` | src/main/c/cookbook_server.c:732-807 | reading those headers gives back the original texts, unless empty; of the excludes what the buffer holds, and all when 5n <= 2S + 12 |
| `Grid.HopKeepsDecision` | src/main/c/cookbook_server.c:647-822 | for a non-empty grant map and excludes within that bound the peer decides as the sender, for every group and operation |
| `Grid.HopDropsExcludes` | src/main/c/cookbook_server.c:786-822 | beyond the bound the peer decides by the grants alone |
| `Grid.FiveKeysDropped` | src/main/c/cookbook_server.c:786-822 | five one-letter keys are beyond the bound and four within: with a to e excluded the sender denies what the peer allows |
| `Grid.EmptyGrantsOpen` | src/main/c/cookbook_server.c:741-741 | an empty grant map arrives as open access |
| `Grid.HopPreservesIff` | src/main/c/cookbook_server.c:647-822 | the hop preserves every decision exactly when the grant map is not empty and the excludes are within the bound or cover nothing granted |
| `SemVerText.ParseExact` | src/main/c/cookbook_semver.c:7-54 | the parser accepts exactly the texts of the grammar and reads each one way |
| `SemVerText.ParseParts` | src/main/c/cookbook_semver.c:7-54 | a text that parses is three runs of digits with dots, and the pre-release and build metadata it was read to have |
| `SemVerText.ParseWritten` | src/main/c/cookbook_semver.c:7-54 | every version with numbers below 2^31, written in the usual way, is read back |
| `SemVerText.NumberValue` | src/main/c/cookbook_semver.c:13-29 | a number below 2^31 is its value, leading zeros change nothing, and from LONG_MAX on it becomes -1 |
| `SemVerText.ReadVersion` | src/main/c/cookbook_semver.c:7-54 | the pointer loops compute that parse |
| `SemVer.ComparePre` | src/main/c/cookbook_semver.c:57-105 | the pointer walk compares the identifier lists |
| `SemVer.CompareOrdered` | src/main/c/cookbook_semver.c:57-112 | the comparison is total, antisymmetric in sign and transitive; build metadata takes no part |
| `SemVer.IdRules` | src/main/c/cookbook_semver.c:76-97 | numbers are compared by value, text by the first different character or the length, and numbers come before text |
| `SemVer.ListRules` | src/main/c/cookbook_semver.c:66-104 | behind equal identifiers the first different one decides, and fewer come before more |
| `SemVer.CompareFits` | src/main/c/cookbook_semver.c:107-112 | no int subtraction overflows on parsed versions |
| `SemVer.IdsDecided` | src/main/c/cookbook_semver.c:66-104 | the comparison is section 11 of SemVer 2.0.0 on the identifiers with every number beyond LONG_MAX taken for LONG_MAX: equal only on equal lists, negative exactly when before |
| `SemVer.IdsJoin` | src/main/c/cookbook_semver.c:66-98 | splitting at dots undoes joining |
| `SemVer.PrereleaseOrder` | src/main/c/cookbook_semver.c:57-105 | section 11.3 and 11.4 on the texts, with the same proviso |
| `SemVer.Section11` | src/main/c/cookbook_semver.c:57-112 | the comparison is the precedence of section 11 of SemVer 2.0.0 on versions whose numbers beyond LONG_MAX are taken for LONG_MAX: negative exactly when a precedes b by the first differing core number or the pre-release rules, zero exactly on equal cores and identifiers |
| `SemVer.Section11Iff` | src/main/c/cookbook_semver.c:57-112 | it is the precedence of the versions as they are exactly when the cores differ, or the first different identifiers are not two numbers of LONG_MAX and more, or what follows those is ordered as they are |
| `SemVer.MergedPair` | src/main/c/cookbook_semver.c:80-92 | the failing input: LONG_MAX and LONG_MAX + 1 are different identifiers that compare as equal |
| `SemVer.ExactMatches` | src/main/c/cookbook_semver.c:205-206 | an exact range holds the versions that differ at most in build metadata and in numbers beyond LONG_MAX |
| `SemVer.WildcardInterval` | src/main/c/cookbook_semver.c:240-246 | on releases a wildcard is everything, one major line or one minor line, as intervals of the order; it holds no pre-release |
| `SemVer.BoundedInterval` | src/main/c/cookbook_semver.c:248-263 | the interval between the bounds, each of which belongs when it is inclusive |
| `SemVer.CaretInterval` | src/main/c/cookbook_semver.c:208-226 | on releases caret is exactly the half-open interval of the comments; of pre-releases exactly those of its own core that are not before it |
| `SemVer.TildeInterval` | src/main/c/cookbook_semver.c:228-238 | the same for tilde |
| `SemVer.PrereleaseNeedsCore` | src/main/c/cookbook_semver.c:200-246 | outside bounded ranges a pre-release matches only its own major.minor.patch |
| `SemVer.BoundedAdmitsForeignPrerelease` | src/main/c/cookbook_semver.c:248-263 | a bounded range admits a pre-release of another core |
| `SemVer.ConventionIffNoGap` | src/main/c/cookbook_semver.c:198-266 | the pre-release convention of lines 200 to 202 holds of a range exactly when it is not bounded or no core lies strictly between its bounds |
| `ConnPool.Pool.constructor` | src/main/c/cookbook_connpool.c:35-42 | an empty pool with the defaults for non-positive arguments |
| `ConnPool.Pool.Prune` | src/main/c/cookbook_connpool.c:48-60 | compaction in place keeps the fresh entries in order and closes the others |
| `ConnPool.Pool.Get` | src/main/c/cookbook_connpool.c:62-92 | hands out an unexpired connection to this very destination, or dials when there is none; conservation and the per-host bound are kept |
| `ConnPool.Pool.Put` | src/main/c/cookbook_connpool.c:94-124 | keeps or closes the socket; conservation is kept, and the per-host bound when the name fits or the bound is no less than the pool |
| `ConnPool.Pool.Destroy` | src/main/c/cookbook_connpool.c:126-137 | closes every idle connection |
| `ConnPool.PruneConserves` | src/main/c/cookbook_connpool.c:51-58 | pruning keeps or closes each connection, never both |
| `ConnPool.SwapOutIdle` | src/main/c/cookbook_connpool.c:75-77 | swap-removal takes out exactly one connection |
| `ConnPool.TakeStep` | src/main/c/cookbook_connpool.c:70-80 | handing out keeps the law that every connection is idle, closed or held, exactly once |
| `ConnPool.PutStep` | src/main/c/cookbook_connpool.c:116-121 | so does keeping one |
| `ConnPool.CloseStep` | src/main/c/cookbook_connpool.c:109-113 | and closing one |
| `ConnPool.DrainStep` | src/main/c/cookbook_connpool.c:129-132 | and destroying the pool |
| `ConnPool.BoundSurvivesIffFits` | src/main/c/cookbook_connpool.c:101-121 | the per-host bound survives every put of a name exactly when the name fits its 256-byte field or the bound is 128 and more, the size of the pool |

## Left out

- Field elements and points are values that methods return; update in place and aliasing of output and input limbs are not captured.
- The unrolled carry, load and store chains of sc_reduce, sc_muladd and fe_tobytes are written as index-driven loops, and or-ed disjoint halves as sums.
- The numbers in base_table, Bi and the SHA round constants: the tables are hypotheses, the compression functions parameters.
- Associativity and completeness of Edwards addition, the primality of p and the order of B: hypotheses.
- Timing behaviour of the constant-time selections.
- The rate limiter's linked list of buckets is a sequence; list nodes and malloc failure are not modelled.
- RateLimit.Limiter.Check: an int counter that passes 2^31 - 1 is taken to wrap around, where C leaves the overflow undefined; the clock is taken not to go back in the results about spans.
- Revocation and Registry steps read the clock once each; handlers and the reconcile pass are atomic, so interleavings inside a handler are not modelled.
- Failing database and storage writes: every write succeeds.
- Splitting a request path into group, artifact, version and file name, and the authorization before it: a request carries its parts, and `Registry.Routable` says which parts can come from a path; the bytes of a path are taken as unsigned.
- Registry: the object cache and graph handlers, which store under objects/ and graphs/, and the columns that only record metadata (digests, sizes, reasons, times of publication).
- The triple taken from an archive file name, the outcome of parsing the body of a now.pasta or .repro file, its SHA-256 and the countersignature: inputs of a request.
- ConnPool: a socket number stands for one connection, so reuse of closed descriptors by the operating system is not modelled; the mutex makes each call atomic; dialling is an input.
- Tls: the handshake, key derivation, certificates, unencrypted records before key installation, and socket errors.
- JWT text, base64, signatures over tokens: a token is its verified claims; a jti is what the 64-byte claim field holds.
- The conflation of policies into one tree: its resolved grants and excludes are inputs.
- Buffer: a store past the end of a buffer is taken as lost and reading stops at the end, where C promises nothing; cookbook_server.c lines 799 to 805 store there when the rebuilt exclude map is too long.
- Grid: the web server's splitting of a request into header fields is taken to be `Grid.Fields`: one line each, a name up to the colon, a value behind blanks; the results about the hop are for the claims whose two header lines fit the sender's 2048-byte buffer (`Grid.Fits`) and whose names the headers can carry (`Grid.Plain`).
- cookbook_range_parse: the text forms of ranges; they would only add easy members.
- HTTP routing, S3, OIDC, LDAP, gzip, the database backends, import and start-up code.
