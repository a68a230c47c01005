# Verified model of the ZZ9000 software crypto, archive engines and guide layout

This project restates in Dafny the parts of three source files whose
correctness rests on more than reading one body, and proves what they are for.

* `tools/zz9k-crypto-soft.c`: Poly1305 in five 26-bit limbs, ChaCha20 and their
  AEAD (RFC 8439); X25519 in ten 26/25-bit limbs (RFC 7748); the big-integer
  core, P-256 points and RSA PKCS#1 v1.5 verification (RFC 8017); GHASH and GCM
  (NIST SP 800-38D).
* `tools/zz9k-archive.c`: the LHA header parser and its two walks, the
  collision marker of LHA batch extraction, the tar lister and the push-style
  tar extractor, the 7z number, digest, packed-stream and substream tables, and
  the 7z split writer.
* `scripts/md2guide.py`: line wrapping and column widths.

Code that works in place is modelled in place: arrays, classes with the
record's fields, loops with invariants, and parameters that may be one array.
Each such method is tied to a function of its inputs, and the theorems are
about those functions. In the crypto half machine words are number types with a
checked range, so a sum or product that leaves its word does not verify. The
archive half counts in natural numbers; where the code wraps, in either half,
the model writes the modulus out. The limb arithmetic of each
algorithm is connected to a short definition over the integers, over
polynomials with two-valued coefficients, or over sequences.

A function that a method and its specification share is connected to something
else: to the bits or integers it stands for, to a second definition in the words
of the standard, or to the format. `LhaWriter`, `TarWriter`, `TarArchive` and
`SevenZipWriter` define headers, records, tables and whole archives as they are
written, without the readers, and prove that the readers give back what was
written.

Three results say exactly where the code meets its promise:

* the fourfold window growth of the LHA file walk wraps to zero at 2^30 bytes;
  the walk agrees with the in-memory one iff no member is still undecided there
  (`Lha.WalksAgreeIff`), `Lha.LongChainHangs` gives an archive where one is, and
  such archives exist for every length above 2^30 (`Lha.AgreeOnLengthIff`);
* the GCM length block multiplies by eight in 32 bits, which is the standard's
  block, and the tag the standard's tag, iff both lengths are below 2^29
  (`Gcm.LengthBlockExact`, `Gcm.CodedTagExact`);
* the tar lister adds positions and sizes in 32 bits. It returns what it is meant
  to on all archives of a length iff that is below two gibibytes
  (`Tar.RightOnLengthIff`); above, some archives are accepted with entries behind
  their end (`Tar.ListsBehindTheEnd`) and some never come to an end
  (`Tar.LoopsForever`).

The comment above `zz9k_archive_lha_list_file` says its verdicts match the
in-memory walk; the model follows the code, and the first result states how far
that is true.

## Files

| file | content |
|---|---|
| `ModArith`, `Words`, `Bitwise` | congruences, machine words, byte strings as numbers, xor and or |
| `Poly1305`, `ChaCha20`, `ChaChaPoly`, `ChaChaStandard` | RFC 8439 |
| `Field25519`, `Field25519Bytes`, `X25519`, `MontgomeryStep`, `MontgomeryLadder` | RFC 7748 |
| `BigNum`, `P256`, `P256Affine`, `RsaVerify` | big integers, the curve, RFC 8017 |
| `Gf128`, `Ghash`, `Gcm`, `GcmStandard` | polynomials, NIST SP 800-38D |
| `ArchiveNames`, `NameBuffer`, `Paths` | member names, the buffers they are edited in, their components |
| `Lha`, `LhaWriter`, `LhaCollisions`, `LhaHash` | LHA |
| `TarHeader`, `TarReader`, `TarWriter`, `Tar`, `TarStream`, `TarArchive` | tar |
| `SevenZipSplit`, `SevenZipStreams`, `SevenZipWriter`, `CrcPolynomial` | 7z and the CRC |
| `GuideLayout` | the guide converter |

## Model

| member | source | states |
|---|---|---|
| Words.Store32 | tools/zz9k-crypto-soft.c:22-28 | exactly four bytes change, to the word with its low byte first |
| Words.Load32 | tools/zz9k-crypto-soft.c:16-20 | the word is the little-endian number of the four bytes |
| Bitwise.XorBitAt | tools/zz9k-crypto-soft.c:35-41 | every bit of `^` is the sum of the two bits without carry |
| Bitwise.OrBitAt | tools/zz9k-crypto-soft.c:680-683 | every bit of `|` is set when one of the two bits is |
| Poly1305Spec.AccumulateIsPolynomial | tools/zz9k-crypto-soft.c:142-212 | multiplying and adding block by block evaluates the polynomial of section 2.5 of RFC 8439 in r (Horner) |
| Poly1305Spec.BlocksAppend | tools/zz9k-crypto-soft.c:293-309 | cutting a message at a multiple of sixteen bytes cuts its block list |
| Poly1305Spec.NumbersDetermineMessage | tools/zz9k-crypto-soft.c:293-309 | the coefficients of the polynomial determine the message, because of the bit beyond the last byte of each block |
| Poly1305Spec.ClampBits | tools/zz9k-crypto-soft.c:123-127 | clamping keeps exactly the bits of r that the mask of section 2.5 of RFC 8439 has, and clears all others |
| Poly1305.ProductReduces | tools/zz9k-crypto-soft.c:177-186 | the five limb sums with the 5*r_i terms are the product modulo 2^130 - 5, for all integers |
| Poly1305.CarryAfterMul | tools/zz9k-crypto-soft.c:188-205 | one carry pass brings any sums within the multiplication bounds back to limbs below 2^26 (h1 below 2^26 + 64) without a wrap and keeps the residue |
| Poly1305.MaskedLimbs | tools/zz9k-crypto-soft.c:115-139 | the five masked limbs of r are the clamped words, for every key |
| Poly1305.CarryBeforeSelect | tools/zz9k-crypto-soft.c:230-244 | one pass leaves every limb below 2^26 and keeps the residue |
| Poly1305.SelectResidue | tools/zz9k-crypto-soft.c:246-271 | adding 5 and testing the sign selects the canonical residue modulo 2^130 - 5 |
| Poly1305.FinishWords | tools/zz9k-crypto-soft.c:230-285 | the four output words are (residue + s) mod 2^128 |
| Poly1305.State.constructor | tools/zz9k-crypto-soft.c:115-139 | r is the clamped first half of the key, s the second, the accumulator zero |
| Poly1305.State.Block | tools/zz9k-crypto-soft.c:142-212 | acc becomes (acc + block + high bit) * r modulo 2^130 - 5; limb bounds are kept; no word wraps; r and s stay |
| Poly1305.State.Update | tools/zz9k-crypto-soft.c:293-309 | after a whole message the accumulator is congruent to that of section 2.5 of RFC 8439 |
| Poly1305.State.Finish | tools/zz9k-crypto-soft.c:214-291 | the sixteen tag bytes are (acc mod 2^130 - 5, plus s) mod 2^128 |
| Poly1305.Authenticate | tools/zz9k-crypto-soft.c:311-320 | for every message and key the tag is the one of section 2.5 of RFC 8439 |
| ChaCha20.QuarterRound | tools/zz9k-crypto-soft.c:35-41 | the macro on any four distinct words is the quarter round of section 2.1 of RFC 8439 on those places and touches no other |
| ChaCha20.QuarterInverts | tools/zz9k-crypto-soft.c:35-41 | a quarter round can be undone, so no two inputs share an output |
| ChaCha20.FourColumns | tools/zz9k-crypto-soft.c:70-73 | the first four index quadruples are a round down the columns |
| ChaCha20.FourDiagonals | tools/zz9k-crypto-soft.c:74-77 | the other four are a column round between turning row i by i places and back |
| ChaCha20.Rotl32 | tools/zz9k-crypto-soft.c:30-33 | the two shifts move the top bits to the bottom |
| ChaCha20.BlockBytes | tools/zz9k-crypto-soft.c:43-83 | sixty-four bytes of key stream: ten double rounds, added to the initial state, low byte first |
| ChaCha20.Xor | tools/zz9k-crypto-soft.c:85-107 | every byte is xored with key-stream byte i of block counter + i/64 mod 2^32, also when out and in are one array; nothing else changes |
| ChaCha20.CryptTwice | tools/zz9k-crypto-soft.c:85-107 | the cipher undoes itself |
| ChaChaStandard.InitialBytes | tools/zz9k-crypto-soft.c:53-62 | the state starts from the bytes of "expand 32-byte k", the key, the counter and the nonce, in this order |
| ChaChaStandard.BlockIsTwentyRounds | tools/zz9k-crypto-soft.c:64-82 | the block function is twenty rounds, each four quarter rounds by their index quadruples, columns and diagonals in turn |
| ChaChaStandard.CryptIsChacha20 | tools/zz9k-crypto-soft.c:85-107 | the cipher is that of section 2.4: sixty-four bytes at a time, the counter going up by one modulo 2^32 |
| ChaChaStandard.RotlBits | tools/zz9k-crypto-soft.c:30-33 | a rotation moves bit i to bit i + count modulo 32 |
| ChaChaPoly.Segment | tools/zz9k-crypto-soft.c:328-344 | a segment is folded as its zero-padded blocks, from any accumulator |
| ChaChaPoly.FoldInParts | tools/zz9k-crypto-soft.c:346-378 | folding aad, ciphertext and lengths one after another folds the whole construction of section 2.8 of RFC 8439 |
| ChaChaPoly.ComputeTag | tools/zz9k-crypto-soft.c:346-378 | the segment-fed tag is the Poly1305 tag of aad, pad16, ciphertext, pad16 and both 64-bit lengths under the key from block 0 |
| ChaChaPoly.Encrypt | tools/zz9k-crypto-soft.c:380-390 | ciphertext and tag of section 2.8 of RFC 8439, also in place |
| ChaChaStandard.AeadTagIs | tools/zz9k-crypto-soft.c:346-378 | the tag is that of aad, zeros, ciphertext, zeros and both lengths, under the first half of key stream block 0 |
| ChaChaPoly.Decrypt | tools/zz9k-crypto-soft.c:667-690 | accepts exactly the right tag; on any other the output array is untouched; in place too |
| ChaChaPoly.InPlaceRoundTrip | tools/zz9k-crypto-soft.c:380-390 | encrypting and decrypting in place accepts and restores every byte |
| Field25519.ProductCong | tools/zz9k-crypto-soft.c:551-570 | the hundred doubled and 19-fold limb products are the product modulo 2^255 - 19 |
| Field25519.Products | tools/zz9k-crypto-soft.c:551-570 | for limbs within the bounds sub and add leave, every partial sum stays inside int64 |
| Field25519.CarryProducts | tools/zz9k-crypto-soft.c:571-583 | the carries keep the residue and end within the bounds multiplication needs |
| Field25519.Mul | tools/zz9k-crypto-soft.c:546-584 | field multiplication for all limbs within the bounds; output aliasing either input is allowed |
| Field25519.Add | tools/zz9k-crypto-soft.c:517-519 | field addition without a uint32 wrap |
| Field25519.Sub | tools/zz9k-crypto-soft.c:520-534 | field subtraction: 2p is added so that no limb goes below zero |
| Field25519.MulA24 | tools/zz9k-crypto-soft.c:589-603 | multiplication by 121665 |
| Field25519.Sq | tools/zz9k-crypto-soft.c:585-585 | the square |
| Field25519.CSwap | tools/zz9k-crypto-soft.c:412-419 | the elements are exchanged exactly when the bit is set |
| Field25519Bytes.FromBytes | tools/zz9k-crypto-soft.c:428-459 | the limbs are the low 255 bits of the string |
| Field25519Bytes.QuotientIsFloor | tools/zz9k-crypto-soft.c:466-469 | the carry out of adding the estimate is floor(h / p), for every limb vector multiplication can leave |
| Field25519Bytes.Quotient | tools/zz9k-crypto-soft.c:466-469 | the nested shifts compute floor(h / p) |
| Field25519Bytes.ToBytes | tools/zz9k-crypto-soft.c:461-515 | the bytes are the unique representative below p |
| Field25519Bytes.EncodeUndoesDecode | tools/zz9k-crypto-soft.c:428-515 | decoding and encoding gives the string back exactly when it encodes a number below p |
| Field25519Bytes.DecodeUndoesEncode | tools/zz9k-crypto-soft.c:428-515 | encoding and decoding gives the residue back |
| X25519.JoinOnes | tools/zz9k-crypto-soft.c:604-627 | a run of k ones joined with a run of n in the exponent is a run of k + n |
| X25519.Invert | tools/zz9k-crypto-soft.c:604-627 | the addition chain is exactly z^(p - 2), p - 2 = 2^255 - 21 |
| X25519.LadderStep | tools/zz9k-crypto-soft.c:641-650 | one iteration on limbs is one step of section 5 of RFC 7748, with every intermediate within bounds |
| X25519.Iteration | tools/zz9k-crypto-soft.c:639-650 | scalar bit, deferred swap and step follow the integer ladder |
| X25519.ClampedBytes | tools/zz9k-crypto-soft.c:634-634 | masking and setting bits of the first and the last byte makes of any string v the number 2^254 + v mod 2^254 rounded down to a multiple of eight |
| X25519.ScalarBits | tools/zz9k-crypto-soft.c:634-634 | bits 3 to 253 of the scalar are those of the string, bit 254 is set, all others are clear |
| X25519.Ladder25519 | tools/zz9k-crypto-soft.c:629-656 | for every scalar and u-coordinate the output is X25519(k, u) of section 5 of RFC 7748, the scalar bytes changed as the code does |
| X25519.Exchange | tools/zz9k-crypto-soft.c:658-665 | the result is reported as unusable exactly when it is zero |
| Rfc7748.SwapFlagIsBookkeeping | tools/zz9k-crypto-soft.c:638-652 | deferring each swap to the next iteration changes nothing |
| Rfc7748.LadderMultiplies | tools/zz9k-crypto-soft.c:629-656 | wherever a step doubles and adds, the ladder yields k and k + 1 times the point |
| MontgomeryStep.StepIsStepMod | tools/zz9k-crypto-soft.c:641-650 | the ladder step is the following one for n = 2^255 - 19 and A = 486662 |
| MontgomeryStep.StepDoubles | tools/zz9k-crypto-soft.c:641-650 | for every modulus, on points of y^2 = x^3 + A x^2 + x one iteration applies the tangent rule to the first point |
| MontgomeryStep.StepAdds | tools/zz9k-crypto-soft.c:641-650 | and the chord rule to the two points, from their u-coordinates and that of their difference |
| MontgomeryStep.ProductOfChords | tools/zz9k-crypto-soft.c:641-650 | the u-coordinates of sum and difference of two points multiply to ((ac - 1)/(c - a))^2 |
| MontgomeryLadder.SumStays | tools/zz9k-crypto-soft.c:629-656 | the chord-and-tangent law of y^2 = x^3 + A x^2 + x keeps points on the curve |
| MontgomeryLadder.StepStands | tools/zz9k-crypto-soft.c:639-650 | for a scalar bit b one iteration leads from the pair for m and m + 1 to that for 2m + b and 2m + b + 1, also from the pair for 0 and 1 |
| MontgomeryLadder.LadderStands | tools/zz9k-crypto-soft.c:629-656 | so the ladder stands for k and k + 1 times the point, if the multiples it passes have different u-coordinates |
| MontgomeryLadder.LadderAnswers | tools/zz9k-crypto-soft.c:629-656 | and x/z at the end is the u-coordinate of k times the point |
| MontgomeryLadder.X25519IsMultiple | tools/zz9k-crypto-soft.c:629-656 | X25519(k, u) of section 5 of RFC 7748 is the u-coordinate of the multiple of the point that the clamped scalar asks for |
| BigNum.Cmp | tools/zz9k-crypto-soft.c:709-717 | the sign of the difference of the numbers |
| BigNum.AddLimbs | tools/zz9k-crypto-soft.c:720-731 | sum and carry, exact, also in place |
| BigNum.SubLimbs | tools/zz9k-crypto-soft.c:734-745 | difference and borrow, exact, also in place |
| BigNum.MulLimbs | tools/zz9k-crypto-soft.c:748-761 | the exact product, with no 64-bit overflow |
| BigNum.BitAt | tools/zz9k-crypto-soft.c:764-769 | bit i of the number, zero beyond the limbs |
| BigNum.BitLen | tools/zz9k-crypto-soft.c:772-783 | the position of the highest set bit plus one |
| BigNum.Mod | tools/zz9k-crypto-soft.c:786-812 | the remainder, also when the result is the dividend itself |
| BigNum.MulMod | tools/zz9k-crypto-soft.c:815-821 | product modulo m |
| BigNum.PowerStep | tools/zz9k-crypto-soft.c:834-846 | a square-and-multiply step appends one exponent bit |
| BigNum.TopBitsAre | tools/zz9k-crypto-soft.c:834-846 | the bits read are the exponent modulo 2^ebits |
| BigNum.ModExp | tools/zz9k-crypto-soft.c:824-846 | base^(exp mod 2^ebits) mod m for every m > 0 and ebits >= 1; with ebits = 0 the result is 1, which is not 1 mod m when m is 1 |
| P256Curve.LineMeetsCubic | tools/zz9k-crypto-soft.c:998-1037 | reflecting the third intersection of a line with the cubic, as an identity of integers |
| P256Curve.DoubleOnCurve | tools/zz9k-crypto-soft.c:968-995 | doubling maps solutions of Y^2 = X^3 - 3XZ^4 + bZ^6 mod p to solutions, for every modulus and every b |
| P256Curve.AddOnCurve | tools/zz9k-crypto-soft.c:998-1037 | addition does so in every branch: either point at infinity, equal, opposite, different |
| P256Curve.DoubleIsTangentRule | tools/zz9k-crypto-soft.c:968-995 | doubling is the tangent rule on affine points |
| P256Curve.AddIsChordRule | tools/zz9k-crypto-soft.c:998-1037 | addition of points with different x is the chord rule on affine points |
| P256Curve.ScalarOnCurve | tools/zz9k-crypto-soft.c:1040-1053 | every intermediate of the scalar loop lies on the curve |
| P256Curve.ScalarMultiplies | tools/zz9k-crypto-soft.c:1040-1053 | in any monoid where the formulas are the operation, 256 rounds of double-and-add give k times the point |
| P256Affine.DoubleIsLaw | tools/zz9k-crypto-soft.c:968-995 | where residues other than zero have inverses, doubling is the chord-and-tangent law on (X/Z^2, Y/Z^3) in every branch |
| P256Affine.AddIsLaw | tools/zz9k-crypto-soft.c:998-1037 | so is addition, in every branch and for all reduced inputs |
| P256Affine.ScalarIsMultiple | tools/zz9k-crypto-soft.c:1040-1053 | the scalar loop yields the k-fold point of that law, if the law associates on the multiples of the point |
| P256Multiple.ScalarMultiple | tools/zz9k-crypto-soft.c:1040-1053 | so the limb code leaves coordinates of the k-fold point, k being the number in the eight scalar limbs |
| P256Multiple.PrimeOfP256 | tools/zz9k-crypto-soft.c:878-881 | the modulus is 2^256 - 2^224 + 2^192 + 2^96 - 1 |
| P256Point.AddFe | tools/zz9k-crypto-soft.c:900-908 | addition modulo p on eight limbs, also in place |
| P256Point.SubFe | tools/zz9k-crypto-soft.c:910-917 | subtraction modulo p, also in place |
| P256Point.MulFe | tools/zz9k-crypto-soft.c:919-922 | multiplication modulo p, also in place |
| P256Point.DoublePoint | tools/zz9k-crypto-soft.c:968-995 | the limb code computes the doubling formulas, also into its own input |
| P256Point.AddPoints | tools/zz9k-crypto-soft.c:998-1037 | the limb code computes the addition formulas and takes the same branches |
| P256Point.ScalarPoint | tools/zz9k-crypto-soft.c:1040-1053 | the limb code computes the double-and-add recursion over all 256 bits |
| RsaVerify.FromBe | tools/zz9k-crypto-soft.c:849-857 | limbs of a big-endian string |
| RsaVerify.ToBe | tools/zz9k-crypto-soft.c:860-870 | and back |
| RsaVerify.LayoutIsEncoding | tools/zz9k-crypto-soft.c:1217-1231 | the part-by-part layout is the one encoding 00 01 FF..FF 00 DigestInfo hash |
| RsaVerify.ParseEncoding | tools/zz9k-crypto-soft.c:1217-1232 | the scanning parse accepts exactly that string, at least 62 bytes long |
| RsaVerify.PrefixIsDigestInfo | tools/zz9k-crypto-soft.c:1194-1197 | prefix and hash are the DER of a SEQUENCE of the algorithm 2.16.840.1.101.3.4.2.1 (SHA-256) with NULL parameters and the hash as an OCTET STRING |
| RsaVerify.Verify | tools/zz9k-crypto-soft.c:1187-1233 | accepts iff the length matches, signature < n, e > 0, and signature^e mod n is that encoding (sections 8.2.2 and 9.2 of RFC 8017) |
| Gf128.ProductAddLeft | tools/zz9k-crypto-soft.c:1380-1403 | the field product is linear in its first factor |
| Gf128.ProductAddRight | tools/zz9k-crypto-soft.c:1380-1403 | and in its second |
| Gf128.RemIsRemainder | tools/zz9k-crypto-soft.c:1387-1401 | the reduction is long division by x^128 + x^7 + x^2 + x + 1: quotient times modulus plus remainder is the dividend |
| Gf128.LowExponents | tools/zz9k-crypto-soft.c:1387-1401 | the low part of the modulus has exactly the exponents 0, 1, 2 and 7 |
| Gf128.NextBit | tools/zz9k-crypto-soft.c:1387-1401 | one round of the bit loop keeps the reduced product |
| Gf128.TimesOne | tools/zz9k-crypto-soft.c:1380-1403 | the polynomial 1 is neutral |
| Ghash.StepOfBytes | tools/zz9k-crypto-soft.c:1392-1400 | shifting sixteen bytes right and xoring 0xe1 multiplies by x in the field |
| Ghash.ShiftRight | tools/zz9k-crypto-soft.c:1393-1399 | the byte loop from the end shifts the whole string by one bit |
| Ghash.MulInPlace | tools/zz9k-crypto-soft.c:1380-1403 | the result is the full carry-less product reduced modulo the polynomial, in GCM bit order |
| Ghash.Update | tools/zz9k-crypto-soft.c:1407-1421 | any data is hashed as its zero-padded blocks |
| Ghash.HashIsPolynomial | tools/zz9k-crypto-soft.c:1407-1421 | hashing evaluates a polynomial in H whose coefficients are the blocks (section 6.4 of NIST SP 800-38D) |
| Ghash.HashAppend | tools/zz9k-crypto-soft.c:1407-1421 | hashing in two parts is hashing the concatenation |
| Ghash.BitsInjective | tools/zz9k-crypto-soft.c:1380-1403 | different byte strings are different polynomials |
| Gcm.Increment | tools/zz9k-crypto-soft.c:1470-1474 | the last four bytes count up and wrap; the nonce stays |
| Gcm.CounterPass | tools/zz9k-crypto-soft.c:1466-1478 | counter mode from inc32(J0), also in place |
| Gcm.LengthBlockExact | tools/zz9k-crypto-soft.c:1483-1486 | the 32-bit length arithmetic gives the length block of the standard exactly for lengths below 2^29 |
| Gcm.Core | tools/zz9k-crypto-soft.c:1436-1493 | output and tag are the same whether in and out are one array or two, in both directions |
| Gcm.CodedTagIsTag | tools/zz9k-crypto-soft.c:1436-1493 | below 2^29 bytes the tag is the one of section 7.1 of NIST SP 800-38D |
| Gcm.CodedTagExact | tools/zz9k-crypto-soft.c:1436-1493 | for any nonce and any data and aad: the computed tag is the standard tag under every permutation of the blocks exactly when both lengths are below 2^29 |
| Gcm.CryptTwice | tools/zz9k-crypto-soft.c:1466-1478 | counter mode undoes itself |
| GcmStandard.CryptIsGctr | tools/zz9k-crypto-soft.c:1466-1478 | the ciphertext is GCTR of section 6.5 of NIST SP 800-38D from inc32(J0) |
| GcmStandard.TagIsGctr | tools/zz9k-crypto-soft.c:1436-1493 | the tag is GCTR from J0 of GHASH over aad, zeros, ciphertext, zeros and both bit lengths (steps 4 to 6 of section 7.1) |
| Gcm.Encrypt | tools/zz9k-crypto-soft.c:1495-1507 | refuses other key lengths than 16 and 32 without writing; otherwise ciphertext and tag |
| Gcm.Decrypt | tools/zz9k-crypto-soft.c:1509-1532 | accepts exactly the right tag; a wrong one leaves the output all zero; in place too |
| Gcm.InPlaceRoundTrip | tools/zz9k-crypto-soft.c:1495-1532 | encrypting and decrypting in place accepts and restores every byte |
| ArchiveNames.StripTwice | tools/zz9k-archive.c:412-434 | a cleaned name has no "//" and no "/./", and cleaning it again changes nothing |
| NameBuffer.CloseGap | tools/zz9k-archive.c:419-430 | the overlapping memmove: the string behind a gap now starts where the gap did, bytes before it stay |
| NameBuffer.CollapseStep | tools/zz9k-archive.c:422-433 | one turn of the pointer loop, which stays after a change, keeps what remains to be produced |
| NameBuffer.StripInPlace | tools/zz9k-archive.c:412-434 | the in-place edits leave exactly the cleaned string in the buffer |
| NameBuffer.CopyLha | tools/zz9k-archive.c:453-485 | a name of 1 to 255 bytes is copied and cleaned, with both separator bytes turned into slashes; any other length is refused and nothing written |
| NameBuffer.JoinDir | tools/zz9k-archive.c:487-519 | directory and name with one slash between them, cleaned; refused exactly when they do not fit, and then nothing is written |
| NameBuffer.NormalizeInPlace | tools/zz9k-archive.c:4260-4278 | leading "./" removed and the rest cleaned; skipped exactly when nothing or "." is left |
| ArchiveNames.CollapseCleans | tools/zz9k-archive.c:412-434 | one pass leaves no "//" and no "/./" |
| Paths.StripKeeps | tools/zz9k-archive.c:412-434 | cleaning a name keeps the components that lead somewhere, in order |
| Paths.NormalizeKeeps | tools/zz9k-archive.c:4260-4278 | so does normalizing; only a name without such components is skipped |
| Paths.CollapseEnd | tools/zz9k-archive.c:412-434 | a slash at the end stays and none is added |
| Lha.WalkExtensions | tools/zz9k-archive.c:1594-1635 | the loop follows the extension chain and collects name and directory |
| Lha.ParseHeader | tools/zz9k-archive.c:1501-1719 | the tri-state verdict and the entry as a function of window and remaining length |
| Lha.ParsePrefix | tools/zz9k-archive.c:1501-1719 | a short window never changes a verdict: if it does not ask for more, the full view gives the same verdict and entry |
| Lha.CheckSum | tools/zz9k-archive.c:681-706 | the one-byte sum of the header body |
| Lha.TakeExtension | tools/zz9k-archive.c:1605-1632 | one extension: trailing zeros dropped, then a name, a directory or nothing |
| Lha.FinishEntry | tools/zz9k-archive.c:1637-1719 | size correction, range check and the name built in its buffer give the entry as a function of header and chain |
| Lha.SizeFieldSpansExtensions | tools/zz9k-archive.c:1637-1652 | below level 2 header end plus the stored size field is data offset plus compressed size: the field spans extensions and data exactly once, whatever the extension chain |
| Lha.EntryNames | tools/zz9k-archive.c:1660-1714 | every entry name fits its buffer, extensions included, and an entry is a directory if and only if its name ends with a slash |
| Lha.MembersAreLaidOut | tools/zz9k-archive.c:1721-1775 | the listed members lie in the archive one after another, each after a header of at least 24 bytes |
| Lha.ListMembers | tools/zz9k-archive.c:1721-1775 | the in-memory walk: all members counted, the first ones stored, zero on failure |
| Lha.WindowDecides | tools/zz9k-archive.c:1855-1912 | what a window of the file says about a member, for windows short, full and largest |
| Lha.Growth | tools/zz9k-archive.c:1892-1906 | fourfold growth makes progress and stays within 2^30 bytes, except from 2^30, where it wraps to zero |
| Lha.ReadMember | tools/zz9k-archive.c:1855-1915 | re-centring and growing end with the full-view verdict, or in a state that repeats exactly for a stuck member |
| Lha.ListFile | tools/zz9k-archive.c:1799-1949 | the whole windowed walk against its function of the file |
| Lha.WalksAgreeIff | tools/zz9k-archive.c:1799-1949 | the file walk gives the result of the in-memory walk exactly when no member reached is undecided after 2^30 bytes with more to come; otherwise it never ends |
| Lha.SmallArchivesAgree | tools/zz9k-archive.c:1799-1949 | up to one gibibyte the two walks give the same verdict and entries |
| Lha.LongChainHangs | tools/zz9k-archive.c:1892-1912 | an archive above one gibibyte that the in-memory walk accepts and the file walk never gets past |
| Lha.AgreeOnLengthIff | tools/zz9k-archive.c:1892-1912 | the walks give the same result on all archives of a length exactly when that length is at most one gibibyte |
| LhaWriter.AnySpellingIsRead | tools/zz9k-archive.c:470-485 | a name is read the same from every spelling of its separators: slash, backslash or 0xff |
| LhaWriter.ChainIsRead | tools/zz9k-archive.c:1594-1635 | any chain of extensions, names and directories with trailing zeros and others in between, gives the last name and the last directory |
| LhaWriter.HeaderRoundTrip | tools/zz9k-archive.c:1501-1719 | a header written at level 0, 1 or 2, with any names, extensions, method, sizes and CRC and with any bytes behind it, is read as exactly that entry iff it does not start with a zero byte and the data has room |
| LhaWriter.OneByteErrorRefused | tools/zz9k-archive.c:681-706 | at levels 0 and 1 no change of one byte under the checksum goes unnoticed, the level byte apart |
| LhaWriter.ItemsAreListed | tools/zz9k-archive.c:1721-1775 | any written members, one after another, are listed with their names, methods, sizes, CRCs and places |
| LhaWriter.BodiesAreThere | tools/zz9k-archive.c:1721-1775 | and each entry points at the data that was written |
| LhaWriter.WrittenIsListed | tools/zz9k-archive.c:1721-1949 | both walks list a written archive, the one through a window up to one gibibyte |
| LhaCollisions.NameHash | tools/zz9k-archive.c:8446-8456 | FNV-1a of the case-folded name, never zero |
| LhaCollisions.InitSlot | tools/zz9k-archive.c:8458-8481 | trailing slashes are dropped; hash zero exactly for entries without a name |
| LhaCollisions.CompareNames | tools/zz9k-archive.c:8510-8531 | the comparator is a total order: folded names, then index |
| LhaCollisions.CompareHashes | tools/zz9k-archive.c:8500-8508 | and so is the other one: by hash |
| LhaCollisions.Sort | tools/zz9k-archive.c:8594-8610 | sorting with either comparator leaves a sorted permutation |
| LhaCollisions.PrefixContiguous | tools/zz9k-archive.c:8611-8627 | between a name and one of its extensions there are only extensions |
| LhaCollisions.NoChildrenBeyond | tools/zz9k-archive.c:8617-8620 | past the first name without the prefix there is no child |
| LhaCollisions.HasPrefix | tools/zz9k-archive.c:8550-8565 | folded prefix, not of the empty name |
| LhaCollisions.IsParentOf | tools/zz9k-archive.c:8533-8548 | folded prefix followed by a slash |
| LhaCollisions.MarkRuns | tools/zz9k-archive.c:8595-8609 | every pair with one hash is marked, nothing that does not collide is |
| LhaCollisions.MarkParents | tools/zz9k-archive.c:8611-8627 | every file and everything below its name are marked, nothing else |
| LhaCollisions.MarkCollisions | tools/zz9k-archive.c:8581-8630 | exactly the entries that clash with some other one are marked in addition to the old marks, for any sorting |
| LhaCollisions.ClashIff | tools/zz9k-archive.c:8567-8580 | two entries clash iff they write the same file up to case, or one is a file on the way to the other, or their different names share a hash |
| LhaHash.LowerIdentifies | tools/zz9k-archive.c:8441-8444 | two bytes fold to one iff they are equal or the two forms of one of the 26 letters |
| LhaHash.SameFileIff | tools/zz9k-archive.c:8458-8481 | two names write the same file iff they differ in nothing but trailing slashes and the case of letters |
| LhaHash.MixInjective | tools/zz9k-archive.c:8451-8454 | one step of the hash loses neither the register nor the byte |
| LhaHash.SameTail | tools/zz9k-archive.c:8446-8456 | equal bytes behind two beginnings neither bring their hashes together nor drive them apart |
| LhaHash.OneApartHash | tools/zz9k-archive.c:8446-8456 | strings that differ in one byte have different hashes |
| LhaHash.OneApartClash | tools/zz9k-archive.c:8446-8456 | entries whose folded names differ in one byte clash iff their hashes before the final step are zero and one |
| LhaHash.ParentIff | tools/zz9k-archive.c:8533-8548 | a name is in the way of another iff its components, letter case aside, are the first of the other and not all of them |
| LhaHash.HashOfLetterA | tools/zz9k-archive.c:8446-8456 | the hash of "a" is 0xe40c292c, the published value of 32-bit FNV-1a |
| TarReader.ReadOctal | tools/zz9k-archive.c:4425-4454 | the number the octal digits before the terminator spell, if it fits 32 bits; refused exactly for no digit, a byte that is none, or a larger number |
| TarReader.ReadBase256 | tools/zz9k-archive.c:4456-4479 | the big-endian number below the mark bit, if it is below 2^31; refused exactly for a larger one or a second mark bit |
| TarReader.ReadNumber | tools/zz9k-archive.c:4481-4492 | octal or base 256 as the first byte says, for every field |
| TarReader.ReadDecimal | tools/zz9k-archive.c:4304-4329 | the number the digits spell, if it is below 2^31; refused exactly for a byte that is no digit or a larger number |
| TarHeader.BoundedExact | tools/zz9k-archive.c:4304-4329 | stopping as soon as a limit is passed refuses no number that would have fitted, in any base |
| TarHeader.OctalExact | tools/zz9k-archive.c:4425-4454 | the octal reader as a function is exactly that |
| TarHeader.Base256Exact | tools/zz9k-archive.c:4456-4479 | so is the base-256 reader |
| TarHeader.DecimalExact | tools/zz9k-archive.c:4304-4329 | and the decimal one |
| TarReader.SumMatches | tools/zz9k-archive.c:4494-4514 | one loop decides both checksums: unsigned and signed, the field counted as spaces |
| TarReader.ReadHeader | tools/zz9k-archive.c:4528-4567 | the scanning, summing and in-place cleaning give the header as a function of its 512 bytes |
| TarReader.ReadPax | tools/zz9k-archive.c:4331-4403 | following the record lengths through the data reads the pax records one by one, and refuses any that is not framed |
| TarHeader.OctalRoundTrip | tools/zz9k-archive.c:4425-4454 | every 32-bit number written in octal is read back |
| TarWriter.HeaderRoundTrip | tools/zz9k-archive.c:4227-4567 | a header written with any prefix, name, type byte and 32-bit size, in octal or base 256, and any other fields is read as the member prefix/name normalized, with kind, skip and directory for each type byte; refused exactly when the full name has 256 bytes |
| TarWriter.OneByteErrorRefused | tools/zz9k-archive.c:4494-4514 | no change of one byte outside the checksum field goes unnoticed |
| TarWriter.PaxRoundTrip | tools/zz9k-archive.c:4331-4403 | any written pax records are read back: the last path and the last size count, others are passed over |
| TarWriter.RecordApplied | tools/zz9k-archive.c:4370-4398 | what a record says replaces what was said before |
| Tar.ReadMember | tools/zz9k-archive.c:4594-4655 | one turn takes the member as a function of the archive and what was announced, with the range checks as they are computed |
| Tar.TarList | tools/zz9k-archive.c:4569-4668 | after any number of turns the loop is where its function of the bytes says, 32-bit positions included; which result that is, is said by the next four rows |
| Tar.ListsAsIntended | tools/zz9k-archive.c:4569-4668 | below two gibibytes the loop ends within a turn for each block and returns the list of an archive of whole blocks, readable members and no more than fit, or refuses; and at any length up to 0xfff00000 what is meant to be listed is listed |
| Tar.RightOnLengthIff | tools/zz9k-archive.c:4569-4668 | it returns the intended result on all archives of a length exactly when that length is below two gibibytes |
| Tar.ListsBehindTheEnd | tools/zz9k-archive.c:4604-4661 | from 512 bytes above that on, for every length an archive that is accepted with an entry whose data lies wholly behind it |
| Tar.LoopsForever | tools/zz9k-archive.c:4604-4661 | from two gibibytes on, for every length an archive on which the loop never ends |
| Tar.SizedHeaderReads | tools/zz9k-archive.c:4494-4567 | a header written for a file or link of any 32-bit size is read as that |
| Tar.CodedFitsExact | tools/zz9k-archive.c:4604-4607 | the 32-bit range check is the intended one for all offsets and sizes exactly when the archive is below two gibibytes |
| TarStream.StreamFollowsList | tools/zz9k-archive.c:6490-6620 | from any header position on, feeding the rest of the archive writes what the lister lists |
| TarStream.FeedAppend | tools/zz9k-archive.c:6490-6620 | feeding in two pieces is feeding the whole |
| TarStream.FeedPayload | tools/zz9k-archive.c:6505-6596 | a part of a member's data taken at once has the effect of its bytes |
| TarStream.ChunksDoNotMatter | tools/zz9k-archive.c:6490-6620 | the state after any chunks is the state after their concatenation |
| TarStream.OneMember | tools/zz9k-archive.c:6376-6620 | header, data and padding of a member lead from one boundary to the next and write its name, size and data |
| TarStream.AnyChunkingExtracts | tools/zz9k-archive.c:6376-6633 | for every archive the lister accepts (no long-name record, pax headers up to 64 KiB, safe names) any chunking ends accepted with the same names, sizes and data |
| TarArchive.ItemsAreListed | tools/zz9k-archive.c:4569-4668 | any written members, with pax records or long names before them, are listed: names, sizes, kinds and places |
| TarArchive.WrittenIsListed | tools/zz9k-archive.c:4569-4668 | the loop of the lister returns exactly them |
| TarArchive.WrittenIsExtracted | tools/zz9k-archive.c:6376-6633 | fed in any chunks, the stream accepts the written archive and every file comes out with its name, its size and its data |
| Paths.SafeIff | tools/zz9k-archive.c:626-663 | a name is safe iff it is not empty, has no colon and no backslash, no component is "." or "..", and none but the last is empty |
| Paths.PathIsSafe | tools/zz9k-archive.c:626-663 | the scan decides that |
| TarStream.Stream.StartEntry | tools/zz9k-archive.c:6376-6488 | the code on a full header block is the machine's start step |
| TarStream.Stream.TakePart | tools/zz9k-archive.c:6505-6596 | the code on a part of the data is the machine's data step, with the pax records applied at the end |
| TarStream.Stream.Consume | tools/zz9k-archive.c:6490-6620 | a chunk has the effect of its bytes one by one |
| TarStream.Stream.Finish | tools/zz9k-archive.c:6622-6633 | accepts exactly between members |
| Crc.ComputeCrc32 | tools/zz9k-archive.c:379-398 | the loops compute the register function, whose meaning as a remainder is `CrcPolynomial.CrcIsRemainder` |
| CrcPolynomial.GeneratorExponents | tools/zz9k-archive.c:392-394 | the constant is the CRC-32 generator x^32 + x^26 + x^23 + ... + x + 1, reflected |
| CrcPolynomial.ShiftBitIsStep | tools/zz9k-archive.c:392-394 | one turn of the bit loop multiplies by x and reduces |
| CrcPolynomial.RegisterIsRemainder | tools/zz9k-archive.c:389-396 | after any bytes the register is the remainder of x^32 times the message, with the old register on its first 32 bits |
| CrcPolynomial.RemainderUnique | tools/zz9k-archive.c:389-396 | there is only one such quotient and remainder |
| CrcPolynomial.CrcIsRemainder | tools/zz9k-archive.c:379-398 | the returned value is the complement of that remainder for the complemented start, and no other value is |
| Crc.CrcAppend | tools/zz9k-archive.c:379-398 | crc32(crc32(c, a), b) = crc32(c, a + b) |
| SevenZipSplit.GroupUnpackedSize | tools/zz9k-archive.c:10212-10232 | succeeds iff the recorded offsets are the prefix sums of the sizes and the total is below 2^31 |
| SevenZipSplit.AcceptableEarlier | tools/zz9k-archive.c:10346-10398 | what has been accepted stays acceptable |
| SevenZipSplit.Writer.FinishEntry | tools/zz9k-archive.c:10303-10331 | fails exactly on a wrong CRC of a wanted entry |
| SevenZipSplit.Writer.AdvanceEmpty | tools/zz9k-archive.c:10333-10344 | entries without bytes are opened, checked and closed as well |
| SevenZipSplit.Writer.Chunk | tools/zz9k-archive.c:10346-10398 | a chunk is accepted iff the bytes so far fit and every entry they complete has the right CRC |
| SevenZipSplit.Writer.Finish | tools/zz9k-archive.c:10400-10412 | accepts iff all bytes have come |
| SevenZipSplit.AcceptedMeans | tools/zz9k-archive.c:10346-10412 | acceptance is: the byte count is the sum of the sizes and every wanted CRC is right |
| SevenZipSplit.SplitFolder | tools/zz9k-archive.c:10346-10412 | any chunking of a folder is accepted iff that holds, and entry i then has exactly the slice at its prefix-sum offset |
| SevenZipCursor.NumberRoundTrip | tools/zz9k-archive.c:2022-2061 | every number is read back from each of its encodings |
| SevenZipCursor.Cursor.ReadNumber | tools/zz9k-archive.c:2022-2061 | the loop reads a number as its format defines it |
| SevenZipCursor.Cursor.ReadDigests | tools/zz9k-archive.c:2095-2144 | the digests of the items whose bit is set, in order |
| SevenZipWriter.DigestRoundTrip | tools/zz9k-archive.c:2073-2144 | every written list of digests is read back, some missing (flags from the top bit down) or all there |
| SevenZipStreams.ParsePackInfo | tools/zz9k-archive.c:2362-2419 | succeeds iff the table is well formed and names at least one stream; the streams then lie one after another inside the archive |
| SevenZipWriter.PackTableRoundTrip | tools/zz9k-archive.c:2362-2419 | every written table of packed streams is read back, numbers in any width |
| SevenZipStreams.FlattenFolder | tools/zz9k-archive.c:2639-2693 | succeeds iff the sizes add up to the folder; the parts then partition it |
| SevenZipCursor.Cursor.ReadByte | tools/zz9k-archive.c:2000-2008 | the next byte, or nothing at the end |
| SevenZipStreams.Flatten | tools/zz9k-archive.c:2589-2743 | succeeds iff every folder is filled; otherwise the tables are unchanged |
| SevenZipStreams.PartsTile | tools/zz9k-archive.c:2654-2692 | in a stored folder the parts tile the packed range without gap or overlap |
| SevenZipStreams.AllSizesFill | tools/zz9k-archive.c:2830-2849 | sizes that were read always fill their folders |
| SevenZipStreams.ParseSubstreamsInfo | tools/zz9k-archive.c:2745-2879 | succeeds iff the properties are well formed; the streams then partition the folders: sizes add up, decoded offsets are prefix sums, stored folders are tiled |
| SevenZipWriter.SubstreamsRoundTrip | tools/zz9k-archive.c:2745-2879 | every written substreams table is read back, whatever it leaves out: counts, sizes or digests; it is usable iff it has sizes or every folder is one stream |
| GuideLayout.LineWidthIsLength | scripts/md2guide.py:118-128 | where text displays as it is written, a line is as wide as its text: prefix, words and one space between two of them |
| GuideLayout.WrapFlow | scripts/md2guide.py:108-138 | the words keep their order, every line of two words or more fits, and no other way of breaking has fewer lines; the lines are written out with single spaces |
| GuideLayout.Candidates | scripts/md2guide.py:156-156 | exactly the columns below their maximum, in order |
| GuideLayout.GreedyLeads | scripts/md2guide.py:108-138 | after k lines greedy breaking has placed at least as many words as any other |
| GuideLayout.GreedyIsOptimal | scripts/md2guide.py:108-138 | so no way of breaking uses fewer lines |
| GuideLayout.Pass | scripts/md2guide.py:159-172 | in a proportional pass every column that can use more gets the share of what is left at its turn that its wish is of all wishes, rounded down, at least one, at most what it can use and what is left |
| GuideLayout.DistributeWidths | scripts/md2guide.py:148-173 | the widths come from the minimums by such passes; each lies between its minimum and max(minimum, maximum), and the total is exactly max(sum of minimums, min(available, sum of those maxima)) |
| GuideLayout.RowFits | scripts/md2guide.py:243-258 | a row with those widths and " | " between its cells fits the page if the longest words do, and then fills it unless there is too little to show |

## Left out

- Masked, branch-free selections (`cswap`, the Poly1305 residue select, tag comparison) are modelled by what they select; timing and key secrecy are not modelled.
- `|`, `&`, `<<` and `>>` on words of disjoint bits are written as sums, remainders, multiples and quotients; xor is defined on the bits of numbers.
- AES itself: the block cipher under a key is an arbitrary function of sixteen bytes, the key schedule an arbitrary function of the key; only the accepted key lengths are modelled.
- P-256: associativity of the group law, and that residues other than zero have inverses (primality), are hypotheses of `P256Affine.ScalarIsMultiple`, the former only on multiples of the point. The formulas are proved for any modulus and any b, and `P256Point` runs them with the prime of the source. Field inversion, affine conversion, point loading, ECDH, key generation and ECDSA are not modelled.
- P256Curve.ScalarMultiplies: takes any monoid in which the formulas are the operation; `P256Affine` shows which operation they are.
- Rfc7748.LadderMultiplies: takes as hypothesis that a ladder step doubles and adds; `MontgomeryLadder` proves that for points of the curve.
- MontgomeryLadder.X25519IsMultiple: takes as hypotheses that inverses are powers (primality), that the law associates on the multiples of the point, and that the neighbouring multiples the ladder passes are finite, not of order two, different in their u-coordinates, and the point apart. Points of the twist are not modelled.
- RsaVerify.Verify: the modulus array is as long as its bit count says, as the interface demands of its callers.
- TarReader.ReadPax: takes data up to 0xfff00000 bytes, so that no record length added to a position wraps; a longer pax header counts as `Lost` in `Tar.TarList`.
- Tar.TarList: the loop of the source has no bound on its turns; the model stops after a given number. Where it reads bytes that are not in the archive (a header in the last block of 32 bits, a long name or pax record that passes the range check by wrapping) the model stops with `Lost` and says nothing of what follows.
- TarStream.AnyChunkingExtracts: is about archives that are listed as intended; those from two gibibytes on that are accepted through a wrapped sum are outside. GNU long-name records are outside the theorem, because the stream accumulates them with `strlen` over a partly filled buffer; the model stops following the stream at such a record. The filter, the alias guard, the list and test commands, existing files and failing writes are outside too: extraction with every write succeeding is modelled.
- Lha.ListFile: reads that fail, cancellation, failed allocations and the entry callback are not modelled; the window is the stretch of the file it was last filled with.
- LhaCollisions.MarkCollisions: the output name of each entry is an input, so stripping of leading components is not modelled; `qsort` is an insertion sort of which only "sorted and a permutation" is used.
- SevenZipSplit.SplitFolder: the chunks are given, so the decoder and its driver are not modelled; opening and closing files always succeeds.
- SevenZipStreams.ParseSubstreamsInfo: the folder table between packed streams and substreams (`zz9k_archive_7z_parse_unpack_info`) is not part of this model; that folders lie inside the archive is a precondition. Parallel arrays are one sequence of records.
- GuideLayout.WrapFlow: the display width of each word and prefix is given with it; guide references and the regular expressions that measure display width are not modelled.
- GuideLayout.DistributeWidths: takes the widths of the longest word and the widest cell of each column as inputs.
- Memory, file and device calls, printing and diagnostics, the zip, gzip, lzma and lha decoders, and the command handlers.
