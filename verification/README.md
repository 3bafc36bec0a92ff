# Proofs about the cryptographic core

This project models the arithmetic, the ciphers and the message protocol of the chat program and
proves that they compute what their specifications say, for every input. It is read bottom-up:

- `Words`, `Bits`, `Bytes`: machine words, bitwise operators, little-endian byte strings.
- `Field25519`, `Rfc7748`: the integers modulo p = 2^255 - 19 and X25519 as section 5 of RFC 7748
  states it, with the ladder in its deferred-swap form and in the form that swaps before and after.
- `Limbs51`, `Masks`, `DonnaC64`: curve25519-donna-c64, from limb arrays to the encoded result.
- `Fiat64`, `X25519BoringSsl`: the generated field operations and `x25519_scalar_mult_generic`, whose
  output is X25519 of RFC 7748 byte for byte. `FiatMsvc`: the same field operations on pairs of
  64-bit words, which return the same limbs.
- `X25519Agreement`: the 256-round ladder of curve25519-donna against the 255-step ladder of RFC 7748.
- `Limbs26`, `Donna32`, `Donna32Ladder`, `Donna32Bytes`: the implementation on ten signed limbs, up to
  the theorem that it and the 64-bit one write the same bytes. `FloodyberryChains`: the addition
  chains that do not depend on a limb format.
- `ScReduce`, `ScMulAdd`: scalars modulo the group order. `AbelianGroup`, `Recoding`,
  `EdwardsScalarMult`: the recodings of scalars and the three multiplication loops over any abelian group.
- `Rfc7539`: ChaCha20, Poly1305 and their AEAD construction as RFC 7539 states them. `Poly1305Block`,
  `Poly1305Mac`, `ChaCha20Cipher`, `ChaChaPoly`: the code against it, for every way of cutting the data.
- `BitVectors`, `ChaChaLaws`, `Poly1305Laws`: what the definitions of `Rfc7539` compute, told without them, by the
  operators on 32-bit vectors, byte by byte and as numbers.
- `ChatProtocol`, `ChatSession`: two sessions over two byte streams as a step machine, and the session
  object whose handlers are its steps.

`dafny verify dfyconfig.toml` checks everything.

## How the code is modelled

- Arrays that the code updates in place are arrays; contexts and sessions are classes with the fields
  of the original. Repeated statements (a carry, a fold, a column of products) are written once as a
  method or function and called in the order of the source.
- Words have the width of the source (`uint32`, `uint64`, `uint128`, `int64`): every operator on them
  carries the obligation that its exact result fits, so a verified member does not wrap. Where the code
  relies on wrapping (ChaCha20 additions, lengths modulo 2^64, a cast that drops bits), the reduction is
  written out. A cast is a checked conversion unless its truncation is written as a remainder.
- A mask with 2^k - 1 is a remainder, a right shift a division rounded down and a left shift a product; an
  or of parts that share no bit is a sum or `Or`. The lemmas in `Bits` are what justifies this
  (`AndLowMask`, `OrDisjoint`, `AndAllOnes`, `XorCancels`, `Extract`).
- A read-only buffer of the caller is a sequence; an output buffer is an array, and an output that is
  only ever 16 bytes of tag may be a result.
- Two comments of the source promise more than the code keeps. The bounds "in < 2^55, out < 2^52" above
  fmul of curve25519-donna-c64 allow operands whose carries are cut off (`DonnaC64.WideLimbsLoseBits`);
  `DonnaC64.CarriesFit` is the exact condition (`DonnaC64.CarriesRightIff`, `DonnaC64.FMul`). The comment on
  ge_double_scalarmult_vartime speaks of any 32 bytes, but slide can lose a carry above 2^255
  (`Recoding.AllOnesLost`); `Recoding.Lost` is the exact condition (`Recoding.Slide`,
  `EdwardsScalarMult.GeDoubleScalarmultVartime`). swap_conditional exchanges only for a swap word of 1, not
  for every non-zero word (`Masks.SwapsIffOne`). The header of
  mbedtls_chachapoly_finish promises an error for a finished context; the code computes a further tag
  (`ChaChaPoly.Context.Finish`).

## Model

| member | source | states |
|---|---|---|
| DonnaC64.FSum | curve25519/agl/curve25519-donna-c64.c:39-46 | the sum of two elements modulo p, limbs within the loose bound that the multiplication accepts, no 64-bit wrap |
| DonnaC64.FDifferenceBackwards | curve25519/agl/curve25519-donna-c64.c:48-65 | the difference modulo p for every subtrahend the comment allows; the added multiple of p keeps every limb non-negative and below 2^55 |
| DonnaC64.FScalarProduct | curve25519/agl/curve25519-donna-c64.c:68-88 | the element times a scalar up to 121665, with the carry of the top limb folded back by 19 |
| DonnaC64.FMul | curve25519/agl/curve25519-donna-c64.c:90-145 | for all limbs below 2^55, as the comment allows: the result is the product modulo p if and only if the carries fit (CarriesFit of the ten limbs), which they always do up to 2^54 + 2^51; the limbs end at 2^51 or below |
| DonnaC64.FSquareTimes | curve25519/agl/curve25519-donna-c64.c:147-187 | the power 2^count modulo p for every count of at least 1, also in place |
| DonnaC64.CarryColumns | curve25519/agl/curve25519-donna-c64.c:131-138 | the carries of a product, with their casts: the value modulo p is kept if and only if they fit in 64 bits, and all five limbs end at 2^51 or below |
| DonnaC64.CarriesRightIff | curve25519/agl/curve25519-donna-c64.c:131-138 | for all five columns below 2^128 the code with its casts keeps the value modulo p if and only if no carry passes 64 bits: the dropped parts cannot make up for each other |
| DonnaC64.LooseColumnsFit | curve25519/agl/curve25519-donna-c64.c:109-138 | limbs up to 2^54 + 2^51, which no caller exceeds, meet that condition |
| DonnaC64.Square | curve25519/agl/curve25519-donna-c64.c:160-182 | one pass of the squaring, right under the same condition on the columns of the product of the element with itself |
| DonnaC64.WideLimbsLoseBits | curve25519/agl/curve25519-donna-c64.c:95-97 | the bounds of the comment do not meet the condition: with limbs of 2^55 - 1 the result is wrong modulo p |
| DonnaC64.SumAndDifference | curve25519/agl/curve25519-donna-c64.c:302-308 | the pair (x + z, x - z) in place |
| DonnaC64.AddPoints | curve25519/agl/curve25519-donna-c64.c:310-318 | the differential addition: the square of the sum and the scaled square of the difference of the two cross products |
| DonnaC64.DoublePoint | curve25519/agl/curve25519-donna-c64.c:320-327 | the doubling in x and z with the constant 121665 |
| DonnaC64.StepFormulas | curve25519/agl/curve25519-donna-c64.c:302-328 | the formulas of the code, with its own order of operands, are the ladder step of RFC 7748 section 5 |
| DonnaC64.FMonty | curve25519/agl/curve25519-donna-c64.c:292-328 | one ladder step: the four results are the step of RFC 7748 section 5 on the four inputs, and all limbs stay at 2^51 or below |
| DonnaC64.SwapConditional | curve25519/agl/curve25519-donna-c64.c:333-343 | for a swap bit of 0 or 1, exactly an exchange or nothing, element by element and limb bounds kept |
| DonnaC64.LadderStep | curve25519/agl/curve25519-donna-c64.c:367-375 | swap, step, swap back on the buffers of the loop: one step of the reference ladder |
| DonnaC64.TopBit | curve25519/agl/curve25519-donna-c64.c:363-390 | the byte shifted left by one each round delivers the bits of the scalar from the top |
| DonnaC64.CMult | curve25519/agl/curve25519-donna-c64.c:351-396 | for every scalar and point the 256 rounds with exchanged buffers end in the reference ladder over 256 bits, limbs at 2^51 or below after every round |
| DonnaC64.CRecip | curve25519/agl/curve25519-donna-c64.c:402-428 | z to the power p - 2 through the chain of 254 squarings and 11 products |
| DonnaC64.FExpand | curve25519/agl/curve25519-donna-c64.c:216-223 | the five limbs of a 32-byte little-endian number modulo 2^255 |
| DonnaC64.Freeze | curve25519/agl/curve25519-donna-c64.c:228-275 | the unique representative below p for every vector of five 64-bit limbs, by carries and the offset 19 |
| DonnaC64.FContract | curve25519/agl/curve25519-donna-c64.c:228-281 | 32 bytes whose value is the element reduced below p, for every limb vector |
| DonnaC64.ContractExpanded | curve25519/agl/curve25519-donna-c64.c:216-281 | expanding and contracting gives the number modulo 2^255 and then modulo p |
| DonnaC64.Curve25519Donna | curve25519/agl/curve25519-donna-c64.c:432-449 | the whole function: clamping, ladder, inversion and encoding give the reference ladder over 256 bits divided out |
| Masks.SwapByMask | curve25519/agl/curve25519-donna-c64.c:333-343 | the exclusive-or of masked differences exchanges two words for a bit of 1 and keeps them for 0 |
| Masks.SwapsIffOne | curve25519/agl/curve25519-donna-c64.c:328-343 | the words are exchanged if and only if the argument is 1, although the comment promises an exchange for every non-zero value |
| Masks.CSwapByMask | curve25519/boringssl/curve25519.c:265-273 | the same for fe_cswap, which masks with its operands the other way round |
| Masks.CMovZnz | curve25519/boringssl/curve25519_64.h:116-124 | the selection by an all-ones or all-zero mask |
| Limbs51.ColumnsFe | curve25519/agl/curve25519-donna-c64.c:115-129 | the five columns with their factors of 19 have the value of the product modulo p |
| Limbs51.CarryFe | curve25519/boringssl/curve25519_64.h:211-242 | a chain of carries that wraps by 19 keeps the value modulo p |
| Limbs51.SquareColumns | curve25519/agl/curve25519-donna-c64.c:160-170 | the columns of the squaring with doubled operands are those of the product with itself |
| Rfc7748.LazyIsEager | curve25519/boringssl/curve25519.c:2037-2077 | after every step the ladder with the deferred swap holds the pairs of the ladder that swaps before and after, up to the pending swap |
| Rfc7748.SwapsCompose | curve25519/boringssl/curve25519.c:2046-2050 | two conditional swaps in a row are one by the exclusive-or of their bits |
| Rfc7748.Clamp | curve25519/boringssl/curve25519.c:2010-2012 | the three masks on the scalar bytes are decodeScalar25519 of RFC 7748; byte 0 loses its low three bits, byte 31 its top two and gains the bit of 64, and no other byte changes |
| Rfc7748.DoublingOnCurve | curve25519/boringssl/curve25519.c:2037-2077 | the doubling of the ladder step is that of the curve with coefficient 486662 over the integers modulo p |
| Rfc7748.SumOnCurve | curve25519/boringssl/curve25519.c:2037-2077 | the other half of the step is the sum of two points whose difference is u |
| Rfc7748.BitOfScalar | curve25519/boringssl/curve25519.c:2046-2046 | the shifted and masked byte is the bit of the scalar at that position |
| Fiat64.CarryMul | curve25519/boringssl/curve25519_64.h:133-243 | the product modulo p of loose elements, with a tight result; no 128-bit sum or 64-bit cast loses a bit |
| Fiat64.CarrySquare | curve25519/boringssl/curve25519_64.h:252-358 | the square modulo p of a loose element, with a tight result |
| Fiat64.SquareIsProduct | curve25519/boringssl/curve25519_64.h:252-358 | the squaring gives the very limbs of the product with itself |
| Fiat64.FoldTop | curve25519/boringssl/curve25519_64.h:230-242 | the last carries keep the value with 19 times the excess added, and end in tight limbs |
| Fiat64.Carry | curve25519/boringssl/curve25519_64.h:367-397 | the same element with tight limbs |
| Fiat64.FieldAdd | curve25519/boringssl/curve25519_64.h:406-422 | the sum modulo p, loose |
| Fiat64.FieldSub | curve25519/boringssl/curve25519_64.h:431-447 | the difference modulo p, loose, with no limb below zero |
| Fiat64.FieldOpp | curve25519/boringssl/curve25519_64.h:456-472 | the negation modulo p, loose |
| Fiat64.CarryScmul121666 | curve25519/boringssl/curve25519_64.h:912-972 | 121666 times the element modulo p, tight |
| Fiat64.SubBorrowX51 | curve25519/boringssl/curve25519_64.h:92-101 | subtraction with borrow in 51 bits through a signed shift |
| Fiat64.AddCarryX51 | curve25519/boringssl/curve25519_64.h:66-75 | addition with carry in 51 bits |
| Fiat64.Freeze | curve25519/boringssl/curve25519_64.h:606-616 | the masked addition of p after subtracting it gives the residue below p |
| Fiat64.ToBytes | curve25519/boringssl/curve25519_64.h:514-719 | 32 bytes whose value is the residue below p |
| Fiat64.FromBytes | curve25519/boringssl/curve25519_64.h:730-878 | limbs whose value is exactly the 255-bit number read |
| Fiat64.BytesRoundTrip | curve25519/boringssl/curve25519_64.h:514-878 | reading and writing 32 bytes reduces the number modulo p |
| Fiat64.LimbsRoundTrip | curve25519/boringssl/curve25519_64.h:514-878 | writing and reading a tight element gives the limbs of its residue |
| FiatMsvc.AddCarryX64 | curve25519/boringssl/curve25519_64_msvc.h:55-67 | the portable carry by two comparisons is the exact sum of three words |
| FiatMsvc.MulX64 | curve25519/boringssl/curve25519_64_msvc.h:159-169 | the two words of the full product |
| FiatMsvc.AddWide | curve25519/boringssl/curve25519_64_msvc.h:387-388 | two double words added with an explicit carry: nothing is lost in the low or the high word |
| FiatMsvc.AddWord | curve25519/boringssl/curve25519_64_msvc.h:429-430 | a word added to a double word, with its carry |
| FiatMsvc.ShiftRight51 | curve25519/boringssl/curve25519_64_msvc.h:395-395 | the or of two shifts is the double word divided by 2^51 |
| FiatMsvc.CarriedPairsAgree | curve25519/boringssl/curve25519_64_msvc.h:395-457 | the carries on word pairs end in the limbs of the 128-bit version |
| FiatMsvc.CarryMulAgrees | curve25519/boringssl/curve25519_64_msvc.h:201-458 | for all loose elements carry_mul on word pairs returns limb for limb what the 128-bit version returns |
| FiatMsvc.CarrySquareAgrees | curve25519/boringssl/curve25519_64_msvc.h:467-650 | carry_square on word pairs returns the limbs of the 128-bit version and of carry_mul with equal operands |
| FiatMsvc.CarryScmulAgrees | curve25519/boringssl/curve25519_64_msvc.h:1204-1281 | carry_scmul_121666 on word pairs returns the limbs of the 128-bit version |
| FiatMsvc.PairsMultiply | curve25519/boringssl/curve25519_64_msvc.h:193-458 | the product on word pairs is the product modulo p, with tight limbs |
| X25519BoringSsl.SquareRepeatedly | curve25519/boringssl/curve25519.c:318-374 | repeated squaring in place is the power 2^n |
| X25519BoringSsl.FeLooseInvert | curve25519/boringssl/curve25519.c:318-374 | z to the power p - 2 |
| X25519BoringSsl.FePow22523 | curve25519/boringssl/curve25519.c:412-467 | z to the power 2^252 - 3 |
| X25519BoringSsl.FeCSwap | curve25519/boringssl/curve25519.c:265-273 | two elements exchanged or kept, limb by limb |
| X25519BoringSsl.LadderStep | curve25519/boringssl/curve25519.c:2056-2073 | the step with BB + 121666 E is the step of RFC 7748 with AA + 121665 E |
| X25519BoringSsl.NextA24 | curve25519/boringssl/curve25519.c:2069-2071 | the two forms of the doubling agree: 121666 E + BB = 121665 E + AA |
| X25519BoringSsl.FeFromBytes | curve25519/boringssl/curve25519.c:160-165 | the element read from 32 bytes with the top bit ignored, as decodeUCoordinate of RFC 7748 |
| X25519BoringSsl.X25519ScalarMultGeneric | curve25519/boringssl/curve25519.c:2002-2082 | the 32 bytes written are X25519 of RFC 7748 section 5, byte for byte, for every scalar and point |
| X25519Agreement.StepScales | curve25519/agl/curve25519-donna-c64.c:292-328 | scaling the two projective points before a ladder step scales them after it |
| X25519Agreement.LaddersAgreeUpToScale | curve25519/agl/curve25519-donna-c64.c:362-392 | the 256-round ladder ends in the 255-step ladder of RFC 7748 up to a power of 4u on each point |
| X25519Agreement.SameProjectivePoint | curve25519/agl/curve25519-donna-c64.c:362-392 | both ladders end in the same projective x-coordinate, for every scalar below 2^255 |
| X25519Agreement.ZeroPoint | curve25519/agl/curve25519-donna-c64.c:362-392 | on the point u = 0 both ladders end with z = 0 |
| X25519Agreement.DonnaLadderIsX25519 | curve25519/agl/curve25519-donna-c64.c:432-449 | given the little theorem of Fermat for p, curve25519_donna and RFC 7748 compute the same element |
| X25519Agreement.BytesOfX25519 | curve25519/agl/curve25519-donna-c64.c:432-449 | and then the 32 bytes it writes are X25519 of RFC 7748 |
| X25519Agreement.ThreeImplementations | curve25519/boringssl/curve25519.c:2026-2078 | on every secret and point the two versions of curve25519_donna write the same bytes and the BoringSSL one those of RFC 7748; given the theorem of Fermat all three agree |
| Limbs26.WeightOfProduct | curve25519/agl/curve25519-donna.c:95-99 | products of two odd limbs stand one bit higher than their column, which is why they are doubled |
| Limbs26.ColumnsProduct | curve25519/agl/curve25519-donna.c:99-200 | the nineteen columns with their weights add up to the product of the two numbers |
| Limbs26.HighWeight | curve25519/agl/curve25519-donna.c:202-238 | ten places up is a factor of 2^255 |
| Donna32.M | curve25519/agl/curve25519-donna.c:99-200 | a product of two limbs through casts to 32 bits is exact and below 2^54 |
| Donna32.ProductLow | curve25519/agl/curve25519-donna.c:99-154 | columns 0 to 9 as the code writes them: no int64 sum overflows for limbs up to 2^27 |
| Donna32.ProductHigh | curve25519/agl/curve25519-donna.c:155-200 | columns 10 to 18 likewise |
| Donna32.SquareLow | curve25519/agl/curve25519-donna.c:345-375 | columns 0 to 9 of the squaring equal those of the product with itself |
| Donna32.SquareHigh | curve25519/agl/curve25519-donna.c:376-401 | columns 10 to 18 likewise |
| Donna32.ProductOf | curve25519/agl/curve25519-donna.c:99-200 | the nineteen limbs have the value of the product |
| Donna32.FProduct | curve25519/agl/curve25519-donna.c:99-200 | the product of two numbers on nineteen limbs, each within fourteen products |
| Donna32.FSquareInner | curve25519/agl/curve25519-donna.c:345-401 | the square of a number on nineteen limbs |
| Donna32.FReduceDegree | curve25519/agl/curve25519-donna.c:206-238 | nine limbs folded down by 19: the element is kept and no limb passes 280 * 2^54 |
| Donna32.SignWord | curve25519/agl/curve25519-donna.c:250-253 | the top bit of the high word of any 64-bit number, spread over 32 bits |
| Donna32.DivBy26 | curve25519/agl/curve25519-donna.c:247-258 | any number divided by 2^26 and rounded towards zero, by a round-off added to negative numbers |
| Donna32.DivBy25 | curve25519/agl/curve25519-donna.c:263-274 | any number divided by 2^25 and rounded towards zero |
| Donna32.CarryPair | curve25519/agl/curve25519-donna.c:284-302 | one round of the carry loop, on an even and an odd limb, with the bound 281 * 2^54 that carries it |
| Donna32.FReduceCoefficients | curve25519/agl/curve25519-donna.c:279-320 | from limbs up to 280 * 2^54 the same element with every limb below 2^26, without overflow |
| Donna32.FSum | curve25519/agl/curve25519-donna.c:68-74 | the sum of two reduced elements |
| Donna32.FDifference | curve25519/agl/curve25519-donna.c:78-83 | the difference, backwards as the code computes it |
| Donna32.FScalarProduct | curve25519/agl/curve25519-donna.c:86-91 | the element times a scalar |
| Donna32.FMul | curve25519/agl/curve25519-donna.c:328-337 | the product modulo p, reduced, for limbs up to 2^27 |
| Donna32.FSquare | curve25519/agl/curve25519-donna.c:410-421 | the square modulo p, reduced |
| Donna32Ladder.AddPoints | curve25519/agl/curve25519-donna.c:644-671 | the differential addition with reductions after each product |
| Donna32Ladder.DoublePoint | curve25519/agl/curve25519-donna.c:673-697 | the doubling, with one scalar product carried without a reduction of degree |
| Donna32Ladder.FMonty | curve25519/agl/curve25519-donna.c:625-698 | one ladder step of RFC 7748 section 5; all limbs are below 2^26 on entry and on exit |
| Donna32Ladder.SwapLimbs32 | curve25519/agl/curve25519-donna.c:714-718 | the exchange through 32-bit two's complement masks keeps signed limbs intact |
| Donna32Ladder.SwapConditional | curve25519/agl/curve25519-donna.c:709-719 | two elements exchanged or kept |
| Donna32Ladder.LadderStep | curve25519/agl/curve25519-donna.c:742-750 | swap, step, swap back on the buffers of the loop |
| Donna32Ladder.CMult | curve25519/agl/curve25519-donna.c:726-771 | the 256 rounds end in the reference ladder, limbs below 2^26 after every round |
| Donna32Ladder.SquareRun | curve25519/agl/curve25519-donna.c:805-807 | an even number of squarings to and fro between two buffers is the power 2^n |
| Donna32Ladder.CRecip | curve25519/agl/curve25519-donna.c:776-841 | z to the power p - 2 through the ping-pong loops |
| Donna32Bytes.FExpand | curve25519/agl/curve25519-donna.c:424-442 | the ten limbs of a 32-byte number modulo 2^255 |
| Donna32Bytes.BorrowPass | curve25519/agl/curve25519-donna.c:484-507 | one pass of borrowing keeps the element; after the second no limb is negative |
| Donna32Bytes.CarryPass | curve25519/agl/curve25519-donna.c:536-552 | one carry pass keeps the element; after the second every limb is a digit |
| Donna32Bytes.S32Eq | curve25519/agl/curve25519-donna.c:449-457 | the chain of shifts and ands yields all ones exactly for equal words |
| Donna32Bytes.EqMask | curve25519/agl/curve25519-donna.c:449-457 | the same on limbs as numbers, through their 32-bit vectors |
| Donna32Bytes.GteMask | curve25519/agl/curve25519-donna.c:461-465 | the sign of the difference as a mask |
| Donna32Bytes.DigitsBound | curve25519/agl/curve25519-donna.c:562-572 | digits all at their largest from limb 1 on are the only way to reach p |
| Donna32Bytes.PrimeMask | curve25519/agl/curve25519-donna.c:565-572 | the mask is all ones exactly when limb 0 is at least 0x3ffffed and the others are at their largest |
| Donna32Bytes.SubtractPrime | curve25519/agl/curve25519-donna.c:565-584 | the masked subtraction leaves the residue below p |
| Donna32Bytes.Freeze | curve25519/agl/curve25519-donna.c:477-584 | from limbs within 26 bits and a sign the digits of the residue below p |
| Donna32Bytes.PlaceLimb | curve25519/agl/curve25519-donna.c:586-610 | a shifted limb or-ed into place extends the number held by the bytes so far |
| Donna32Bytes.FContract | curve25519/agl/curve25519-donna.c:471-612 | 32 bytes whose value is the element reduced below p |
| Donna32Bytes.Curve25519Donna | curve25519/agl/curve25519-donna.c:843-860 | the whole function gives the reference ladder over 256 bits divided out |
| Donna32Bytes.BothDonnas | curve25519/agl/curve25519-donna.c:843-860 | for every secret and point the 32-bit and the 64-bit implementation write the same 32 bytes |
| FloodyberryChains.PowTwo5MTwo0Two250MTwo0 | curve25519/floodyberry/curve25519-donna-helpers.h:12-31 | the exponent 2^5 - 1 becomes 2^250 - 1, in place |
| FloodyberryChains.Recip | curve25519/floodyberry/curve25519-donna-helpers.h:36-49 | z to the power 2^255 - 21 |
| FloodyberryChains.PowTwo252M3 | curve25519/floodyberry/curve25519-donna-helpers.h:54-67 | z to the power 2^252 - 3 |
| ScReduce.RoundCarry | curve25519/boringssl/curve25519.c:1138-1140 | a rounding carry keeps the value and leaves a limb of 21 bits and a sign |
| ScReduce.FloorCarry | curve25519/boringssl/curve25519.c:1267-1269 | a carry rounded down keeps the value and leaves a limb of 21 bits |
| ScReduce.Fold | curve25519/boringssl/curve25519.c:1090-1096 | a limb folded twelve places down changes the value by a multiple of the group order |
| ScReduce.FoldHigh | curve25519/boringssl/curve25519.c:1090-1136 | limbs 23 to 18 folded: residue kept, limbs within 2^53 |
| ScReduce.CarryMiddle | curve25519/boringssl/curve25519.c:1138-1171 | carries 6 to 16, even then odd: value kept, limbs within 2^34 |
| ScReduce.FoldMiddle | curve25519/boringssl/curve25519.c:1173-1219 | limbs 17 to 12 folded: residue kept, limbs within 2^57 |
| ScReduce.CarryLow | curve25519/boringssl/curve25519.c:1221-1257 | carries 0 to 11: value kept, limb 11 within 2^20 |
| ScReduce.FoldLow | curve25519/boringssl/curve25519.c:1259-1265 | limb 12 folded again |
| ScReduce.FirstFloor | curve25519/boringssl/curve25519.c:1267-1302 | what the floor carries put into limb 12 is 0 or -1, since the value lies within 2^252 of zero |
| ScReduce.SecondFloor | curve25519/boringssl/curve25519.c:1304-1344 | the last fold brings the value into [0, l) and the carries make its digits |
| ScReduce.ReduceLimbs | curve25519/boringssl/curve25519.c:1090-1344 | any 24 limbs of up to 30 bits become the digits of their value modulo l, without int64 overflow |
| ScReduce.LoadBlockDigits | curve25519/boringssl/curve25519.c:1048-1055 | eight shifted and masked loads are eight 21-bit digits of the bytes |
| ScReduce.StoredByte | curve25519/boringssl/curve25519.c:1346-1377 | every byte of the value lies in one limb or across two |
| ScReduce.Store | curve25519/boringssl/curve25519.c:1346-1377 | the 32 bytes written have the value of the limbs, also when limb 11 is 2^21 |
| ScReduce.X25519ScReduce | curve25519/boringssl/curve25519.c:1047-1378 | for every 64-byte input the first 32 bytes become exactly the input modulo l, fully reduced |
| ScMulAdd.LoadScalar | curve25519/boringssl/curve25519.c:1390-1401 | twelve limbs with the value of the 32 bytes |
| ScMulAdd.Column | curve25519/boringssl/curve25519.c:1474-1505 | a column of the product: no partial sum can overflow |
| ScMulAdd.ColumnsValue | curve25519/boringssl/curve25519.c:1474-1505 | the columns add up to the product |
| ScMulAdd.CarryAll | curve25519/boringssl/curve25519.c:1508-1577 | the first carries keep the value and bring all limbs to 30 bits |
| ScMulAdd.ScMulAdd | curve25519/boringssl/curve25519.c:1388-1867 | for all a, b and c the result is (a b + c) modulo l, fully reduced |
| Recoding.AddCarry | curve25519/boringssl/curve25519.c:942-948 | the innermost loop adds one to the bits from k on, or carries it off the end |
| Recoding.Widen | curve25519/boringssl/curve25519.c:935-953 | the window at i: an odd digit within 15, four zeros above it, the number unchanged unless a carry is lost |
| Recoding.LostInWindow | curve25519/boringssl/curve25519.c:933-951 | whether the carry of a window falls past index 255, told by the number of the bits that are left |
| Recoding.LostOnlyAbove | curve25519/boringssl/curve25519.c:942-948 | a carry is lost only from a number above 2^255 |
| Recoding.AllOnesLost | curve25519/boringssl/curve25519.c:933-951 | for 2^256 - 1 it is lost and the digits add up to -1 |
| Recoding.Slide | curve25519/boringssl/curve25519.c:924-956 | for every 32-byte number: digits zero or odd within 15, nonzero ones at least five places apart, and their sum is a if and only if Lost(a, 256) is false, as it is up to 2^255; otherwise it is a - 2^256 |
| Recoding.Nibbles | curve25519/boringssl/curve25519.c:821-827 | the 64 nibbles have the value of the bytes |
| Recoding.RadixSixteen | curve25519/boringssl/curve25519.c:821-836 | digits from -8 to 8 with the value of a, for every a with a[31] up to 127 |
| EdwardsScalarMult.OddTable | curve25519/boringssl/curve25519.c:975-998 | the table A, 3A, ..., 15A |
| EdwardsScalarMult.AddDigit | curve25519/boringssl/curve25519.c:1011-1025 | a digit of the sliding form looked up at an index from 0 to 7 and added or subtracted |
| EdwardsScalarMult.TakeDigits | curve25519/boringssl/curve25519.c:1008-1028 | one round: the sum is doubled and takes in one digit of each scalar |
| EdwardsScalarMult.DoubleAndAddDigits | curve25519/boringssl/curve25519.c:1000-1028 | the rounds from the first nonzero digit on give the sum over all digits |
| EdwardsScalarMult.GeDoubleScalarmultVartime | curve25519/boringssl/curve25519.c:958-1029 | for all 32-byte a and b, in any abelian group, the combination of A and B by the digit sums; it is a A + b B if and only if what lost carries take off multiplies to zero, and so whenever no carry is lost, in particular up to 2^255 |
| EdwardsScalarMult.TableSelect | curve25519/boringssl/curve25519.c:763-793 | b 256^pos B for a digit b from -8 to 8, given the table of multiples |
| EdwardsScalarMult.EvenAndOdd | curve25519/boringssl/curve25519.c:838-858 | the even digits plus sixteen times the odd digits are the number |
| EdwardsScalarMult.X25519GeScalarmultBase | curve25519/boringssl/curve25519.c:801-859 | exactly a B: odd pass, four doublings, even pass |
| EdwardsScalarMult.WindowTable | curve25519/boringssl/curve25519.c:877-893 | the table 0, A, ..., 15A built from doublings and additions |
| EdwardsScalarMult.NextWindow | curve25519/boringssl/curve25519.c:908-910 | the 4-bit index is the next hexadecimal digit of the scalar from the top |
| EdwardsScalarMult.X25519GeScalarmult | curve25519/boringssl/curve25519.c:872-922 | exactly scalar A for every 256-bit scalar |
| Poly1305Block.Mul64Portable | crypto/poly1305.c:30-44 | four products of 16-bit halves make the exact 64-bit product, without overflow |
| Poly1305Block.AddBlock | crypto/poly1305.c:93-108 | the block and its padding bit added to the accumulator exactly |
| Poly1305Block.Multiply | crypto/poly1305.c:81-130 | the columns of the product with clamped r stay within 63 bits |
| Poly1305Block.MultiplyIsProduct | crypto/poly1305.c:81-130 | the columns with five quarters of r have the value of the product modulo 2^130 - 5 |
| Poly1305Block.PartialReduce | crypto/poly1305.c:142-152 | the partial reduction keeps the residue and leaves less than 2^130 + 5 * 2^30 |
| Poly1305Block.ProcessBlock | crypto/poly1305.c:92-154 | one block: acc becomes (acc + block + pad 2^128) r modulo 2^130 - 5, within the bound |
| Poly1305Block.Select32 | crypto/poly1305.c:203-210 | the masked choice between two words |
| Poly1305Block.MaskedSubtract | crypto/poly1305.c:186-210 | one subtraction chosen by bit 130 gives the low 128 bits of the canonical residue |
| Poly1305Block.AddKey | crypto/poly1305.c:212-219 | the sum with s modulo 2^128 |
| Poly1305Mac.BlockSumIsMacSum | crypto/poly1305.c:91-154 | the block loop with the padding bit is the message loop of RFC 7539 section 2.5.1 |
| Poly1305Mac.ClampedKey | crypto/poly1305.c:245-249 | four masked words are r clamped as a 128-bit number (Poly1305Laws.ClampBytes says which bits that clears) |
| Poly1305Mac.Context.Starts | crypto/poly1305.c:242-268 | a fresh message under a new key, from any state of the context |
| Poly1305Mac.Context.Process | crypto/poly1305.c:64-162 | for every number of blocks the accumulator takes them all in, modulo 2^130 - 5 |
| Poly1305Mac.Context.Update | crypto/poly1305.c:270-324 | what has been fed is extended by exactly the input, whatever was queued |
| Poly1305Mac.Context.ComputeMac | crypto/poly1305.c:171-226 | the tag bytes of the residue plus s |
| Poly1305Mac.LastBlock | crypto/poly1305.c:330-343 | a queue padded with 0x01 and zeros is the short last block of RFC 7539 |
| Poly1305Mac.Context.Finish | crypto/poly1305.c:326-347 | the tag of RFC 7539 section 2.5 over everything fed |
| Poly1305Mac.MacInPieces | crypto/poly1305.c:242-347 | for every key and message and every way of cutting it into updates, the same tag |
| Poly1305Mac.Mac | crypto/poly1305.c:349-374 | the one-shot tag |
| ChaCha20Cipher.Rotl32 | crypto/chacha20.c:27-28 | the or of two shifts is the rotation |
| ChaCha20Cipher.QuarterRoundInPlace | crypto/chacha20.c:49-74 | the quarter round of RFC 7539 section 2.1 on any four words of the state (ChaChaLaws.QuarterRoundOnBits says what it computes) |
| ChaCha20Cipher.InnerBlockInPlace | crypto/chacha20.c:84-95 | the column round and the diagonal round (ChaChaLaws.InnerBlockRounds) |
| ChaCha20Cipher.Block | crypto/chacha20.c:103-141 | the 64 bytes of the block function of RFC 7539 section 2.3 (ChaChaLaws.BlockBytes) |
| ChaCha20Cipher.Context.SetKey | crypto/chacha20.c:159-179 | the constants and the key in words 0 to 11, the others unchanged |
| ChaCha20Cipher.Context.Starts | crypto/chacha20.c:181-199 | a stream at position 0 with the given nonce and counter |
| ChaCha20Cipher.Context.UseLeftover | crypto/chacha20.c:208-216 | leftover keystream bytes are the keystream at the present position |
| ChaCha20Cipher.Context.NextBlock | crypto/chacha20.c:220-222 | the next block of keystream, with the counter one further modulo 2^32 |
| ChaCha20Cipher.Context.Update | crypto/chacha20.c:201-243 | the output is the input under the keystream at the present position, also in place; the counter and the leftover index follow the position |
| ChaCha20Cipher.KeyedStart | crypto/chacha20.c:159-199 | a keyed context starts in the initial state of RFC 7539 section 2.3 |
| ChaCha20Cipher.Crypt | crypto/chacha20.c:245-272 | the one-shot call is the cipher of RFC 7539 section 2.4 |
| ChaCha20Cipher.CryptInPieces | crypto/chacha20.c:181-243 | for every way of cutting a text into updates, the one-shot cipher of the whole |
| BitVectors.SumOfWords | crypto/chacha20.c:53 | addition modulo 2^32 is the addition of 32-bit vectors |
| BitVectors.XorOfWords | crypto/chacha20.c:54 | the exclusive-or of numbers is that of their 32-bit vectors |
| BitVectors.RotationBy16 | crypto/chacha20.c:54 | moving the low bits up and the high bits in below them is the rotation of the vector by 16; RotationBy12, RotationBy8 and RotationBy7 likewise |
| ChaChaLaws.QuarterRoundOnBits | crypto/chacha20.c:49-74 | for all words, the sums, exclusive-ors and rotations by 16, 12, 8 and 7 of the quarter round on 32-bit vectors, and every other word kept |
| ChaChaLaws.InnerBlockRounds | crypto/chacha20.c:84-95 | the inner block mixes the four columns and then the four diagonals of the state |
| ChaChaLaws.BlockBytes | crypto/chacha20.c:103-141 | ten inner blocks, and byte 4 i + j of the keystream is byte j of word i with the initial word added modulo 2^32 |
| ChaChaLaws.InitialWords | crypto/chacha20.c:159-199 | the constants, the key and the nonce as little-endian words and the counter, at their places |
| ChaChaLaws.CipherByte | crypto/chacha20.c:201-243 | the byte at place 64 q + r of a stream is masked with byte r of the block whose counter is q further on |
| ChaChaLaws.PolyKeyBytes | crypto/chachapoly.c:111-127 | the key of the authenticator is the first half of the block at counter 0 |
| Poly1305Laws.ClampBytes | crypto/poly1305.c:245-249 | for every 16 bytes, clamping takes bytes 3, 7, 11 and 15 modulo 16, rounds bytes 4, 8 and 12 down to a multiple of 4, and keeps all others |
| Poly1305Laws.OneBlock | crypto/poly1305.c:64-162 | one block of up to 16 bytes enters with a one behind its last byte and is multiplied by r modulo 2^130 - 5 |
| Poly1305Laws.MacIsPolynomial | crypto/poly1305.c:64-162 | for every message the block loop is one polynomial in r, with a power of r for each block from the end |
| Poly1305Laws.TagValue | crypto/poly1305.c:171-226 | for every key and message the tag is that polynomial at the clamped first half of the key modulo 2^130 - 5, plus the second half, modulo 2^128 |
| Rfc7539.EncryptTwice | crypto/chacha20.c:201-243 | applying the cipher twice at the same position restores the text |
| Rfc7539.EncryptConcat | crypto/chacha20.c:201-243 | encrypting in pieces is encrypting the whole |
| Rfc7539.MacSumConcat | crypto/poly1305.c:270-324 | whole blocks can be taken off the front of a message |
| Rfc7539.SecondBlock | crypto/chachapoly.c:111-127 | the stream continued after the key block is the one that starts with counter 1 |
| Rfc7539.SealThenOpen | crypto/chachapoly.c:277-319 | opening what was sealed under the same key, nonce and associated data gives the plaintext back |
| Rfc7539.OpenIff | crypto/chachapoly.c:311-316 | opening accepts if and only if all 16 bytes of the tag are those recomputed |
| Rfc7539.MacDataPlaces | crypto/chachapoly.c:34-68 | where the associated data, the text, the zeroes and the two lengths stand in the input of the authenticator, byte by byte |
| Rfc7539.SealInjective | crypto/chachapoly.c:277-289 | no two plaintexts are sealed to the same text |
| ChaChaPoly.Context.Starts | crypto/chachapoly.c:104-141 | a message begun under the key block of the nonce, from any state |
| ChaChaPoly.Context.UpdateAad | crypto/chachapoly.c:143-154 | associated data extended in its state only; otherwise the bad-state code and nothing changed |
| ChaChaPoly.Context.PadData | crypto/chachapoly.c:34-68 | zeros up to the next multiple of 16 |
| ChaChaPoly.Context.EncryptData | crypto/chachapoly.c:177-188 | plaintext and ciphertext extended by the input and the output, the tag fed with the ciphertext |
| ChaChaPoly.Context.DecryptData | crypto/chachapoly.c:189-199 | the ciphertext authenticated before it may be overwritten in place |
| ChaChaPoly.Context.Update | crypto/chachapoly.c:156-202 | data in its states only, in either direction; otherwise the bad-state code and nothing changed |
| ChaChaPoly.Context.FinishMessage | crypto/chachapoly.c:212-239 | the tag of RFC 7539 section 2.8 over all data of the message; what was fed has each part and each length at its place |
| ChaChaPoly.Context.Finish | crypto/chachapoly.c:204-242 | the bad-state code only before a start; the tag over the data laid out as RFC 7539 has it; a second finish is accepted, against the header, and authenticates the lengths once more |
| ChaChaPoly.Context.CryptAndTag | crypto/chachapoly.c:244-275 | the four calls on a whole message, in either direction |
| ChaChaPoly.Context.EncryptAndTag | crypto/chachapoly.c:277-289 | the sealed message of RFC 7539 section 2.8 |
| ChaChaPoly.Context.AuthDecrypt | crypto/chachapoly.c:291-319 | 0 if and only if the tag is the recomputed one, and then the plaintext; otherwise the failure code and an output of zeros |
| ChaChaPoly.MessageInPieces | crypto/chachapoly.c:104-242 | for every cutting of associated data and text and in either direction, the cipher of the whole and the tag over its ciphertext side |
| ChaChaPoly.SealInPieces | crypto/chachapoly.c:104-242 | for all associated data and plaintexts and every cutting of each, the ciphertext and the tag of the one-shot call |
| ChaChaPoly.OpenInPieces | crypto/chachapoly.c:104-242 | for every cutting of a sealed message, accepted if and only if the tag is the recomputed one, and then the plaintext of the whole |
| ChaChaPoly.SealAndOpen | crypto/chachapoly.c:277-319 | mbedtls_chachapoly_auth_decrypt after mbedtls_chachapoly_encrypt_and_tag on one buffer returns 0 and leaves it as it was |
| ChatProtocol.WriteKeepsInv | chatsession.h:133-154 | a write keeps the invariant of its direction |
| ChatProtocol.ArriveKeepsInv | chatsession.h:163-210 | bytes arriving in any fragment keep it: the buffered bytes begin the next frame, and a complete frame is handled once |
| ChatProtocol.RunKeepsInv | chatsession.h:133-210 | in every interleaving of both directions the ciphers of each differ by exactly the bytes in flight, and a reader accepts a byte whenever one is under way |
| ChatProtocol.TextIsHandedUp | chatsession.h:197-207 | if all messages of other protocols are empty, texts are decrypted in step and handed up unchanged |
| ChatProtocol.DeliveredIsPrefix | chatsession.h:133-210 | in every run in step, at every moment, what was handed up is a prefix of the texts sent, in order |
| ChatProtocol.TextsOfTexts | chatsession.h:197-207 | when all messages are texts these are all payloads |
| ChatProtocol.QuietMeansDelivered | chatsession.h:163-210 | once nothing is under way every text has been handed up and both ciphers stand at the same place |
| ChatProtocol.InStepIff | chatsession.h:200-205 | reader and writer stay in step if and only if every message of another protocol is empty |
| ChatProtocol.GarbledIff | chatsession.h:136-204 | a text decrypted out of step survives if and only if the two stretches of keystream agree |
| ChatProtocol.SharedKeystream | chatsession.h:258-268 | both directions start from one state: at equal positions the exclusive-or of two encryptions is that of the two texts |
| ChatSession.Session.InitChaCha20 | chatsession.h:258-268 | both ciphers start in one state: counter 0, the key, and its first 12 bytes as the nonce |
| ChatSession.Session.WriteMsg | chatsession.h:133-154 | the bytes sent are the size, the protocol bytes and the payload under the writing cipher, which is the frame of the message; only that cipher moves |
| ChatSession.Session.HandleReadMsg | chatsession.h:190-210 | the reader of the protocol handles the frame; if its protocol is 1 one string is handed up, the decrypted payload up to its first zero byte, and otherwise nothing |
| ChatSession.WholeString | chatsession.h:204 | that string is the payload itself if and only if the payload holds no zero byte |
| ChatSession.Session.Arrive | chatsession.h:163-210 | bytes arriving are one step of the reader of the protocol, and a string is handed up exactly when they complete a frame of protocol 1 |

## Left out

- Sockets, callbacks, threads, the user interface, the client and server session maps and JSON: in the
  session model the network is a FIFO queue of bytes and each handler is one atomic step.
- The handshake: its signatures and random keys are foreign calls, and the shared key is taken as given.
  That both sides compute the same key needs the group law of the curve.
- Writes before the handshake has finished and overlapping asynchronous writes.
- ChatSession.Session.HandleReadMsg: hands up the bytes of the string; their decoding as UTF-8 is not modelled, and
  a payload of 4092 bytes without a zero ends with the buffer.
- ChatSession.Session.Arrive: frames announce at most 4092 bytes of payload, the most that fits the 4096-byte buffer
  of the reader.
- That the Edwards and Montgomery formulas form a group, that p is prime and that z^(p-2) is an inverse:
  points are elements of any abelian group, or the proof stops at the formulas of RFC 7748.
- X25519Agreement.DonnaLadderIsX25519: takes the little theorem of Fermat for p as a hypothesis, because it rests
  on p being prime; X25519Agreement.SameProjectivePoint states the agreement without it.
- The coordinate systems of curve points (p2, p3, p1p1, cached, precomp) and the conversions between them are
  one group element.
- EdwardsScalarMult.TableSelect: the byte arithmetic by which an entry of k25519Precomp is read is a lookup.
- The precomputed tables themselves: each is a parameter that holds the multiples its comment states.
- x25519_ge_scalarmult_small_precomp, the comb used by small builds.
- ED25519_sign, ED25519_verify and ED25519_keypair, which hash with a function that is not part of this model.
- The SSE2, inline assembly and NEON paths, curve25519_32.h and the limb code of floodyberry, which repeat the
  same properties or rest on intrinsics. _umul128, __umulh and _addcarry_u64 are taken at their documented results.
- mbedtls configuration, platform hooks, self-tests, zeroization and running time. mbedtls_ct_memcmp is
  equality of bytes and mbedtls_xor the exclusive-or of bytes.
- Error returns of calls that cannot fail in this configuration: mbedtls_chacha20_update and the Poly1305 calls
  always return 0, so the error exits behind them are not modelled.
- Donna32Bytes.Freeze: the 32-bit copies of the limbs are kept in 64-bit cells; the invariants bound them below 2^28.
