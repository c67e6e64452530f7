# Verified arithmetic and driver state machines

A Dafny model of the parts of the repository where a small slip is hard to see:

* **libmincrypt**, from single words to signatures. `BigNum`, `Arith`, `Bits` and `Bytes` give numbers to word arrays.
  `Rsa` and `RsaBetween` are the Montgomery exponentiation of `rsa.c`. `P256Int`, `P256ModMul`, `P256Shift`, `P256Compare`,
  `P256ModInv` and `P256Point` are `p256.c`. The field of `p256_ec.c` is in `Felem`, `FelemLinear`, `FelemProduct`, `FelemEliminate`,
  `FelemBounds`, `FelemReduce`, `FelemPower` and `FelemZero`; `Residue` says what limbs in Montgomery form stand for. `Curve`
  holds the point formulas as polynomials and proves them to be the chord and tangent laws; `Points`, `Select`, `Group`,
  `Scalar`, `Comb`, `Window`, `Montgomery` and `PointMul` carry that through the masked table lookups up to
  `p256_points_mul_vartime`, and `Ecdsa` up to the signature check. `Sha1`, `Sha256` and `ShaStream` are the two hashes;
  `ShaConstants`, `ShaPadding`, `Sha1Abc` and `Sha256Abc` hold their constants and a known digest against FIPS 180-4.
* **hashmap.c** in `HashTable` (the table as a value), `HashChain` (linked nodes) and `HashMap`.
* **mkbootimg.c and unpackbootimg.c** in `BootFormat`, `BootWriter`, `BootReader`, `BootHash` and `BootImages`.
* **dhd_msgbuf.c** in `PktIds`, `PktIdMap` and `Rings`: packet ids and the submit paths.
* **dhd_sdio.c** in `SdioCredit`: the transmit window.

Arrays, objects and loops of the source are arrays, classes and loops here, and outputs may alias inputs where the callers
in the source need it. A 32-bit word is an `int` below 2^32, and every truncation, wrap and shift is written out.

Three facts of mathematics enter as hypotheses of the theorems that need them, and nowhere else: `FelemPower.Fermat`
(Fermat's little theorem modulo the field prime), `Ecdsa.OrderPrime` (the group order is a prime), and `Group.CyclicGroup`
(the multiples of the base point are related by the chord and tangent laws, have distinct abscissas unless equal or
opposite, and repeat with the odd order). `Comb.CombTable` is the hypothesis that the generated table holds the multiples
that its comment lists. `HashTable.Lawful` is what `hashmap.c` asks of the functions it is given.

## Where the code and its comments differ

The model follows the code.

* `rsa.c:130` says that the power is at most one modulus too large. `Rsa.PowerAtMostTwice` is that statement for 2n >= R,
  which a set top bit of n gives, and for 4n^2 <= R with rr < n. For a modulus between these ranges, or a small one with a
  larger rr, neither applies; there `Rsa.ReducedIff` tells for each message whether the result is reduced, and
  `RsaBetween.BetweenNotReduced` is a key with a message for which it is not, at every even word count from 4 and so at the
  64 words that RSA_verify asks for.
* `p256_ec.c:216` asks felem_sum for limbs whose sums do not overflow, but the carry is added to them
  (`FelemLinear.CarryOverflows`); `FelemLinear.FelemSum` has the exact condition.
* `p256_ec.c:289` allows any 64-bit words on entry to `felem_reduce_degree`. Line 340 shifts the high half of the last one
  unmasked and loses bits exactly from 2^61 on (`FelemReduce.TopShiftIff`); the contract asks for tmp[16] < 2^60, which both
  callers give.
* `p256_ec.c:194` allows carries below 8; `felem_scalar_8` passes 8, which is still right. In the reverse direction
  `felem_scalar_8` does not keep its stated exit bound for every stated input (`FelemLinear.Scalar8Exceeds`); it does for
  limb 8 < 2^29, which every operation keeps, so `Felem.Ok` is the invariant.
* `p256_ec.c:1214` merges a carry with `|=`. `Montgomery.FromMontgomery` says exactly when that is an addition, and
  `Montgomery.BelowMerges` that it always is for the products that reach it.
* `p256_ec.c:1263` calls the comb's result for the scalar 0 zero; its z is the number 1, and only x and y are zero (`Comb.ScalarBaseMult`).
* `p256.c:338` promises to verify the curve equation, but line 355 reduces only on a carry out of 256 bits, so some points
  of the curve are turned away. `P256Point.IsValidPoint` gives the exact condition.
* `p256_modinv_vartime` does not return for a = 0 (`P256ModInv.ZeroNeverEnds`); its callers exclude that.
* `unpackbootimg.c:91` takes any four bytes equal to the MTK magic at the start of an image for an MTK header.
  `BootImages.ReturnsIff` says when that is right, and `BootImages.BoardMisleads` is a family of images for which it is not.
* `unpackbootimg.c:296` writes only the first command line field (`BootImages.CmdlineKeptIff`).
* `dhd_msgbuf.c:1332` keeps a difference of 16-bit counts in a signed 16-bit variable (`Rings.Protocol.RxFill`).

## Model

| member | source | states |
|---|---|---|
| Ecdsa.Verify | tools/carliv_mkbootimg_tools-linux/libmincrypt/p256_ecdsa.c:32-55 | a signature is accepted if and only if the key passes the point check, r and s are not multiples of the order, and r is the abscissa, modulo the order, of (m/s) G + (r/s) Q; equivalently if and only if r is the abscissa of k G for some k with s k = m + r q, so every signature made with a nonce is accepted and no other; for every key, message and signature |
| Ecdsa.SignsIffSigned | tools/carliv_mkbootimg_tools-linux/libmincrypt/p256_ecdsa.c:45-54 | the equation with quotients holds exactly for what a signer can make: some nonce k has r as the abscissa of k G and s k = m + r q modulo the order |
| Ecdsa.InverseExists | tools/carliv_mkbootimg_tools-linux/libmincrypt/p256_ecdsa.c:45 | an s that is not a multiple of the order has an inverse |
| Ecdsa.Quotients | tools/carliv_mkbootimg_tools-linux/libmincrypt/p256_ecdsa.c:45-47 | both scalars are the quotients by s modulo the order, although the second product overwrites its own operand |
| Ecdsa.SignsIff | tools/carliv_mkbootimg_tools-linux/libmincrypt/p256_ecdsa.c:49-54 | the signature equation does not depend on which inverse of s is taken |
| PointMul.PointsMulVartime | tools/carliv_mkbootimg_tools-linux/libmincrypt/p256_ec.c:1245-1279 | digits in, digits out: the result is the affine point n1 G + n2 Q, with (0, 0) for the point at infinity, for all scalars below the order, also when the outputs are the scalars themselves |
| PointMul.BasePointMul | tools/carliv_mkbootimg_tools-linux/libmincrypt/p256_ec.c:1225-1237 | the result is the affine point n G for every n below the order, (0, 0) for n = 0 |
| PointMul.PointToAffine | tools/carliv_mkbootimg_tools-linux/libmincrypt/p256_ec.c:1103-1111 | the outputs stand for x and y scaled by the powers of z to the P - 2, and stay below 2^257, so that the conversion that follows is exact |
| PointMul.AffineFinite | tools/carliv_mkbootimg_tools-linux/libmincrypt/p256_ec.c:1103-1111 | for a finite point those are its canonical affine coordinates |
| PointMul.AffineInfinite | tools/carliv_mkbootimg_tools-linux/libmincrypt/p256_ec.c:1101-1111 | for both forms in which infinity occurs (z = 0, or x = y = 0) they are (0, 0) |
| PointMul.SumHolds | tools/carliv_mkbootimg_tools-linux/libmincrypt/p256_ec.c:926-972 | the general addition is right for every pair of finite operands: equal, opposite (z comes out zero) and different |
| PointMul.CombineResults | tools/carliv_mkbootimg_tools-linux/libmincrypt/p256_ec.c:1262-1274 | the four cases of zero and nonzero scalars |
| Comb.ScalarBaseMult | tools/carliv_mkbootimg_tools-linux/libmincrypt/p256_ec.c:1046-1099 | the comb leaves scalar times G for every scalar below the order; for zero x and y are zero and z is the number 1 |
| Comb.CombRound | tools/carliv_mkbootimg_tools-linux/libmincrypt/p256_ec.c:1061-1098 | one round: two masked additions keep the accumulator equal to the processed scalar bits times G |
| Comb.RoundSum | tools/carliv_mkbootimg_tools-linux/libmincrypt/p256_ec.c:1059-1071 | a round doubles the accumulated value and adds each of its eight scalar bits once, with weight 2^(32 c); the value never exceeds the scalar |
| Comb.RoundDistinct | tools/carliv_mkbootimg_tools-linux/libmincrypt/p256_ec.c:1076-1079 | the accumulator and the selected entry are never the same nonzero multiple, because doubled digits are even and table digits are single bits |
| Comb.RoundApart | tools/carliv_mkbootimg_tools-linux/libmincrypt/p256_ec.c:1076-1079 | neither the same nor the opposite point nor a sum beyond the order reaches an addition |
| Comb.CombIndexBits | tools/carliv_mkbootimg_tools-linux/libmincrypt/p256_ec.c:1067-1071 | the four bits of an index are the bits of the four digits of its half |
| Comb.CombEnds | tools/carliv_mkbootimg_tools-linux/libmincrypt/p256_ec.c:1061-1098 | 32 rounds consume the whole scalar |
| Scalar.GetBitValue | tools/carliv_mkbootimg_tools-linux/libmincrypt/p256.c:58-61 | p256_get_bit is bit number `bit` of the value of the scalar |
| Scalar.MergePoint | tools/carliv_mkbootimg_tools-linux/libmincrypt/p256_ec.c:1083-1096 | the conditional copies choose the table point at infinity, the sum for a nonzero index, and nothing else; the infinity mask is zero exactly once a point is held |
| Scalar.MergeTracks | tools/carliv_mkbootimg_tools-linux/libmincrypt/p256_ec.c:1080-1096 | the sums that the formulas get wrong are never chosen |
| Scalar.DoubleStep | tools/carliv_mkbootimg_tools-linux/libmincrypt/p256_ec.c:1062-1064 | doubling in place keeps the accumulator, also while it holds no point |
| Window.ScalarMult | tools/carliv_mkbootimg_tools-linux/libmincrypt/p256_ec.c:1114-1169 | the window method leaves scalar times the point for every scalar below the order |
| Window.FillTable | tools/carliv_mkbootimg_tools-linux/libmincrypt/p256_ec.c:1121-1133 | the table holds the multiples 1 to 15 of the point |
| Window.NextWindow | tools/carliv_mkbootimg_tools-linux/libmincrypt/p256_ec.c:1141-1152 | a window shifts the accumulated value by four bits and adds its index |
| Window.WindowApart | tools/carliv_mkbootimg_tools-linux/libmincrypt/p256_ec.c:1154-1156 | no addition of the window meets the same or the opposite point |
| Window.WindowStep | tools/carliv_mkbootimg_tools-linux/libmincrypt/p256_ec.c:1154-1167 | one masked addition of a window keeps the accumulator |
| Select.CopyConditional | tools/carliv_mkbootimg_tools-linux/libmincrypt/p256_ec.c:977-984 | all nine limbs are copied under an all-ones mask and none under zero |
| Select.EqualMaskIs | tools/carliv_mkbootimg_tools-linux/libmincrypt/p256_ec.c:996-1000 | the folded mask is all ones exactly for equal indices |
| Select.SelectAffinePoint | tools/carliv_mkbootimg_tools-linux/libmincrypt/p256_ec.c:988-1008 | the outputs are entry index of the table, and zero for index 0 |
| Select.SelectJacobianPoint | tools/carliv_mkbootimg_tools-linux/libmincrypt/p256_ec.c:1012-1041 | the same for three coordinates |
| Points.PointDouble | tools/carliv_mkbootimg_tools-linux/libmincrypt/p256_ec.c:804-832 | the outputs stand for the doubling polynomials of the inputs modulo P, with every limb bound kept and any output aliasing any input |
| Points.PointAddMixed | tools/carliv_mkbootimg_tools-linux/libmincrypt/p256_ec.c:841-871 | the same for the mixed addition |
| Points.PointAdd | tools/carliv_mkbootimg_tools-linux/libmincrypt/p256_ec.c:879-918 | the same for the full addition |
| Points.PointAddOrDoubleVartime | tools/carliv_mkbootimg_tools-linux/libmincrypt/p256_ec.c:926-972 | doubles exactly when both coordinate differences are multiples of P, and adds otherwise |
| Curve.TangentLaw | tools/carliv_mkbootimg_tools-linux/libmincrypt/p256_ec.c:801-832 | the doubling polynomials give the point where the tangent at the input meets the curve again |
| Curve.ChordLaw | tools/carliv_mkbootimg_tools-linux/libmincrypt/p256_ec.c:834-918 | the addition polynomials give the point where the chord through the inputs meets the curve again |
| Curve.DoubleRepresents | tools/carliv_mkbootimg_tools-linux/libmincrypt/p256_ec.c:797-832 | a finite point of nonzero ordinate doubles to a finite point (z stays invertible) |
| Curve.AddRepresents | tools/carliv_mkbootimg_tools-linux/libmincrypt/p256_ec.c:797-918 | two finite points with different abscissas add to a finite point |
| Group.DoubleHolds | tools/carliv_mkbootimg_tools-linux/libmincrypt/p256_ec.c:801-803 | limbs that hold k G are doubled to limbs that hold 2k G |
| Group.AddHolds | tools/carliv_mkbootimg_tools-linux/libmincrypt/p256_ec.c:834-840 | limbs that hold j G and k G, neither equal nor opposite, are added to (j + k) G |
| Group.OppositeCancel | tools/carliv_mkbootimg_tools-linux/libmincrypt/p256_ec.c:920-925 | for opposite points the sum has z = 0 and is not taken for a doubling |
| Group.SameCoincide | tools/carliv_mkbootimg_tools-linux/libmincrypt/p256_ec.c:948-957 | two representations of the same point are recognised, whatever their z |
| Group.MultiplesGroup | tools/carliv_mkbootimg_tools-linux/libmincrypt/p256_ec.c:1239-1248 | the multiples of an invertible multiple satisfy the same laws, so the window method may start from Q |
| Felem.ReduceCarry | tools/carliv_mkbootimg_tools-linux/libmincrypt/p256_ec.c:196-212 | the value falls by 2P for each unit of the carry at 2^257; the limb bounds hold for carry <= 8, and in general exactly when limb 7 stays below 2^29 |
| Felem.CarryWords | tools/carliv_mkbootimg_tools-linux/libmincrypt/p256_ec.c:196-212 | the 32-bit wrap at limb 7 is undone before it can be read |
| FelemLinear.FelemSum | tools/carliv_mkbootimg_tools-linux/libmincrypt/p256_ec.c:218-239 | within the bounds for any words, and the sum modulo P if and only if no word overflows once the carry is added, as for all elements; for any aliasing |
| FelemLinear.CarryOverflows | tools/carliv_mkbootimg_tools-linux/libmincrypt/p256_ec.c:214-239 | limbs whose sums fit in 32 bits while the carry makes one of them overflow |
| FelemLinear.FelemDiff | tools/carliv_mkbootimg_tools-linux/libmincrypt/p256_ec.c:256-279 | the difference modulo P within the bounds; no word goes below zero |
| FelemLinear.Zero31Value | tools/carliv_mkbootimg_tools-linux/libmincrypt/p256_ec.c:241-249 | the constant added limb by limb is exactly 8P |
| FelemLinear.FelemScalar3 | tools/carliv_mkbootimg_tools-linux/libmincrypt/p256_ec.c:674-695 | three times the element, within the bounds |
| FelemLinear.FelemScalar4 | tools/carliv_mkbootimg_tools-linux/libmincrypt/p256_ec.c:701-726 | four times the element, within the bounds, with the bits that the shift drops accounted for |
| FelemLinear.FelemScalar8 | tools/carliv_mkbootimg_tools-linux/libmincrypt/p256_ec.c:732-757 | eight times the element; the stated exit bound holds if and only if limb 7 of the result does, and always when limb 8 < 2^29 |
| FelemLinear.Scalar8Exceeds | tools/carliv_mkbootimg_tools-linux/libmincrypt/p256_ec.c:728-757 | an input within the stated entry bound whose result breaks the stated exit bound |
| FelemLinear.ShiftWord | tools/carliv_mkbootimg_tools-linux/libmincrypt/p256_ec.c:736-754 | one limb of the shift loses no bits and carries at most m + the excess |
| FelemReduce.ReduceDegree | tools/carliv_mkbootimg_tools-linux/libmincrypt/p256_ec.c:291-474 | out * 2^257 is congruent to the value of the seventeen words for every tmp with tmp[16] < 2^60; the bounds hold; small products stay below 2^257 |
| FelemReduce.TopShiftIff | tools/carliv_mkbootimg_tools-linux/libmincrypt/p256_ec.c:340 | the unmasked shift of the last word keeps every bit if and only if the word is below 2^61 |
| FelemReduce.SpreadWords | tools/carliv_mkbootimg_tools-linux/libmincrypt/p256_ec.c:301-341 | overlapping 64-bit words become eighteen limbs of the same value |
| FelemReduce.SpreadWord | tools/carliv_mkbootimg_tools-linux/libmincrypt/p256_ec.c:317-336 | no word of the spreading loop overflows |
| FelemReduce.Eliminate | tools/carliv_mkbootimg_tools-linux/libmincrypt/p256_ec.c:343-446 | nine steps clear the low limbs by adding m P with 0 <= m < 2^257, without changing the value modulo P |
| FelemReduce.ShiftDown | tools/carliv_mkbootimg_tools-linux/libmincrypt/p256_ec.c:448-471 | the words above 2^257 are moved down to a carried element |
| FelemReduce.ShiftValue | tools/carliv_mkbootimg_tools-linux/libmincrypt/p256_ec.c:448-471 | moving them down divides the value by 2^257 exactly |
| FelemEliminate.EvenStep | tools/carliv_mkbootimg_tools-linux/libmincrypt/p256_ec.c:354-419 | an even step adds a multiple of P that clears its limb; wraps of a word cancel, except that the word at offset 9 may stand for -1 until the carry from below lifts it |
| FelemEliminate.OddStep | tools/carliv_mkbootimg_tools-linux/libmincrypt/p256_ec.c:423-445 | an odd step likewise clears the limb above it |
| FelemEliminate.EvenDeltaValue | tools/carliv_mkbootimg_tools-linux/libmincrypt/p256_ec.c:402-419 | what an even step adds is the low limb times P |
| FelemEliminate.OddDeltaValue | tools/carliv_mkbootimg_tools-linux/libmincrypt/p256_ec.c:428-445 | what an odd step adds is the low limb times 2^29 P |
| FelemBounds.EvenKeeps | tools/carliv_mkbootimg_tools-linux/libmincrypt/p256_ec.c:359-419 | the bounds that each word has at its distance from the current step survive an even step |
| FelemBounds.OddKeeps | tools/carliv_mkbootimg_tools-linux/libmincrypt/p256_ec.c:359-445 | and an odd step |
| FelemProduct.FelemMul | tools/carliv_mkbootimg_tools-linux/libmincrypt/p256_ec.c:529-596 | out * 2^257 is congruent to the product, within the bounds, for any aliasing; products of elements stay below 2^257 |
| FelemProduct.FelemSquare | tools/carliv_mkbootimg_tools-linux/libmincrypt/p256_ec.c:480-522 | the same for the square |
| FelemProduct.ProductWords | tools/carliv_mkbootimg_tools-linux/libmincrypt/p256_ec.c:524-596 | the seventeen words have exactly the value of the product, and squaring forms the same words as multiplying an element by itself |
| FelemProduct.ColumnsFit | tools/carliv_mkbootimg_tools-linux/libmincrypt/p256_ec.c:499-500 | every column is below 2^63 and the last below 2^60 |
| FelemProduct.ColumnsValue | tools/carliv_mkbootimg_tools-linux/libmincrypt/p256_ec.c:532-593 | the doubled cross terms are exactly what the mixed 29/28-bit radix needs |
| FelemPower.FelemInv | tools/carliv_mkbootimg_tools-linux/libmincrypt/p256_ec.c:602-668 | the addition chain computes the power P - 2 for every element |
| FelemPower.PowerInverts | tools/carliv_mkbootimg_tools-linux/libmincrypt/p256_ec.c:602-608 | that power is the inverse of every nonzero residue, and zero for zero |
| FelemZero.FelemIsZeroVartime | tools/carliv_mkbootimg_tools-linux/libmincrypt/p256_ec.c:759-792 | the loop ends, and the answer is yes exactly for multiples of P, in whatever form |
| FelemZero.MinimalIsZero | tools/carliv_mkbootimg_tools-linux/libmincrypt/p256_ec.c:788-791 | of the carried forms only those of 0, P and 2P are multiples of P |
| FelemZero.FvUnique | tools/carliv_mkbootimg_tools-linux/libmincrypt/p256_ec.c:788-791 | a carried form is determined by its value |
| FelemZero.ReducePass | tools/carliv_mkbootimg_tools-linux/libmincrypt/p256_ec.c:770-785 | one pass lowers the value by 2P times its carry |
| Residue.UnscaledIff | tools/carliv_mkbootimg_tools-linux/libmincrypt/p256_ec.c:61-62 | limbs stand for x exactly when their value is congruent to x * 2^257 |
| Residue.ProductStands | tools/carliv_mkbootimg_tools-linux/libmincrypt/p256_ec.c:281-287 | a Montgomery product stands for the product of what its factors stand for |
| Montgomery.ToMontgomery | tools/carliv_mkbootimg_tools-linux/libmincrypt/p256_ec.c:1179-1197 | the limbs are in normal form and stand for the number modulo P, for all 256-bit numbers |
| Montgomery.FromMontgomery | tools/carliv_mkbootimg_tools-linux/libmincrypt/p256_ec.c:1200-1221 | the digits are the residue that the limbs stand for, if and only if the `|=` of the last carry merges disjoint bits |
| Montgomery.LowLimbMerges | tools/carliv_mkbootimg_tools-linux/libmincrypt/p256_ec.c:1208-1215 | it does when limb 0 is below 2^29 |
| Montgomery.BelowMerges | tools/carliv_mkbootimg_tools-linux/libmincrypt/p256_ec.c:1208-1217 | it does for every value below 2^257, so for every product |
| Montgomery.MergeFails | tools/carliv_mkbootimg_tools-linux/libmincrypt/p256_ec.c:1214-1217 | an element within all bounds, of value 2^257, for which it does not |
| Montgomery.ToAndFrom | tools/carliv_mkbootimg_tools-linux/libmincrypt/p256_ec.c:1178-1221 | converting there and back is reduction modulo P |
| P256Point.IsValidPoint | tools/carliv_mkbootimg_tools-linux/libmincrypt/p256.c:338-359 | accepts if and only if both coordinates are in range, the point is on the curve, and the last sum is not left between P and 2^256 |
| P256Point.MissedPoint | tools/carliv_mkbootimg_tools-linux/libmincrypt/p256.c:355-356 | a point of the curve that is turned away |
| P256ModMul.ModMul | tools/carliv_mkbootimg_tools-linux/libmincrypt/p256.c:143-190 | the canonical residue of a * (top_b, b) for every modulus whose top digit is all ones, with any aliasing of c |
| P256ModMul.Product | tools/carliv_mkbootimg_tools-linux/libmincrypt/p256.c:152-160 | the first loop builds the exact product |
| P256ModMul.ReduceDigits | tools/carliv_mkbootimg_tools-linux/libmincrypt/p256.c:162-183 | both assertions hold at every digit, and the value modulo MOD is kept |
| P256ModMul.GuessLeaves | tools/carliv_mkbootimg_tools-linux/libmincrypt/p256.c:167-175 | the guessed quotient digit leaves a top of 0 or 1 |
| P256ModMul.SecondStep | tools/carliv_mkbootimg_tools-linux/libmincrypt/p256.c:174-182 | the masked subtraction then clears it |
| P256Int.MulAdd | tools/carliv_mkbootimg_tools-linux/libmincrypt/p256.c:69-85 | top and digits grow by exactly a * b |
| P256Int.SubTop | tools/carliv_mkbootimg_tools-linux/libmincrypt/p256.c:87-106 | top and digits fall by exactly the other number, with the assertion proved |
| P256Int.SubM | tools/carliv_mkbootimg_tools-linux/libmincrypt/p256.c:108-123 | the masked subtraction and its borrow |
| P256Int.AddM | tools/carliv_mkbootimg_tools-linux/libmincrypt/p256.c:125-140 | the masked addition and its carry |
| P256Int.Mod | tools/carliv_mkbootimg_tools-linux/libmincrypt/p256.c:331-336 | subtracts the modulus once if that is possible: the residue of every value below twice the modulus |
| P256Shift.Shl | tools/carliv_mkbootimg_tools-linux/libmincrypt/p256.c:194-209 | digits and returned top together are the value shifted left |
| P256Shift.Shr | tools/carliv_mkbootimg_tools-linux/libmincrypt/p256.c:211-221 | the quotient by a power of two |
| P256Shift.Shr1 | tools/carliv_mkbootimg_tools-linux/libmincrypt/p256.c:223-233 | half the value with a bit shifted in |
| P256Compare.Cmp | tools/carliv_mkbootimg_tools-linux/libmincrypt/p256.c:236-250 | the order of the two values as -1, 0 or 1 |
| P256Compare.Sub | tools/carliv_mkbootimg_tools-linux/libmincrypt/p256.c:252-263 | the difference modulo 2^256 and its borrow, with or without an output |
| P256Compare.Add | tools/carliv_mkbootimg_tools-linux/libmincrypt/p256.c:265-276 | the sum modulo 2^256 and its carry |
| P256Compare.AddD | tools/carliv_mkbootimg_tools-linux/libmincrypt/p256.c:278-288 | the sum with one digit and its carry |
| P256Compare.IsZero | tools/carliv_mkbootimg_tools-linux/libmincrypt/p256.c:63-67 | true exactly for zero |
| P256ModInv.ModInv | tools/carliv_mkbootimg_tools-linux/libmincrypt/p256.c:291-329 | for every nonzero a and odd MOD the loop ends; a * b is the greatest common divisor modulo MOD, so b is the inverse when there is one |
| P256ModInv.StepInv | tools/carliv_mkbootimg_tools-linux/libmincrypt/p256.c:299-327 | every pass keeps U = R a, V = S a, the ranges and the common divisors, and lowers U + V |
| P256ModInv.ZeroNeverEnds | tools/carliv_mkbootimg_tools-linux/libmincrypt/p256.c:299-327 | for a = 0 no number of passes ends the loop |
| Rsa.ModPow | tools/carliv_mkbootimg_tools-linux/libmincrypt/rsa.c:95-143 | the bytes become m^e modulo n for e = 3 and 65537 and any word count: the power less n if it is at least n; congruent always, and the residue when 2n >= R or when 4n^2 <= R and rr < n |
| Rsa.PowerCong | tools/carliv_mkbootimg_tools-linux/libmincrypt/rsa.c:115-128 | the chain of multiplications leaves a number congruent to m^e |
| Rsa.PowerAtMostTwice | tools/carliv_mkbootimg_tools-linux/libmincrypt/rsa.c:130-133 | that number is below 2n for every message when 2n >= R, and when 4n^2 <= R and rr < n |
| Rsa.ReducedIff | tools/carliv_mkbootimg_tools-linux/libmincrypt/rsa.c:130-133 | one subtraction gives the residue if and only if the number is below 2n, for every key and message |
| RsaBetween.BetweenNotReduced | tools/carliv_mkbootimg_tools-linux/libmincrypt/rsa.c:130-133 | for every even word count from 4, with e = 3, n = (R - 1) / 3 and rr = 1: a message for which it is not, so the output is not the residue |
| Rsa.MontMul | tools/carliv_mkbootimg_tools-linux/libmincrypt/rsa.c:81-93 | the result is the Montgomery product of its operands, below 2^(32 len) |
| Rsa.MontProductCong | tools/carliv_mkbootimg_tools-linux/libmincrypt/rsa.c:81-93 | that product times 2^(32 len) is congruent to a b |
| Rsa.MontMulAdd | tools/carliv_mkbootimg_tools-linux/libmincrypt/rsa.c:56-79 | one word step keeps c below 2^(32 len): nothing overflows 64 bits and one conditional subtraction suffices |
| Rsa.MontStepCong | tools/carliv_mkbootimg_tools-linux/libmincrypt/rsa.c:56-79 | one step divides by 2^32 exactly, modulo n |
| Rsa.SubM | tools/carliv_mkbootimg_tools-linux/libmincrypt/rsa.c:32-42 | the difference modulo 2^(32 len) |
| Rsa.GeM | tools/carliv_mkbootimg_tools-linux/libmincrypt/rsa.c:44-54 | the order of the values, from the highest differing word |
| Bytes.BytesAreWords | tools/carliv_mkbootimg_tools-linux/libmincrypt/rsa.c:105-113 | the big-endian bytes and the little-endian words are the same number |
| PktIdMap.Map.constructor | patches/bcmdhd/statbuf/modified/dhd_msgbuf.c:528-558 | all ids free, in order, and locker 0 taken |
| PktIdMap.Map.Reserve | patches/bcmdhd/statbuf/modified/dhd_msgbuf.c:650-676 | the id on top of the stack becomes live; it was not, and is never 0 unless the pool is empty |
| PktIdMap.Map.Save | patches/bcmdhd/statbuf/modified/dhd_msgbuf.c:678-697 | the mapping is kept under the id, the length modulo 2^16 |
| PktIdMap.Map.Alloc | patches/bcmdhd/statbuf/modified/dhd_msgbuf.c:699-708 | both steps, or nothing when the pool is empty |
| PktIdMap.Map.Free | patches/bcmdhd/statbuf/modified/dhd_msgbuf.c:716-746 | returns what was saved under a live id and makes it free; an id not in use changes nothing |
| PktIdMap.Map.Clear | patches/bcmdhd/statbuf/modified/dhd_msgbuf.c:599-630 | every id is free again, and each packet is released as often as live ids hold it |
| PktIdMap.PacketsHeld | patches/bcmdhd/statbuf/modified/dhd_msgbuf.c:599-630 | the list of released packets has each packet as often as live ids hold it |
| PktIds.RunSound | patches/bcmdhd/statbuf/modified/dhd_msgbuf.c:508-526 | over any run of reserve, save, free and clear the free stack holds exactly the ids not in use, once each, and free plus used ids are all ids |
| PktIds.HeldUntilFreed | patches/bcmdhd/statbuf/modified/dhd_msgbuf.c:512-518 | over any run that does not free it, a live id keeps its packet and mapping and is not handed out again |
| PktIds.ReserveFree | patches/bcmdhd/statbuf/modified/dhd_msgbuf.c:2236-2260 | an id reserved and given back leaves the stack as it was |
| PktIds.Conserved | patches/bcmdhd/statbuf/modified/dhd_msgbuf.c:533-548 | free and used ids add up to the number of items |
| Rings.Ring.GetSpace | patches/bcmdhd/statbuf/modified/dhd_msgbuf.c:3350-3381 | the grant starts at the old write index and moves it on modulo the ring size |
| Rings.Ring.GiveBack | patches/bcmdhd/statbuf/modified/dhd_msgbuf.c:1476-1483 | the unused end of a grant is returned, also when the grant ended at the end of the ring |
| Rings.RxBufPost | patches/bcmdhd/statbuf/modified/dhd_msgbuf.c:1362-1490 | exactly the filled slots are kept; each holds the id of its own packet, the rest is given back, and a packet that could not be posted is released |
| Rings.PostedLive | patches/bcmdhd/statbuf/modified/dhd_msgbuf.c:1394-1474 | every posted id was free, is live with its own packet and mapping, and disturbs no other id |
| Rings.PostedDistinct | patches/bcmdhd/statbuf/modified/dhd_msgbuf.c:1394-1474 | no id is posted twice |
| Rings.Protocol.RxFill | patches/bcmdhd/statbuf/modified/dhd_msgbuf.c:1324-1360 | the posted count grows by exactly the buffers posted and never passes its limit; it is reached unless 63 bursts were made or the last burst had no room, no usable first buffer or no free id, and always with enough ids, usable buffers and room and a gap of at most 62 bursts; a gap above 32767 posts nothing because the difference is kept in 16 signed bits |
| Rings.Protocol.ReturnRxBuf | patches/bcmdhd/statbuf/modified/dhd_msgbuf.c:2440-2455 | the posted count falls by the buffers returned, but not below zero, and once 32 are missing the fill runs and is as complete as RxFill promises |
| Rings.Protocol.RunPosts | patches/bcmdhd/statbuf/modified/dhd_msgbuf.c:1324-1360 | over any run of fills and returns the posted count stays within its limit and, with the returns, accounts for every packet posted and every slot |
| Rings.TxPost | patches/bcmdhd/statbuf/modified/dhd_msgbuf.c:2234-2260 | a transmit post that finds no id or no slot leaves ids and ring as they were |
| Rings.CtrlPost | patches/bcmdhd/statbuf/modified/dhd_msgbuf.c:1517-1604 | a control post either fills one slot with a live id or gives back the slot and the packet |
| SdioCredit.Bus.GuardsExact | patches/bcmdhd/statbuf/modified/dhd_sdio.c:475-491 | the 8-bit guards read the true credit: data needs more than one, control at least one |
| SdioCredit.Bus.SendFromQ | patches/bcmdhd/statbuf/modified/dhd_sdio.c:2833-2867 | frames carry consecutive numbers within the window and the last credit is never spent, whatever the bus does; it stops only at maxframes, an empty queue, one credit or a chain limit of zero; every packet taken is sent if the bus accepts all chains, and none if it accepts none |
| SdioCredit.Bus.TxPkt | patches/bcmdhd/statbuf/modified/dhd_sdio.c:2769-2770 | a chain advances the sequence number by its length when it is sent, and not at all otherwise |
| SdioCredit.Bus.TxCtl | patches/bcmdhd/statbuf/modified/dhd_sdio.c:3032-3088 | a control frame is sent at once when there is a credit and left to the DPC when there is none |
| SdioCredit.Bus.SendPendCtl | patches/bcmdhd/statbuf/modified/dhd_sdio.c:2914-2945 | a waiting control frame takes one credit if the bus accepts it |
| SdioCredit.Bus.RxHeader | patches/bcmdhd/statbuf/modified/dhd_sdio.c:6286-6292 | a header is believed exactly when it offers 0 to 0x70 frames more than were sent |
| SdioCredit.Bus.Stop | patches/bcmdhd/statbuf/modified/dhd_sdio.c:5033-5036 | stopping resets the window to four frames |
| SdioCredit.HeaderExact | patches/bcmdhd/statbuf/modified/dhd_sdio.c:6286-6292 | eight bits suffice: the host recovers the dongle's whole promise from a header |
| SdioCredit.Bus.TxCtlAwaited | patches/bcmdhd/statbuf/modified/dhd_sdio.c:3044-3065 | a waiting control frame that the DPC did not take is withdrawn when the wait ends |
| SdioCredit.Act | patches/bcmdhd/statbuf/modified/dhd_sdio.c:2769-2770 | each step of the driver, with its bus object, is one event between host and dongle, or none |
| SdioCredit.Run | patches/bcmdhd/statbuf/modified/dhd_sdio.c:233-234 | every run of the driver over data, control frames, headers and restarts is a run of events, so the host stays within what the dongle promised |
| SdioCredit.NeverOverruns | patches/bcmdhd/statbuf/modified/dhd_sdio.c:233-234 | over every interleaving of sends, promises, delayed headers and restarts the host never sends more than was promised |
| HashMap.Hashmap.constructor | tools/carliv_mkbootimg_tools-linux/libcutils/hashmap.c:43-75 | an empty map; its capacity is at least the one asked for if and only if four times that number does not wrap around 2^64 |
| HashMap.Hashmap.Get | tools/carliv_mkbootimg_tools-linux/libcutils/hashmap.c:221-234 | what the map maps the key to, or nothing |
| HashMap.Hashmap.ContainsKey | tools/carliv_mkbootimg_tools-linux/libcutils/hashmap.c:236-249 | whether the map maps the key |
| HashMap.Hashmap.Put | tools/carliv_mkbootimg_tools-linux/libcutils/hashmap.c:189-219 | maps exactly the keys equal to this one to the value, returns the old one, counts new keys; keeps the load below three quarters, and the table while it is |
| HashMap.Hashmap.Remove | tools/carliv_mkbootimg_tools-linux/libcutils/hashmap.c:284-304 | unmaps exactly the keys equal to this one and returns the old value |
| HashMap.Hashmap.ExpandIfNecessary | tools/carliv_mkbootimg_tools-linux/libcutils/hashmap.c:101-130 | the map stays the same and the table doubles when it is over three quarters full and memory allows |
| HashMap.Hashmap.MoveAll | tools/carliv_mkbootimg_tools-linux/libcutils/hashmap.c:112-128 | relinking every entry keeps the map |
| HashMap.IndexIsMod | tools/carliv_mkbootimg_tools-linux/libcutils/hashmap.c:97-99 | the masked index is the hash modulo the power-of-two bucket count, for negative hashes too |
| HashTable.MoveEntry | tools/carliv_mkbootimg_tools-linux/libcutils/hashmap.c:112-123 | moving one entry keeps each entry in its own bucket and no key twice |
| HashTable.PositionFinds | tools/carliv_mkbootimg_tools-linux/libcutils/hashmap.c:178-187 | the search with stored hashes and pointer shortcut finds the entry of an equal key, if there is one |
| HashTable.FindSame | tools/carliv_mkbootimg_tools-linux/libcutils/hashmap.c:101-130 | tables of different sizes with the same entries are the same map |
| HashMap.Hashmap.Locate | tools/carliv_mkbootimg_tools-linux/libcutils/hashmap.c:205-217 | the walk along the links ends at the entry of an equal key, or at the end of the chain if the map has none |
| HashMap.Hashmap.Append | tools/carliv_mkbootimg_tools-linux/libcutils/hashmap.c:194-203 | a new node at the end of one chain leaves every other chain as it was |
| HashMap.Hashmap.Unlink | tools/carliv_mkbootimg_tools-linux/libcutils/hashmap.c:288-296 | the link that led to a node leads to its successor, and every other chain stays |
| HashMap.Hashmap.Relink | tools/carliv_mkbootimg_tools-linux/libcutils/hashmap.c:112-123 | every node is moved once to the front of its new chain, and no link is read after it was overwritten |
| HashChain.ShapeApart | tools/carliv_mkbootimg_tools-linux/libcutils/hashmap.c:112-123 | no node is in two places, because every entry is in the bucket of its hash and no key is there twice |
| BootWriter.MkBootImg | tools/carliv_mkbootimg_tools-linux/mkbootimg/mkbootimg.c:175-419 | the first complaint about the options, or the image: header, kernel, ramdisk, second stage and device tree on whole pages, with sizes, addresses modulo 2^32, both command line fields and the SHA-1 of the contents in the header |
| BootWriter.LoadMtkFile | tools/carliv_mkbootimg_tools-linux/mkbootimg/mkbootimg.c:63-119 | a file of at least four bytes that does not start with the magic gets a header of 512 bytes with its size and name; any other file is unchanged |
| BootWriter.HashImage | tools/carliv_mkbootimg_tools-linux/mkbootimg/mkbootimg.c:372-383 | the hash is the SHA-1 of each section followed by its size, the device tree only if it is given |
| BootWriter.BootImgHdr.SetCmdline | tools/carliv_mkbootimg_tools-linux/mkbootimg/mkbootimg.c:296-303 | the first 511 bytes of the command line go to one field, the rest to the other |
| BootWriter.OutFile.WritePadding | tools/carliv_mkbootimg_tools-linux/mkbootimg/mkbootimg.c:157-173 | zeros up to the next page, none after a full page |
| BootFormat.PadAligns | tools/carliv_mkbootimg_tools-linux/mkbootimg/mkbootimg.c:157-173 | an item and its padding end on a page boundary, with less than a page of padding |
| BootFormat.HeaderRoundTrip | tools/carliv_mkbootimg_tools-linux/mkbootimg/bootimg.h:33-60 | reading the packed header back gives every field that was written |
| BootHash.HashInputInjective | tools/carliv_mkbootimg_tools-linux/mkbootimg/mkbootimg.c:372-383 | equal hash input means equal kernel, ramdisk, second stage and device tree, for images that both have a device tree or both have none: the sizes between the sections tell them apart |
| BootHash.ContentsPlaces | tools/carliv_mkbootimg_tools-linux/mkbootimg/mkbootimg.c:372-383 | kernel, ramdisk, second stage and device tree are hashed in this order, each followed by the four bytes that the header holds for its size |
| BootHash.HeaderPlaces | tools/carliv_mkbootimg_tools-linux/mkbootimg/bootimg.h:33-51 | sizes, addresses modulo 2^32 and the page size stand at their places of the image |
| BootHash.IdPlace | tools/carliv_mkbootimg_tools-linux/mkbootimg/mkbootimg.c:384-386 | the image begins with ANDROID!, and byte 576 starts the hash of its contents |
| BootHash.MtkHeaderReads | tools/carliv_mkbootimg_tools-linux/mkbootimg/mkbootimg.c:103-112 | a reader of bytes 4 to 39 of an MTK header gets the length of the file and the name |
| BootHash.MtkBlobsRead | tools/carliv_mkbootimg_tools-linux/mkbootimg/mkbootimg.c:103-112 | the kernel's header is called KERNEL and the ramdisk's ROOTFS or RECOVERY, by the name of the image |
| BootReader.UnpackBootImg | tools/carliv_mkbootimg_tools-linux/mkbootimg/unpackbootimg.c:54-323 | the files that are taken out of any input of at least eight bytes |
| BootReader.InFile.FindMagic | tools/carliv_mkbootimg_tools-linux/mkbootimg/unpackbootimg.c:89-112 | the search ends at the first place of the magic; bytes left in the buffer by short reads at the end of the file never complete it |
| BootImages.UnpackImage | tools/carliv_mkbootimg_tools-linux/mkbootimg/unpackbootimg.c:54-323 | of every image that mkbootimg writes, with up to 512 bytes in front, the reader takes each section, less 512 bytes of kernel and ramdisk if it saw an MTK magic and both are at least that long |
| BootImages.UnpackPages | tools/carliv_mkbootimg_tools-linux/mkbootimg/unpackbootimg.c:130-132 | a page size from the caller replaces the one in the header: with the page size that the image was written with every section comes out, whatever the header says |
| BootImages.SectionsBack | tools/carliv_mkbootimg_tools-linux/mkbootimg/unpackbootimg.c:165-318 | the reads and the padding that is passed over meet the sections one by one and end at the last byte before the padding of the device tree |
| BootImages.ReturnsIff | tools/carliv_mkbootimg_tools-linux/mkbootimg/unpackbootimg.c:89-101 | kernel and ramdisk come back if and only if mkbootimg dropped no ramdisk and put headers on both exactly when the reader sees an MTK magic in the first 4100 bytes |
| BootImages.PlainReturns | tools/carliv_mkbootimg_tools-linux/mkbootimg/unpackbootimg.c:89-101 | without MTK headers: if and only if that magic is at none of the first 4097 places |
| BootImages.MtkReturns | tools/carliv_mkbootimg_tools-linux/mkbootimg/unpackbootimg.c:89-101 | with MTK headers on both: always, for pages of at most 4096 bytes |
| BootImages.BoardMisleads | tools/carliv_mkbootimg_tools-linux/mkbootimg/unpackbootimg.c:89-101 | an image without MTK headers whose board name is the magic does not come back |
| BootImages.CmdlineRebuilt | tools/carliv_mkbootimg_tools-linux/mkbootimg/mkbootimg.c:291-303 | the two fields together hold the command line for every accepted length |
| BootImages.CmdlineKeptIff | tools/carliv_mkbootimg_tools-linux/mkbootimg/unpackbootimg.c:296-302 | the reader writes the whole command line if and only if it has 1 to 511 bytes |
| BootImages.RepackSame | tools/carliv_mkbootimg_tools-linux/mkbootimg/unpackbootimg.c:130-318 | packing what the reader took out of an image gives the same image, byte for byte, when the sections came back and the header needs nothing that the reader does not write |
| Sha256.Transform | tools/carliv_mkbootimg_tools-linux/libmincrypt/sha256.c:57-112 | one block goes into the state by the compression function of section 6.2.2 of FIPS 180-4 |
| Sha256Abc.DigestAbc | tools/carliv_mkbootimg_tools-linux/libmincrypt/sha256.c:57-175 | the SHA-256 of "abc" is the value published with FIPS 180-4, evaluated over padding, schedule, all 64 rounds and output |
| Sha1Abc.DigestAbc | tools/carliv_mkbootimg_tools-linux/libmincrypt/sha.c:38-155 | the SHA-1 of "abc" is the published value |
| ShaConstants.KeysAreRoots | tools/carliv_mkbootimg_tools-linux/libmincrypt/sha256.c:39-55 | constant t is the first 32 fractional bits of the cube root of the t-th prime, for all 64 |
| ShaConstants.InitialIsRoots | tools/carliv_mkbootimg_tools-linux/libmincrypt/sha256.c:122-134 | the initial state is the same of the square roots of the first eight primes |
| ShaConstants.Keys1AreRoots | tools/carliv_mkbootimg_tools-linux/libmincrypt/sha.c:65-72 | the constants of SHA-1 are the square roots of 2, 3, 5 and 10, times 2^30 |
| ShaPadding.OneBlock | tools/carliv_mkbootimg_tools-linux/libmincrypt/sha.c:122-135 | padding "abc" gives one block: the message, the byte 0x80, zeros and the length 24 |
| Sha256.ScheduleNext | tools/carliv_mkbootimg_tools-linux/libmincrypt/sha256.c:71-75 | the order in which the schedule is added up does not matter |
| Sha1.Transform1 | tools/carliv_mkbootimg_tools-linux/libmincrypt/sha.c:38-86 | one block goes into the state by the compression function of section 6.1.2 |
| Sha1.FormsAgree | tools/carliv_mkbootimg_tools-linux/libmincrypt/sha.c:65-71 | the rewritten Ch and Maj are those of section 4.1.1 |
| ShaStream.Context.Update | tools/carliv_mkbootimg_tools-linux/libmincrypt/sha256.c:136-149 | after any piece the state holds the whole blocks of all bytes so far and the buffer the rest |
| ShaStream.Context.Final | tools/carliv_mkbootimg_tools-linux/libmincrypt/sha256.c:152-175 | the loop ends on a block boundary and the digest is that of the padded message |
| ShaStream.Context.WriteDigest | tools/carliv_mkbootimg_tools-linux/libmincrypt/sha.c:137-145 | the state words, four big-endian bytes each |
| ShaStream.Hash | tools/carliv_mkbootimg_tools-linux/libmincrypt/sha.c:148-155 | one call gives the digest of the message |
| ShaStream.HashPieces | tools/carliv_mkbootimg_tools-linux/libmincrypt/sha.c:107-120 | any division of the message over update calls gives the digest of the whole |
| ShaStream.PaddedShape | tools/carliv_mkbootimg_tools-linux/libmincrypt/sha.c:128-135 | the padded message fills whole blocks and ends with its bit length |
| ShaStream.PaddingInjective | tools/carliv_mkbootimg_tools-linux/libmincrypt/sha.c:128-135 | different messages are padded differently |

## Left out

- `Group.CyclicGroup` is assumed: associativity of the group law and the order of the curve are not derived from the curve equation.
- `Comb.CombTable` is assumed: the entries of the generated table are not checked one by one.
- Rsa.ReducedIff: between the two ranges of `Rsa.PowerAtMostTwice` no condition on the key alone is given for when all of its messages are reduced.
- Rsa: the padding and hash comparison of RSA_verify; other exponents, for which the source has no branch.
- P256Shift.Shl: shifts by multiples of 32 are excluded, as the C shift by 32 - n is undefined for them; no caller makes one.
- FelemLinear.FelemSum: loops that handle an even and an odd limb per pass are one loop with a parity test, here and in the other field operations.
- FelemProduct.FelemMul: the seventeen words are formed as one sequence before they go into the local array.
- FelemPower.FelemInv: the runs of squarings are calls of one helper, and copies that are never changed are shared.
- Points.PointAdd: the steps that the three additions have in common are one helper method.
- Window.FillTable: pointers into the table become copies of nine limbs out of it and back into it.
- Ecdsa.Verify: keys that the point check accepts are assumed to be multiples of the base point; dsa_sig.c, which parses encoded signatures, is not modelled.
- Constant running time and what caches reveal.
- PktIdMap.Map.Clear: unmapping and freeing are recorded as the list of released packets; dhd_pktid_map_fini, which frees the map as well, is not modelled.
- PktIdMap.Map.Save: the two assertions on the caller are preconditions.
- Rings.Ring.GetSpace: CHECK_WRITE_SPACE is defined in a header that is not part of this model; its result is a parameter that is free space in one piece.
- Rings.TxPost: only the allocation part; descriptors, metadata buffers, flow rings, DMA calls, locks and the doorbell are left out.
- Rings.RxBufPost: the slots are counted in eight bits, so that no grant above 255 slots is described; its one caller asks for at most 16.
- Rings.Protocol.ReturnRxBuf: the completions that return buffers, and give back their ids, are not modelled; it is told their number.
- Rings.Protocol.RxFill: what the allocator, the DMA mapping and the ring offer in each burst are parameters.
- SdioCredit.Bus.SendFromQ: whether the bus accepts a chain is a parameter; packet queues are their lengths; the SWTXGLOM build, which advances the sequence number twice, is left out, and so are the test for a device that is asleep and the register read in poll mode, whose failure ends the loop as well.
- SdioCredit.Bus.TxCtl: what follows the wait for the DPC is a method of its own, since the DPC runs in between; error counters other than txcnt_timeout are left out.
- SdioCredit.Bus.DataOk: the form of the guards with tx_max_offset, for BCMSDIOH_TXGLOM_EXT, is left out.
- SdioCredit.NeverOverruns: headers are assumed to arrive in order, and none of before a restart after it, and the dongle to promise at most 0x70 frames beyond what it received.
- HashMap.Hashmap: hashmapMemoize, hashmapForEach, hashmapFree and the lock are left out.
- HashMap.Hashmap.SetLink: the C pointer to a link is the previous node, or null for the bucket.
- HashMap.Hashmap.Put: whether there is memory for an entry and for a larger table are parameters; no table reaches 2^63 buckets.
- ShaStream.Context.Final: messages are below 2^61 bytes, the limit of FIPS 180-4.
- BootWriter.MkBootImg: parsing of the options, failing reads and writes, and what is printed; files are below 2^31 - 512 bytes.
- BootReader.UnpackBootImg: names of the files that are written, hexadecimal text of numbers and newlines after strings; of a file that ends early only the bytes that are there are stated.
- BootImages.RepackSame: an empty device tree, an address that the reader does not write and a longer command line are excluded by its conditions.
- Register, clock and power handling, firmware download and the event loop of dhd_sdio.c.
