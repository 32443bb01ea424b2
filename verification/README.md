# Ed25519-donna and the ripple state machines, verified

This project models, in Dafny, the arithmetic of the 64-bit Ed25519-donna
implementation from the limbs up to signatures, its streaming SHA-512, and three
stateful components of ripple: the tagged cache, the block allocator and the dispute
over a transaction. `dafny verify dfyconfig.toml` checks all of it.

**The scalar side.** Points are elements of any abelian group (`Groups`). The batch
multiplication (`BatchHeap`, `Coefficients`, `FinalStep`, `BosCoster`,
`BatchExactness`) works in place on its heap arrays; every round keeps the linear
combination and the gcd of the scalars in the heap and the coefficients of every
point, which says exactly what the loop ends with. Scalars modulo
L = 2^252 + 27742317777372353535851937790883648493 are five 56-bit limbs (`Scalars`,
`Modm`, `ModmMul`, `ModmBytes`); signed digits are in `Digits` and `Recode`, the
table-driven multiplications in `ScalarMult`, the scheme in `Ed25519`. `CurveModel`
shows that what `Ed25519` asks of a curve can be met. `BatchVerify` is verification in
batches, and `BatchMeaning` says what a batch tests.

**The field and the curve.** p = 2^255 - 19, in five 51-bit limbs (`Field`,
`FieldMul`, `FieldPow`, `FieldBytes`). Words are natural numbers: every sum is shown
to fit 64 or 128 bits, and no limb-wise difference goes below zero. The point formulas
(`Points`) are proved against section 5.1.4 of RFC 8032 modulo p; `PointLaws` proves
that these formulas are the Edwards law and stay on the curve, `PointBytes`
encodes and decodes points, and `BaseNiels` selects entries of the base point table.
`CurvePoints` and `LimbMult` join the two sides: in any abelian group of affine points
with the Edwards law, the loops on limbs return limbs of the multiples that
`ScalarMult` speaks of.

**The state machines.** `Sha512`, `TaggedCache`, `Qalloc` and `Dispute` hold classes
with an invariant that each operation keeps, so it holds in every run.

Bit operations are defined on numbers in `Bits`, and bytes in `Bytes`; a mask of low
ones and a shift appear as remainder, quotient and product, the other operators as
themselves.

## What the code does and a reader might not expect

- `ge25519_multi_scalarmult_vartime_final` starts from the point and then meets the
  leading bit again, so a scalar s of 2 or more is not what it multiplies by; it also
  starts at limb 3. `BatchExactness.ExactIffWhole` is the exact condition for the
  batch result to be the combination, `DecisionIff` the exact condition for the test
  for the neutral element to be right, which it is whenever the heap was extended;
  `OverlookedExample` is an input where it is wrong.
- `ed25519_sign_open_batch` does not look at the top bits of S, nor whether R is in
  canonical form, so a batch can pass with a signature that `ed25519_sign_open`
  refuses. `BatchMeaning.PassesIff` is what a batch asks for, `SingleIff` what single
  verification does, and `LargeScalar` a signature that tells them apart.
- `ed25519_sign_open` asks for S < 2^253 and reduces S, against section 5.1.7 of RFC
  8032, which asks for S < L (`Ed25519.OtherScalars`).
- `ConsensusParms` declares times and percentages as `size_t`, so a negative
  `percentTime` counts as a very late one; `Dispute.OneStretchIff` says for which times
  our vote behaves.
- `TaggedCache::canonicalize` counts a null pointer as a cached object:
  `m_cache_count` is the number of strong entries plus the nulls stored since the
  last clear, and the first alone if and only if there were none
  (`TaggedCache.StoreNull`, `CountIsStrong`). `sweep` divides by zero for a negative
  target size on an empty cache.
- `qalloc_impl::allocate` can return null for alignments above that of malloc;
  `Qalloc.AlwaysFitsIff` says for which requests that cannot happen. The block it made
  for the purpose stays current and empty and serves the next request that fits. If
  the next one does not fit, the block is dropped and never freed: at destruction,
  with nothing live, exactly these blocks leak (`Qalloc.Allocator.Destroy`,
  `Qalloc.LeakingRun`).
- `ge25519_unpack_negative_vartime` accepts encodings of y that are not below p, and
  x == 0 with the sign bit set, against section 5.1.3 of RFC 8032;
  `PointBytes.Reencode` says, in terms of y and the sign bit alone, that these are the
  only encodings it accepts that are not those of their points.

## Model

| member | source | states |
|---|---|---|
| BosCoster.MultiScalarMultVartime | src/ed25519-donna/ed25519-donna-batchverify.h:108-130 | for every odd count and all scalars (second half below 2^128), in every abelian group, the result itself: with d the gcd of the scalars that entered the heap, the combination of their points with all coefficients divided by d, times the coefficient that the final step makes of d; the loop ends |
| BosCoster.Round | src/ed25519-donna/ed25519-donna-batchverify.h:118-127 | one round keeps, over the entries in the heap, the linear combination and the gcd of the scalars, keeps every point a known integer combination of the first ones, leaves the others alone, keeps the max-heap and the limb window, and either extends the heap for the only time or makes the sum of the scalars smaller |
| Coefficients.RoundKeepsCombination | src/ed25519-donna/ed25519-donna-batchverify.h:125-126 | a·A + b·B == (a - b)·A + b·(B + A) inside a combination of any length |
| Coefficients.SpansRound | src/ed25519-donna/ed25519-donna-batchverify.h:125-126 | with a matrix K such that point i is the combination of the first points by row i, and the scalars weigh the rows to the first scalars, a round adds one row to another and keeps both |
| Coefficients.SpansRoot | src/ed25519-donna/ed25519-donna-batchverify.h:116-129 | when one scalar d is left, its point is the combination of the first points with all coefficients divided by d |
| BosCoster.ExtendWhenSmall | src/ed25519-donna/ed25519-donna-batchverify.h:120-124 | the second half joins at most once, when the largest scalar is below 2^128, and the two largest scalars are then found again, with a positive second one |
| BosCoster.RoomFor128 | src/ed25519-donna/ed25519-donna-batchverify.h:115-122 | before the extension the shrunken limb window still covers 128 bits |
| BosCoster.WindowCovers128 | src/ed25519-donna/ed25519-donna-batchverify.h:118-122 | a window that holds a number of at least 2^127 holds every number below 2^128 |
| BatchExactness.ExactIffWhole | src/ed25519-donna/ed25519-donna-batchverify.h:108-130 | the result is the whole combination at all points if and only if every scalar the heap never took in is zero and the gcd d of the others satisfies d <= 1 or 3·2^223 <= d < 2^225 |
| BatchExactness.ExactIsWhole | src/ed25519-donna/ed25519-donna-batchverify.h:108-130 | under that condition the result is the whole combination in every abelian group |
| BatchExactness.FinalCoefficientKept | src/ed25519-donna/ed25519-donna-batchverify.h:76-107 | the final step returns scalar·point if and only if the scalar is at most 1 or in [3·2^223, 2^225) |
| BatchExactness.SpoiledExample | src/ed25519-donna/ed25519-donna-batchverify.h:76-130 | nine scalars 2 at the integers 1, 0, ..., 0: the combination is 2, the result is 6 |
| BatchExactness.DecisionIff | src/ed25519-donna/ed25519-donna-batchverify.h:108-141 | for scalars below L, in a group where k·q == 0 for some 0 < k < L implies 8·q == 0, as in that of the curve with its points of small order: the neutral test answers for the whole combination at all points if and only if every scalar the heap never took in is zero and the final step returns a point |
| BatchExactness.OverlookedExample | src/ed25519-donna/ed25519-donna-batchverify.h:108-141 | scalars 0, 1, 0, 0, 0, 1, 0, 0, 0 at the points 0, 0, 0, 0, 0, 1, 0, 0, 0: the heap never takes in the second 1, the result is neutral and the combination is not |
| BatchExactness.NeutralDecision | src/ed25519-donna/ed25519-donna-batchverify.h:108-141 | so the test is right at all points once the heap was extended, although the coefficient is not |
| BatchExactness.SameKernel | src/ed25519-donna/ed25519-donna-batchverify.h:76-107 | the coefficient that the final step makes of d < L sends the same points to the neutral element as d |
| BatchExactness.ExtendedIsDecidable | src/ed25519-donna/ed25519-donna-batchverify.h:120-129 | an extended heap covers all scalars and the final step returns |
| BatchExactness.IntegersHaveCofactor | src/ed25519-donna/ed25519-donna-batchverify.h:132-141 | the assumption on the group can be met |
| BatchExactness.CoveredPart | src/ed25519-donna/ed25519-donna-batchverify.h:108-130 | the combination of the covered entries is the gcd times the point that was left |
| FinalStep.MultiScalarMultFinal | src/ed25519-donna/ed25519-donna-batchverify.h:76-107 | for every scalar the exact multiple that the loop computes: s for s <= 1, else t + 2^bitlength(t) for t = s mod 2^224, and none (the limb search leaves the array) when t == 0 |
| FinalStep.Ladder | src/ed25519-donna/ed25519-donna-batchverify.h:96-106 | double-and-add from the leading bit on, started at the point itself |
| FinalStep.TopLimb | src/ed25519-donna/ed25519-donna-batchverify.h:91-92 | the highest limb from limb 3 down that is not zero, or none |
| BatchHeap.Batch.HeapInsertNext | src/ed25519-donna/ed25519-donna-batchverify.h:19-32 | inserting the next index keeps a max-heap that is a permutation of 0..size-1 |
| BatchHeap.Batch.HeapUpdatedRoot | src/ed25519-donna/ed25519-donna-batchverify.h:33-55 | for every odd size, when only the root may be out of place, descending to a leaf and climbing back restores the max-heap and keeps the permutation |
| BatchHeap.Batch.HeapBuild | src/ed25519-donna/ed25519-donna-batchverify.h:56-62 | from any heap array: a max-heap of exactly count indices |
| BatchHeap.Batch.HeapExtend | src/ed25519-donna/ed25519-donna-batchverify.h:63-67 | a max-heap of exactly the new count |
| BatchHeap.Batch.HeapGetTop2 | src/ed25519-donna/ed25519-donna-batchverify.h:68-75 | the two results are different, and no scalar in the heap but the first exceeds the second |
| BatchHeap.Batch.SubtractScalar | src/ed25519-donna/ed25519-donna-batchverify.h:125 | one scalar becomes the difference, exactly, whatever the window; no other changes |
| Scalars.BatchComparesValues | src/ed25519-donna/modm-donna-64bit.h:232-257 | on scalars that fit the window, the truncated comparisons are those of the full numbers |
| Scalars.SubBatchSubtracts | src/ed25519-donna/modm-donna-64bit.h:219-231 | on scalars that fit the window, the truncated subtraction is exact and normal |
| Scalars.ZeroOneTests | src/ed25519-donna/modm-donna-64bit.h:258-273 | both tests decide the value of any limbs |
| Scalars.AtMost128Test | src/ed25519-donna/modm-donna-64bit.h:274-281 | the test decides whether the number is below 2^128 |
| Scalars.TopLimbDecides | src/ed25519-donna/ed25519-donna-batchverify.h:118-119 | a scalar that fits the window fits the next smaller one exactly when its top limb is zero |
| Modm.BarrettReduce256 | src/ed25519-donna/modm-donna-64bit.h:40-75 | x mod L, for every x below 2^512 given as x / 2^248 and x mod 2^264 |
| Modm.BarrettQuotient | src/ed25519-donna/modm-donna-64bit.h:45-56 | although the lowest product columns are dropped, x - q3·L is in [0, 3L) |
| Modm.QuotientEstimate | src/ed25519-donna/modm-donna-64bit.h:45-56 | the quotient that the code makes is short of mu·q1 / 2^264 by less than the bound the previous row asks for, without overflow of the 128-bit sums |
| Modm.LowMultiple | src/ed25519-donna/modm-donna-64bit.h:57-66 | the low 264 bits of L·q3 |
| Modm.SubtractLow | src/ed25519-donna/modm-donna-64bit.h:67-72 | the difference modulo 2^264 through four borrows |
| Modm.Reduce256 | src/ed25519-donna/modm-donna-64bit.h:23-39 | branch-free: subtracts L exactly when that leaves no negative number |
| Modm.Add256 | src/ed25519-donna/modm-donna-64bit.h:76-85 | the sum modulo L of reduced scalars, and for any normal limbs the sum less L when it reaches L |
| ModmMul.Mul256 | src/ed25519-donna/modm-donna-64bit.h:86-111 | the product modulo L whenever it is below 2^512 |
| ModmBytes.Expand256 | src/ed25519-donna/modm-donna-64bit.h:112-139 | the little-endian number modulo L, for every length up to 64, short ones included |
| ModmBytes.Contract256 | src/ed25519-donna/modm-donna-64bit.h:153-159 | 32 bytes that denote the scalar modulo 2^256 |
| Recode.ContractWindow4 | src/ed25519-donna/modm-donna-64bit.h:160-182 | 64 digits with Σ r[i]·16^i == s, all but the last in [-8, 7], the last at most 8 for s < 2^255 |
| Recode.ContractSlidingWindow | src/ed25519-donna/modm-donna-64bit.h:183-218 | 256 digits with Σ r[k]·2^k == s, each zero or odd with absolute value at most 2^(w-1) - 1, for every s <= 2^255 and window from 2 to 8 |
| Recode.ZeroAbove | src/ed25519-donna/modm-donna-64bit.h:206-212 | the carry loop always finds a zero digit before it leaves the array |
| Recode.CarryWindow4 | src/ed25519-donna/modm-donna-64bit.h:173-181 | the carry pass keeps the number and brings all digits but the last into [-8, 7] |
| ScalarMult.DoubleScalarMultVartime | src/ed25519-donna/ed25519-donna-impl-base.h:202-233 | s1·P1 + s2·B for all s1, s2 up to 2^255; every table index is in range and every addition reads a fresh T coordinate |
| ScalarMult.OddTable | src/ed25519-donna/ed25519-donna-impl-base.h:211-214 | entry i of the table is (2i + 1)·P1 |
| ScalarMult.ScalarMultBaseNiels | src/ed25519-donna/ed25519-donna-impl-base.h:259-286 | the schedule of digits: s·B for every s below 2^255, from a table whose row pos, entry j is (j + 1)·256^pos·B; on limbs and table bytes it is LimbMult.ScalarMultBase |
| ScalarMult.ChooseNiels | src/ed25519-donna/ed25519-donna-impl-base.h:239-257 | the entry for b·256^pos·B for every b in [-8, 8]; on limbs and table bytes it is LimbMult.Choose |
| BaseNiels.ChooseEntry | src/ed25519-donna/ed25519-donna-impl-base.h:239-257 | on bytes and limbs, by masks alone: the selected 96 bytes expanded, which cache the coordinates of the entry for |b| or, for negative b, of its negation; for b == 0 the neutral element |
| BaseNiels.MoveConditionalBytes | src/ed25519-donna/curve25519-donna-64bit.h:304-321 | all 96 bytes of the one or of the other, by the flag |
| BaseNiels.SwapConditional | src/ed25519-donna/curve25519-donna-64bit.h:322-331 | both elements exchanged or both kept, by the flag |
| BaseNiels.NegateConditional | src/ed25519-donna/ed25519-donna-impl-base.h:254-256 | exchanged sums and the negated third coordinate cache the negated point |
| BaseNiels.NeutralPacks | src/ed25519-donna/ed25519-donna-impl-base.h:246-248 | the initial bytes are those of the neutral element |
| BaseNiels.StartPoint | src/ed25519-donna/ed25519-donna-impl-base.h:266-270 | an entry with third coordinate 2xy gives the point (x, y) itself, with Z == 2 and T == xyZ |
| BaseNiels.ScaleByD | src/ed25519-donna/ed25519-donna-impl-base.h:280 | and times d it is the entry that the additions expect |
| CurvePoints.SumFinished | src/ed25519-donna/ed25519-donna-impl-base.h:1-38 | in any abelian group of affine points whose addition is the Edwards law with denominators that can be divided by: limbs that represent p and q give, by the formulas, limbs that represent p + q, with a Z that can be divided by |
| CurvePoints.DoneOfScaled | src/ed25519-donna/ed25519-donna-impl-base.h:21-52 | numerators and denominators scaled by an invertible number are the completed form of the sum |
| CurvePoints.DoublePoint | src/ed25519-donna/ed25519-donna-impl-base.h:39-52 | limbs of p, whatever their T, to the completed form of p + p |
| CurvePoints.AddCachedPoint | src/ed25519-donna/ed25519-donna-impl-base.h:70-87 | limbs of p and a cached q to the completed form of p + q or p - q by the sign |
| CurvePoints.AddPlainPoint | src/ed25519-donna/ed25519-donna-impl-base.h:53-69 | the same with a cached affine q |
| CurvePoints.AddPlainInPlace | src/ed25519-donna/ed25519-donna-impl-base.h:106-123 | the same, finished |
| CurvePoints.AddToCached | src/ed25519-donna/ed25519-donna-impl-base.h:124-146 | limbs of p and a cached q to the cached p + q |
| CurvePoints.ToPartialPoint | src/ed25519-donna/ed25519-donna-impl-base.h:1-6 | limbs of the same point, with T left over from another |
| CurvePoints.PolesAreEdwards | src/ed25519-donna/ed25519-donna-impl-base.h:21-52 | the assumptions on the group can be met, by the points (0, 1) and (0, -1) |
| LimbMult.DoubleScalarMult | src/ed25519-donna/ed25519-donna-impl-base.h:202-233 | the loop on limbs: for all s1, s2 up to 2^255 the limbs returned represent s1·P1 + s2·B in every such group, with T carried along as limbs and never read stale |
| LimbMult.OddTable | src/ed25519-donna/ed25519-donna-impl-base.h:211-214 | on limbs, entry i caches (2i + 1)·P1 |
| LimbMult.DigitStep | src/ed25519-donna/ed25519-donna-impl-base.h:222-231 | on limbs, one turn doubles and adds both signed digits |
| LimbMult.ScalarMultBase | src/ed25519-donna/ed25519-donna-impl-base.h:259-286 | the base point loop on limbs and table bytes: the limbs returned represent s·B for every s below 2^255, the first row with its 2xy and the factor d of the even digits included |
| LimbMult.Choose | src/ed25519-donna/ed25519-donna-impl-base.h:239-257 | on bytes and limbs, for every b in [-8, 8]: the limbs cache b·256^pos·B, with 2xy in the first row and 2dxy in the others |
| LimbMult.StartMultiple | src/ed25519-donna/ed25519-donna-impl-base.h:265-270 | the first digit of the odd places becomes the point it stands for |
| LimbMult.AddEveryOther | src/ed25519-donna/ed25519-donna-impl-base.h:271-285 | the digits of every other place added |
| LimbMult.SixteenFold | src/ed25519-donna/ed25519-donna-impl-base.h:275-278 | four doublings |
| LimbMult.AddFirstEven | src/ed25519-donna/ed25519-donna-impl-base.h:279-281 | the first digit of the even places, whose entry is multiplied by d before it is added |
| Ed25519.SignaturesAreAccepted | src/ed25519-donna/ed25519.c:58-116 | verification accepts every signature made for the matching public key, the check of the three top bits of S included (RFC 8032, sections 5.1.6 and 5.1.7) |
| Ed25519.SignOpen | src/ed25519-donna/ed25519.c:93-116 | 0 if and only if S < 2^253, the key decodes to -A, and (H(R, A, m) mod L)·(-A) + (S mod L)·B encodes to R, with H(R, A, m) the little-endian digest of R, key and message written out (section 5.1.7 of RFC 8032, but for its S < L) |
| Ed25519.TwoMessages | src/ed25519-donna/ed25519.c:93-116 | a signature accepted for two messages under one key: both challenges give points with the same encoding, and under an honest key their difference sends the key to the neutral element |
| Ed25519.TopBitsIff | src/ed25519-donna/ed25519.c:99-100 | the test of the last byte is S < 2^253, and 2^253 is above L |
| Ed25519.OtherScalars | src/ed25519-donna/ed25519.c:93-116 | beside an accepted signature, the same R with another S of the same residue modulo L is accepted if and only if that S is below 2^253 (section 5.1.7 of RFC 8032 asks for S < L) |
| Ed25519.Sign | src/ed25519-donna/ed25519.c:58-91 | with h the digest of the secret key, a its clamped low half as a number and r the digest of its high half and the message modulo L: the first half of the signature encodes r·B, and the second is (H(R, A, m)·a + r) mod L (section 5.1.6 of RFC 8032) |
| Ed25519.PublicKey | src/ed25519-donna/ed25519.c:44-55 | the encoding of a·B for a == 2^254 + (h mod 2^254 with its three low bits cleared), h the low half of the hashed secret key |
| Ed25519.SignScalar | src/ed25519-donna/ed25519.c:84-90 | (h·a + r) mod L in 32 bytes |
| Ed25519.ExtSk | src/ed25519-donna/ed25519.c:26-32 | the hashed secret key with a low half that is a multiple of 8 in [2^254, 2^255) and the high half unchanged |
| Ed25519.ClampIs | src/ed25519-donna/ed25519.c:28-31 | what the three byte operations yield, for any hash: the low half is 2^254 + (h mod 2^254 with its three low bits cleared), and no other byte changes |
| Ed25519.Hram | src/ed25519-donna/ed25519.c:34-42 | the hash of R, A and the message one after the other |
| Ed25519.VerificationEquation | src/ed25519-donna/ed25519.c:108-112 | h·(-aB) + ((h·a + r) mod L)·B == r·B whenever L·B is neutral |
| Ed25519.Verify | src/ed25519-donna/ed25519-donna.h:43-49 | 1 exactly when all bytes agree |
| CurveModel.ExampleIsCurve | src/ed25519-donna/ed25519.c:44-116 | the assumptions on the curve can be met: the integers modulo L meet them |
| BatchVerify.SignOpenBatch | src/ed25519-donna/ed25519-donna-batchverify.h:142-197 | for any number of signatures and any random scalars, in batches of 64 and a last one of what is left if that is more than 3: valid[i] is 1 exactly when the batch of signature i passes or the signature is accepted on its own; bit 1 of the answer is set exactly when some valid[i] is 0, bit 2 exactly when some batch decodes and does not pass; the run leaves the array exactly when the final step of some batch does |
| BatchVerify.VerifyBatch | src/ed25519-donna/ed25519-donna-batchverify.h:153-184 | the same for one batch of 4 to 64 |
| BatchVerify.BatchScalars | src/ed25519-donna/ed25519-donna-batchverify.h:155-168 | the scalars Σ S_i r_i mod L, h_i r_i mod L and r_i, in limbs |
| BatchVerify.BatchPoints | src/ed25519-donna/ed25519-donna-batchverify.h:169-175 | B, the negated keys and the negated R, or none if one of them does not decode |
| BatchVerify.SecondHalfIsSmall | src/ed25519-donna/ed25519-donna-batchverify.h:154-176 | the scalars of the second half are below 2^128, as the multiplication requires |
| BatchMeaning.CombinationIs | src/ed25519-donna/ed25519-donna-batchverify.h:155-176 | the combination handed to the multiplication is the sum over i of S_i r_i·B - (h_i r_i mod L)·A_i - r_i·R_i, for every key |
| BatchMeaning.TermsAreResiduals | src/ed25519-donna/ed25519-donna-batchverify.h:155-176 | for keys in the subgroup of order L that is the sum of r_i·(S_i·B - h_i·A_i - R_i) |
| BatchMeaning.PassesIff | src/ed25519-donna/ed25519-donna-batchverify.h:153-184 | for scalars for which the neutral test is right, the batch passes if and only if that sum is neutral |
| BatchMeaning.AtMostOneScalar | src/ed25519-donna/ed25519-donna-batchverify.h:153-184 | with all else fixed, at most one value of its random scalar lets a batch pass with a signature whose residual is not killed by 8 |
| BatchMeaning.HonestAreValid | src/ed25519-donna/ed25519-donna-batchverify.h:142-197 | if all signatures were made by the signing operation, every valid[i] is 1, whatever the random scalars |
| BatchMeaning.HonestPass | src/ed25519-donna/ed25519-donna-batchverify.h:153-184 | and each of their batches passes at once where the neutral test is right for its scalars |
| BatchMeaning.SingleIff | src/ed25519-donna/ed25519.c:93-116 | single verification accepts if and only if S·B - h·A - R is neutral, R is the canonical encoding of its point, and S < 2^253 |
| BatchMeaning.BatchIgnores | src/ed25519-donna/ed25519-donna-batchverify.h:153-184 | of these three the batch asks for the first: with all residuals neutral it passes, and single verification of each signature still depends on the other two |
| BatchMeaning.LargeScalar | src/ed25519-donna/ed25519-donna-batchverify.h:153-184 | such a signature exists beside every honest one: with 2 L added to S the residual is neutral, and single verification refuses it |
| Sha512.HashPieces | src/ed25519-donna/ed25519-hash.h:94-160 | for every split of a message into updates, the digest of the whole message in the sense of Sha512.DigestIs |
| Sha512.DigestIs | src/ed25519-donna/ed25519-hash.h:79-153 | the digest read off the bytes: for a padded message (message, one bit, fewest zero bytes, and the last 16 bytes read highest first are the count of bits modulo 2^128) and the run of chaining values over its blocks, the eight 64-bit words of the digest, read highest byte first, are the last value |
| Sha512.InitialWords | src/ed25519-donna/ed25519-hash.h:96-103 | the initial words are the first 64 bits of the fractional parts of the square roots of the first eight primes (section 5.3.5 of FIPS 180-4) |
| Sha512.Context.Update | src/ed25519-donna/ed25519-hash.h:108-130 | appends to the message hashed so far: blocks processed, bytes buffered and the bit count stay those of the message |
| Sha512.Context.Final | src/ed25519-donna/ed25519-hash.h:131-153 | the fold of the compression function over the message padded as in section 5.1.2 of FIPS 180-4 |
| Sha512.Context.Blocks | src/ed25519-donna/ed25519-hash.h:79-93 | one compression a block, and the pair T is the exact 128-bit count of bits, the carry included |
| Sha512.Hash | src/ed25519-donna/ed25519-hash.h:154-160 | the digest of one piece |
| Sha512.PadSplits | src/ed25519-donna/ed25519-hash.h:134-144 | the padding of the message is what the two branches write behind the processed blocks |
| Sha512.FinalCount | src/ed25519-donna/ed25519-hash.h:133-143 | the length field is the count of processed bits plus eight times the buffered bytes, and the sum does not wrap |
| FieldMul.Mul | src/ed25519-donna/curve25519-donna-64bit.h:79-136 | for limbs below 2^54: the product modulo p, no 64- or 128-bit sum wraps, and all limbs come out below 2^51 except the second, below 2^51 + 2^13 |
| FieldMul.Square | src/ed25519-donna/curve25519-donna-64bit.h:192-235 | the same for squares |
| FieldMul.FoldedProduct | src/ed25519-donna/curve25519-donna-64bit.h:97-117 | the five columns with 19-fold wrap-around are the product modulo p, for any limbs |
| FieldMul.CarryColumns | src/ed25519-donna/curve25519-donna-64bit.h:124-130 | the carries keep the number modulo p |
| FieldPow.SquareTimes | src/ed25519-donna/curve25519-donna-64bit.h:141-191 | in^(2^count) for every count from 1 on |
| FieldPow.PowTwo5ToTwo250 | src/ed25519-donna/curve25519-donna-helpers.h:1-18 | from z^(2^5 - 1) to z^(2^250 - 1) |
| FieldPow.Recip | src/ed25519-donna/curve25519-donna-helpers.h:19-31 | z^(2^255 - 21), which is z^(p - 2), for every z |
| FieldPow.PowTwo252m3 | src/ed25519-donna/curve25519-donna-helpers.h:32-44 | z^(2^252 - 3) for every z |
| Field.Add | src/ed25519-donna/curve25519-donna-64bit.h:13-28 | the exact sum, no limb wraps |
| Field.AddReduce | src/ed25519-donna/curve25519-donna-64bit.h:29-38 | the sum modulo p with limbs carried |
| Field.Sub | src/ed25519-donna/curve25519-donna-64bit.h:43-50 | the difference plus 2p, no limb goes below zero |
| Field.SubAfterBasic | src/ed25519-donna/curve25519-donna-64bit.h:51-58 | the difference plus 4p, for a subtrahend that was not carried |
| Field.SubReduce | src/ed25519-donna/curve25519-donna-64bit.h:59-68 | the difference modulo p with limbs carried |
| Field.Neg | src/ed25519-donna/curve25519-donna-64bit.h:69-78 | the negation modulo p |
| Field.CarryFold | src/ed25519-donna/curve25519-donna-64bit.h:275-281 | one carry pass keeps the number modulo p and subtracts exactly p for every 2^255 |
| FieldBytes.Expand | src/ed25519-donna/curve25519-donna-64bit.h:236-265 | the low 255 bits of any 32 bytes |
| FieldBytes.Contract | src/ed25519-donna/curve25519-donna-64bit.h:266-302 | the bytes of the one representative in [0, p), for all limbs below 2^64 - 2^14 |
| FieldBytes.BytesRoundTrip | src/ed25519-donna/curve25519-donna-64bit.h:236-302 | contracting what was expanded gives the bytes back if and only if they denote a number below p |
| Points.AddP1p1 | src/ed25519-donna/ed25519-donna-impl-base.h:21-38 | the sum of section 5.1.4 of RFC 8032 modulo p; carried coordinates in, limbs below 2^54 out |
| Points.NielsAdd2P1p1 | src/ed25519-donna/ed25519-donna-impl-base.h:53-69 | the same sum, with the cached affine point or, by the sign bit, its negation |
| Points.PnielsAddP1p1 | src/ed25519-donna/ed25519-donna-impl-base.h:70-87 | the same sum, with the cached projective point or its negation |
| Points.NielsAdd2 | src/ed25519-donna/ed25519-donna-impl-base.h:106-123 | the same sum, finished |
| Points.PnielsAdd | src/ed25519-donna/ed25519-donna-impl-base.h:124-146 | the same sum, finished and cached again |
| Points.Add2 | src/ed25519-donna/ed25519-donna-impl-base.h:100-105 | the same sum, finished; carried coordinates in and out, so for any number of additions |
| Points.DoubleP1p1 | src/ed25519-donna/ed25519-donna-impl-base.h:39-52 | the doubling formula modulo p, without looking at T |
| Points.Double | src/ed25519-donna/ed25519-donna-impl-base.h:94-99 | the doubling formula, finished |
| Points.ToFull | src/ed25519-donna/ed25519-donna-impl-base.h:7-13 | the four products |
| Points.ToPartial | src/ed25519-donna/ed25519-donna-impl-base.h:1-6 | three of them, T left as it was |
| Points.FullToPniels | src/ed25519-donna/ed25519-donna-impl-base.h:14-20 | the cached sums and 2dT of a point |
| Points.CurveConstants | src/ed25519-donna/ed25519-donna-64bit-tables.h:7-12 | the two constants are d == -121665/121666 and 2d modulo p |
| PointLaws.DoublingIsAdding | src/ed25519-donna/ed25519-donna-impl-base.h:21-52 | on the curve, adding a point to itself gives twice each coordinate of doubling it |
| PointLaws.SumIsScaled | src/ed25519-donna/ed25519-donna-impl-base.h:21-38 | the formulas give the numerators and denominators of the Edwards law, all scaled by 2 Z1 Z2 |
| PointLaws.DoubledIsScaled | src/ed25519-donna/ed25519-donna-impl-base.h:39-52 | doubling gives those of P + P, scaled by Z^2, on the curve |
| PointLaws.FinishIsTheSum | src/ed25519-donna/ed25519-donna-impl-base.h:1-13 | whatever the scale, the finished coordinates are those of the affine sum, with T == xyZ, and Z is the square of the scale times both denominators |
| PointLaws.FinishStaysOnCurve | src/ed25519-donna/ed25519-donna-impl-base.h:1-52 | sums and doubles of points on the curve are on the curve, and XY == ZT |
| PointLaws.EdwardsClosed | src/ed25519-donna/ed25519-donna-impl-base.h:21-52 | the curve is closed under the law: its equation for the sum, cleared of denominators |
| PointBytes.Pack | src/ed25519-donna/ed25519-donna-impl-base.h:147-157 | y/Z in the low 255 bits, canonical, and the parity of x/Z in the top bit, with 1/Z the power of the exponent chain |
| PointBytes.PackedIsThePoint | src/ed25519-donna/ed25519-donna-impl-base.h:147-157 | where that power is an inverse of Z, the bytes depend on the affine point alone |
| PointBytes.UnpackNegative | src/ed25519-donna/ed25519-donna-impl-base.h:158-197 | with n = y^2 - 1 and v = d y^2 + 1: accepts if and only if n (n v^7)^((p - 1) / 4) is n or -n modulo p, whatever the sign bit; what it returns then has the y of the bytes, Z == 1, T == xy, is on the curve, its x is zero exactly when y^2 == 1 modulo p, and else has not the parity of the sign bit |
| PointBytes.SquaresAreAccepted | src/ed25519-donna/ed25519-donna-impl-base.h:158-197 | whenever some x satisfies the curve equation with y, y is accepted, if Fermat's little theorem holds at x v^4 and 1 has no square roots but 1 and -1 |
| PointBytes.AcceptedIffOnCurve | src/ed25519-donna/ed25519-donna-impl-base.h:158-197 | for p without zero divisors and with Fermat's little theorem, as a prime has: y is accepted if and only if some x makes it a point of the curve |
| PointBytes.CandidateSquared | src/ed25519-donna/ed25519-donna-impl-base.h:167-180 | the square of the candidate times v is n (n v^7)^((p - 1) / 4), for all n and v |
| PointBytes.Reencode | src/ed25519-donna/ed25519-donna-impl-base.h:147-197 | decoding, negating and encoding gives the same bytes back if and only if y is below p, and y^2 is not 1 modulo p or the sign bit is clear |
| PointBytes.NonCanonicalAccepted | src/ed25519-donna/ed25519-donna-impl-base.h:158-197 | the bytes of p + 1 are accepted, and those of 1 with either sign bit |
| PointBytes.EncodingOfUnpacked | src/ed25519-donna/ed25519-donna-impl-base.h:147-197 | the same for the numbers that the bytes denote |
| PointBytes.FixRoot | src/ed25519-donna/ed25519-donna-impl-base.h:179-189 | the candidate or its product with the root of -1 solves the equation |
| PointBytes.NegateToSign | src/ed25519-donna/ed25519-donna-impl-base.h:190-194 | of the two roots the one whose parity is not the sign bit |
| PointBytes.IsNeutral | src/ed25519-donna/ed25519-donna-batchverify.h:132-141 | decides x == 0 and y == z modulo p |
| TaggedCache.TaggedCache.OneObjectPerKey | src/ripple/basics/TaggedCache.h:109-319 | in every reachable state: two objects handed out under one key since it was last replaced, invalidated or cleared, and both still held, are the same |
| TaggedCache.TaggedCache.Canonicalize | src/ripple/basics/TaggedCache.h:199-246 | all three paths, replacing or not, null data or not: the found object or the stored one, the exact new entries, handles and pairs handed out, and the count |
| TaggedCache.TaggedCache.Fetch | src/ripple/basics/TaggedCache.h:247-272 | the object of the entry while a client or any entry holds it, made strong again; else the entry goes; hits and misses |
| TaggedCache.TaggedCache.RefreshIfPresent | src/ripple/basics/TaggedCache.h:287-319 | the same without handing anything out |
| TaggedCache.TaggedCache.Del | src/ripple/basics/TaggedCache.h:181-198 | the strong pointer goes; the entry stays if and only if the deletion was a valid one and a client or another entry holds its object |
| TaggedCache.TaggedCache.Sweep | src/ripple/basics/TaggedCache.h:109-180 | for every order of the entries and with w the threshold: an entry keeps its object if and only if it was last used after w; a dropped entry has an object that nobody holds any more; an entry is dropped if nobody held its object, or if it was stale and neither a client nor another entry held it. Up to the target size w is the target age ago; above it, w is the target age times target over number of entries ago, rounded down, or one second if that is longer. Uniqueness and count are kept; it traps, changing nothing, exactly for a negative target size on an empty cache |
| TaggedCache.TaggedCache.SweepEntry | src/ripple/basics/TaggedCache.h:139-171 | one turn of the loop, with the reference count that includes the objects about to be freed |
| TaggedCache.TaggedCache.CountIsStrong | src/ripple/basics/TaggedCache.h:199-246 | the count is the number of strong entries if and only if no null was stored since the last clear |
| TaggedCache.StoreNull | src/ripple/basics/TaggedCache.h:203-210 | a null stored in an empty cache makes the count 1 with no strong entry |
| TaggedCache.TaggedCache.Clear | src/ripple/basics/TaggedCache.h:95-100 | no entries, a count of zero |
| TaggedCache.TaggedCache.Reset | src/ripple/basics/TaggedCache.h:101-108 | the same, with the statistics |
| TaggedCache.SweepingStep | src/ripple/basics/TaggedCache.h:137-172 | a turn on any remaining entry advances the description of the sweep |
| TaggedCache.LastHolder | src/ripple/basics/TaggedCache.h:155-160 | an object held by one entry alone dies with it |
| TaggedCache.Stored | src/ripple/basics/TaggedCache.h:211-245 | storing a living object under a key whose handed-out objects it does not contradict keeps them canonical |
| TaggedCache.ExpireWindow | src/ripple/basics/TaggedCache.h:119-130 | the threshold is between now less the target age and one second ago, whichever is earlier |
| TaggedCache.WrappedThreshold | src/ripple/basics/TaggedCache.h:126-130 | the threshold for all inputs, overflow included: product and difference are those of 64-bit words |
| Qalloc.Allocator.Allocate | src/ripple/basics/qalloc.h:174-210 | a new live region of the size asked for, at the least aligned address behind the free space of its block that leaves room for the back pointer, with everything else unchanged. It is in the current block if that has room; else in the first free one if that has, which becomes current and leaves the list; and only else in a new one. Null if and only if none of the three has room, and never under the condition of AlwaysFitsIff; after a null the new block is current and empty; the current block is lost exactly when it is empty and the request does not fit it |
| Qalloc.Allocator.Pairs | src/ripple/basics/qalloc.h:174-224 | however often a request of one size that fits a new block is made and freed again, at most one block is added, and none if a free block was ready for it |
| Qalloc.NeedIff | src/ripple/basics/qalloc.h:122-135 | the test for room succeeds if and only if an aligned region with its back pointer fits anywhere in the free space |
| Qalloc.Allocator.Deallocate | src/ripple/basics/qalloc.h:211-224 | exactly the one region is gone; a block that becomes empty is as new, and goes to the head of the free list unless it is the current one |
| Qalloc.Allocator.RegionsApart | src/ripple/basics/qalloc.h:117-145 | live regions with their back pointers are pairwise disjoint and inside their blocks |
| Qalloc.Allocator.OnePlace | src/ripple/basics/qalloc.h:174-224 | in every reachable state each block is the current one, or on the acyclic free list with full capacity and nothing live, or retired with something live, or lost with nothing live, and only one of these |
| Qalloc.Allocator.Destroy | src/ripple/basics/qalloc.h:158-173 | the current block and the free list are freed, each block once; when nothing is live, exactly the blocks that were not lost, hence all of them if and only if none was |
| Qalloc.LeakingRun | src/ripple/basics/qalloc.h:158-224 | a run that ends with nothing live and a block that is never freed |
| Qalloc.Allocator.LeakedAreLost | src/ripple/basics/qalloc.h:158-224 | with nothing live, each block is the current one, on the free list or lost, and no lost block is one of the others |
| Qalloc.Block.Allocate | src/ripple/basics/qalloc.h:117-145 | succeeds exactly when padding, back pointer and bytes fit; the back pointer is in the free space and aligned |
| Qalloc.Block.Deallocate | src/ripple/basics/qalloc.h:146-157 | the count goes down, and at zero the block is as new |
| Qalloc.AlwaysFitsIff | src/ripple/basics/qalloc.h:198-209 | the request fits a new block wherever malloc puts it if and only if align <= 16, or align + 32 + bytes <= 256K, or (48 + bytes) mod align is from 1 to 16 |
| Qalloc.FreshSizeIs | src/ripple/basics/qalloc.h:198-203 | the size of a new block is 256K or the least multiple of the alignment that holds header, back pointer and bytes |
| Qalloc.OverAlignedFails | src/ripple/basics/qalloc.h:198-209 | 32-byte alignment on a block that is 32-byte aligned: the rounded size is not enough |
| Qalloc.RoundDownIs | src/ripple/basics/qalloc.h:200-202 | the mask rounds down to a multiple of any power of two |
| Dispute.OneStretchIff | src/ripple/consensus/DisputedTx.h:107-150 | with the votes of the peers fixed and while proposing: whatever those votes and our first one, our Yes votes are consecutive, if and only if the thresholds at the times of the updates never fall |
| Dispute.RunChangesAtMostTwice | src/ripple/consensus/DisputedTx.h:107-150 | so with such times there are at most two changes, and only No to Yes and then Yes to No |
| Dispute.FallingBreaks | src/ripple/consensus/DisputedTx.h:107-150 | for any fall of the threshold, votes of the peers with which a Yes is given up and taken again |
| Dispute.LaterIsRising | src/ripple/consensus/DisputedTx.h:123-130 | times that do not fall, read as unsigned numbers, give thresholds that do not fall |
| Dispute.OneStretch | src/ripple/consensus/DisputedTx.h:107-150 | the forward half, for one run |
| Dispute.NegativeTimeBreaks | src/ripple/consensus/DisputedTx.h:123-130 | times are compared as unsigned: at -1, 0, 200 the threshold falls, and the vote changes three times |
| Dispute.WeightDecides | src/ripple/consensus/DisputedTx.h:114-117 | while proposing, the two early returns never change the outcome |
| Dispute.ObserverSettles | src/ripple/consensus/DisputedTx.h:132-136 | not proposing, a second update changes nothing |
| Dispute.DisputedTx.SetVote | src/ripple/consensus/DisputedTx.h:60-92 | the vote is recorded and the tallies stay those of the votes |
| Dispute.DisputedTx.UnVote | src/ripple/consensus/DisputedTx.h:93-106 | the vote is removed and the tallies stay those of the votes |
| Dispute.DisputedTx.UpdateVote | src/ripple/consensus/DisputedTx.h:107-150 | proposing, with our own vote counted: Yes if and only if the share of Yes is at least 51, 66, 71 or 96 percent at times (of a 32-bit int) below 50, 85, 200 and from there on, negative times among the last; not proposing: Yes if and only if more peers vote Yes than No, or nobody votes No and we did vote Yes; and whether it changed |
| Dispute.WeightAbove | src/ripple/consensus/DisputedTx.h:121-130 | the rounded weight exceeds a percentage if and only if the share of Yes is at least one percent more, by cross-multiplication |

## Left out

- The SSE2, inline-assembly and 32-bit variants: the same mathematics in other forms.
- The contents of the precomputed tables: they are parameters of which their meaning is assumed.
- That p and L are prime, Fermat's little theorem, and associativity of the Edwards law: `Recip` and `PowTwo252m3` are proved as powers, the group in `Ed25519`, `ScalarMult` and `BosCoster` is any abelian group, and in `CurvePoints` and `LimbMult` any one with the Edwards law and invertible denominators.
- The rounds and constants of SHA-512 inside one block: the compression function is a parameter.
- Where random bytes come from (those of a batch are a parameter), OpenSSL, timing and memory wiping.
- Limb arrays are values here, so a destination that aliases an operand (`curve25519_mul(a, a, t)`) is an assignment; heap, digit and buffer arrays are arrays.
- `curve25519_expand` and the hash loads on big-endian hosts: both branches denote the little-endian number.
- `expand_raw256_modm`, `TaggedCache::insert`, `retrieve`, `getKeys` and the setters: thin layers.
- Logs, metrics, mutexes and JSON: every public method is one step.
- TaggedCache.TaggedCache.Sweep: the 32-bit conversion of the number of entries is not modelled, and overflow in the threshold is taken to wrap; the inequality on the threshold is stated without overflow and for a target age that is not negative; the objects swept are freed in the same step, not after the lock is released.
- TaggedCache.TaggedCache.Canonicalize: hit and miss counters and `m_cache_count` do not wrap.
- Qalloc.Allocator.Allocate: malloc gives 16-byte aligned memory apart from all blocks and does not fail, and sizes do not wrap the 64-bit sum of line 201.
- Qalloc.Allocator.Deallocate: the pointer is a live one; the client has not written over its back pointer.
- Dispute.DisputedTx.UpdateVote: the 32-bit product of a tally and 100 does not overflow.
- ScalarMult.ChooseNiels: selection and negation are those of the group; the masks, bytes and coordinates are in LimbMult.Choose.
- ScalarMult.ScalarMultBaseNiels: the 2xy row and the factor d are flags; they are coordinates in LimbMult.ScalarMultBase.
- BatchVerify.SignOpenBatch: the point test is equality with the neutral element; PointBytes.IsNeutral is the test on limbs. A run off the array in the final step ends the model, with no verdicts.
- BatchMeaning.SingleIff: that decoding undoes encoding on every point of the curve is assumed.
- BatchExactness.DecisionIff: that the group of the curve has the property assumed, which follows from its order 8 L with L prime, is not proved.
- PointBytes.AcceptedIffOnCurve: that p has no zero divisors and Fermat's little theorem are assumed, since primality of p is not proved.
- KeyCache, RangeSet, the integer, slice and buffer headers, and the consensus drivers around `DisputedTx`: easier members or thin layers.
