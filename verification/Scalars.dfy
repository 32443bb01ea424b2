/**
 Scalars in five 56-bit limbs, and the truncated comparisons and subtraction of the
 batch verifier, which look at limbs 0..limbsize only.
 */
module Scalars {
  import opened Bits

  const LIMB: nat := 0x100_0000_0000_0000                  // 2^56
  const B2: nat := LIMB * LIMB
  const B3: nat := B2 * LIMB
  const B4: nat := B3 * LIMB
  const LIMB_SIZE: nat := 5

  /** An array of five limbs. */
  type Bignum = s: seq<nat> | |s| == LIMB_SIZE witness [0, 0, 0, 0, 0]

  /** The number that the limbs denote. */
  function Val(a: Bignum): nat {
    a[0] + a[1] * LIMB + a[2] * B2 + a[3] * B3 + a[4] * B4
  }

  /** Every limb is below 2^56. */
  predicate Normal(a: Bignum) {
    a[0] < LIMB && a[1] < LIMB && a[2] < LIMB && a[3] < LIMB && a[4] < LIMB
  }

  /** 2^(56 n). */
  function LimbPower(n: nat): nat {
    if n == 0 then 1 else LIMB * LimbPower(n - 1)
  }

  lemma LimbPowers()
    ensures LimbPower(0) == 1 && LimbPower(1) == LIMB && LimbPower(2) == B2
    ensures LimbPower(3) == B3 && LimbPower(4) == B4 && LimbPower(5) == B4 * LIMB
  {
    assert LimbPower(1) == LIMB;
    assert LimbPower(2) == LIMB * LimbPower(1);
    assert LimbPower(3) == LIMB * LimbPower(2);
    assert LimbPower(4) == LIMB * LimbPower(3);
    assert LimbPower(5) == LIMB * LimbPower(4);
  }

  /** The number denoted by the n lowest limbs. */
  function ValLow(a: Bignum, n: nat): nat
    requires n <= LIMB_SIZE
  {
    (if n > 0 then a[0] else 0) + (if n > 1 then a[1] * LIMB else 0) + (if n > 2 then a[2] * B2 else 0)
    + (if n > 3 then a[3] * B3 else 0) + (if n > 4 then a[4] * B4 else 0)
  }

  // ---- the batch operations ----

  /** The borrow out of subtracting the n lowest limbs in 64-bit words. */
  function Borrow(a: Bignum, b: Bignum, n: nat): nat
    requires n <= LIMB_SIZE
  {
    if n == 0 then 0 else Wrap64(a[n - 1] - b[n - 1] - Borrow(a, b, n - 1)) / 0x8000_0000_0000_0000
  }

  predicate LtBatch(a: Bignum, b: Bignum, limbsize: nat)
    requires limbsize < LIMB_SIZE
  {
    Borrow(a, b, limbsize + 1) != 0
  }

  predicate LteBatch(a: Bignum, b: Bignum, limbsize: nat)
    requires limbsize < LIMB_SIZE
  {
    Borrow(b, a, limbsize + 1) == 0
  }

  /**
   Limb i of the difference: masked to 56 bits below the last limb of the window,
   kept whole at that limb, and left as it was above the window.
   */
  function SubBatchLimb(a: Bignum, b: Bignum, limbsize: nat, i: nat): nat
    requires i < LIMB_SIZE && limbsize < LIMB_SIZE
  {
    var d := Wrap64(a[i] - b[i] - Borrow(a, b, i));
    if i < limbsize then d % LIMB else if i == limbsize then d else a[i]
  }

  function SubBatch(a: Bignum, b: Bignum, limbsize: nat): Bignum
    requires limbsize < LIMB_SIZE
  {
    [SubBatchLimb(a, b, limbsize, 0), SubBatchLimb(a, b, limbsize, 1), SubBatchLimb(a, b, limbsize, 2),
     SubBatchLimb(a, b, limbsize, 3), SubBatchLimb(a, b, limbsize, 4)]
  }

  predicate IsZeroBatch(a: Bignum) {
    forall i :: 0 <= i < LIMB_SIZE ==> a[i] == 0
  }

  predicate IsOneBatch(a: Bignum) {
    forall i :: 0 <= i < LIMB_SIZE ==> a[i] == (if i == 0 then 1 else 0)
  }

  predicate IsAtMost128BitsBatch(a: Bignum) {
    Or(Or(a[4], a[3]), And(a[2], 0xff_ffff_ffff_0000)) == 0
  }

  // ---- what they compute ----

  /** A scalar fits the window when it is below 2^(56 (limbsize + 1)). */
  predicate Fits(a: Bignum, limbsize: nat)
    requires limbsize < LIMB_SIZE
  {
    Val(a) < LimbPower(limbsize + 1)
  }

  lemma ValBound(a: Bignum)
    requires Normal(a)
    ensures Fits(a, LIMB_SIZE - 1)
  {
    LimbPowers();
  }

  lemma ZeroAbove(a: Bignum, limbsize: nat)
    requires Normal(a) && limbsize < LIMB_SIZE
    requires Fits(a, limbsize)
    ensures forall i :: limbsize < i < LIMB_SIZE ==> a[i] == 0
    ensures Val(a) == ValLow(a, limbsize + 1)
  {
    LimbPowers();
    hide LimbPower;
    if limbsize < 4 {
      TopIsZero(a[0] + a[1] * LIMB + a[2] * B2 + a[3] * B3, a[4], B4);
    }
    if limbsize < 3 {
      TopIsZero(a[0] + a[1] * LIMB + a[2] * B2, a[3], B3);
    }
    if limbsize < 2 {
      TopIsZero(a[0] + a[1] * LIMB, a[2], B2);
    }
    if limbsize < 1 {
      TopIsZero(a[0], a[1], LIMB);
    }
  }

  lemma TopIsZero(low: nat, x: nat, p: nat)
    requires low + x * p < p
    ensures x == 0
  {
    if x != 0 {
      MulStrict(0, x, p);
    }
  }

  /** A scalar that fits the window fits the next smaller one just when its top limb is clear. */
  lemma TopLimbDecides(a: Bignum, limbsize: nat)
    requires Normal(a) && limbsize < LIMB_SIZE && Fits(a, limbsize)
    ensures a[limbsize] == 0 <==> Val(a) < LimbPower(limbsize)
  {
    ZeroAbove(a, limbsize);
    ValLowStep(a, limbsize + 1);
    ValLowBound(a, limbsize);
    if a[limbsize] != 0 {
      MulStrict(0, a[limbsize], LimbPower(limbsize));
    }
  }

  /** The borrow is the comparison of the low parts. */
  lemma {:induction false} BorrowCompares(a: Bignum, b: Bignum, n: nat)
    requires Normal(a) && Normal(b) && n <= LIMB_SIZE
    ensures Borrow(a, b, n) == (if ValLow(a, n) < ValLow(b, n) then 1 else 0)
  {
    if n != 0 {
      BorrowCompares(a, b, n - 1);
      var c := Borrow(a, b, n - 1);
      var x, y := a[n - 1], b[n - 1];
      WordBorrow(x, y, c);
      ValLowBound(a, n - 1);
      ValLowBound(b, n - 1);
      ValLowStep(a, n);
      ValLowStep(b, n);
      CompareByTopLimb(ValLow(a, n - 1), ValLow(b, n - 1), x, y, LimbPower(n - 1));
    }
  }

  lemma CompareByTopLimb(lx: nat, ly: nat, x: nat, y: nat, p: nat)
    requires lx < p && ly < p
    ensures lx + x * p < ly + y * p <==> x - y - (if lx < ly then 1 else 0) < 0
  {
    if x < y {
      MulStrict(x, y, p);
    } else if y < x {
      MulStrict(y, x, p);
    }
  }

  lemma WordBorrow(x: nat, y: nat, c: nat)
    requires x < LIMB && y < LIMB && c <= 1
    ensures Wrap64(x - y - c) / 0x8000_0000_0000_0000 == (if x - y - c < 0 then 1 else 0)
    ensures x - y - c >= 0 ==> Wrap64(x - y - c) == x - y - c
    ensures x - y - c < 0 ==> Wrap64(x - y - c) % LIMB == x - y - c + LIMB
  {
    var d := x - y - c;
    if d < 0 {
      ModUnique(d, W64, -1, d + W64);
      assert d + W64 == 255 * LIMB + (d + LIMB);
      ModUnique(d + W64, LIMB, 255, d + LIMB);
    } else {
      ModUnique(d, W64, 0, d);
    }
  }

  lemma ValLowBound(a: Bignum, n: nat)
    requires Normal(a) && n <= LIMB_SIZE
    ensures ValLow(a, n) < LimbPower(n)
  {
    LimbPowers();
  }

  lemma ValLowStep(a: Bignum, n: nat)
    requires 1 <= n <= LIMB_SIZE
    ensures ValLow(a, n) == ValLow(a, n - 1) + a[n - 1] * LimbPower(n - 1)
  {
    LimbPowers();
  }

  /** The truncated comparisons agree with the full ones on scalars that fit the window. */
  lemma BatchComparesValues(a: Bignum, b: Bignum, limbsize: nat)
    requires Normal(a) && Normal(b) && limbsize < LIMB_SIZE
    requires Fits(a, limbsize) && Fits(b, limbsize)
    ensures LtBatch(a, b, limbsize) <==> Val(a) < Val(b)
    ensures LteBatch(a, b, limbsize) <==> Val(a) <= Val(b)
  {
    ZeroAbove(a, limbsize);
    ZeroAbove(b, limbsize);
    BorrowCompares(a, b, limbsize + 1);
    BorrowCompares(b, a, limbsize + 1);
  }

  /** Above the window both scalars are zero, so the borrow has died out there. */
  lemma BorrowDiesOut(a: Bignum, b: Bignum, limbsize: nat, n: nat)
    requires Normal(a) && Normal(b) && limbsize < n <= LIMB_SIZE
    requires Fits(a, limbsize) && Fits(b, limbsize) && Val(b) <= Val(a)
    ensures Borrow(a, b, n) == 0
  {
    ZeroAbove(a, limbsize);
    ZeroAbove(b, limbsize);
    assert ValLow(a, n) == Val(a) && ValLow(b, n) == Val(b);
    BorrowCompares(a, b, n);
  }

  lemma SubBatchLimbValue(a: Bignum, b: Bignum, limbsize: nat, i: nat)
    requires Normal(a) && Normal(b) && limbsize < LIMB_SIZE && i < LIMB_SIZE
    requires Fits(a, limbsize) && Fits(b, limbsize) && Val(b) <= Val(a)
    ensures SubBatchLimb(a, b, limbsize, i) == a[i] - b[i] - Borrow(a, b, i) + Borrow(a, b, i + 1) * LIMB
    ensures SubBatchLimb(a, b, limbsize, i) < LIMB
  {
    hide Val, ValLow, LimbPower;
    if i > limbsize {
      ZeroAbove(a, limbsize);
      ZeroAbove(b, limbsize);
      BorrowDiesOut(a, b, limbsize, i);
      BorrowDiesOut(a, b, limbsize, i + 1);
    } else {
      BorrowCompares(a, b, i);
      WordBorrow(a[i], b[i], Borrow(a, b, i));
      if i == limbsize {
        BorrowDiesOut(a, b, limbsize, i + 1);
      }
    }
  }

  lemma SubBatchParts(a: Bignum, b: Bignum, limbsize: nat)
    requires limbsize < LIMB_SIZE
    ensures forall i :: 0 <= i < LIMB_SIZE ==> SubBatch(a, b, limbsize)[i] == SubBatchLimb(a, b, limbsize, i)
    ensures Borrow(a, b, 0) == 0
  {
    hide SubBatchLimb;
  }

  /** The truncated subtraction is the full one, and leaves normal limbs. */
  lemma SubBatchSubtracts(a: Bignum, b: Bignum, limbsize: nat)
    requires Normal(a) && Normal(b) && limbsize < LIMB_SIZE
    requires Fits(a, limbsize) && Fits(b, limbsize) && Val(b) <= Val(a)
    ensures Normal(SubBatch(a, b, limbsize))
    ensures Val(SubBatch(a, b, limbsize)) == Val(a) - Val(b)
  {
    SubBatchParts(a, b, limbsize);
    hide Val, LimbPower, SubBatchLimb, Borrow, SubBatch;
    SubBatchLimbValue(a, b, limbsize, 0);
    SubBatchLimbValue(a, b, limbsize, 1);
    SubBatchLimbValue(a, b, limbsize, 2);
    SubBatchLimbValue(a, b, limbsize, 3);
    SubBatchLimbValue(a, b, limbsize, 4);
    BorrowDiesOut(a, b, limbsize, 5);
    Telescope(SubBatch(a, b, limbsize), a, b,
              Borrow(a, b, 1), Borrow(a, b, 2), Borrow(a, b, 3), Borrow(a, b, 4));
  }

  lemma Telescope(d: Bignum, a: Bignum, b: Bignum, c1: nat, c2: nat, c3: nat, c4: nat)
    requires d[0] == a[0] - b[0] + c1 * LIMB
    requires d[1] == a[1] - b[1] - c1 + c2 * LIMB
    requires d[2] == a[2] - b[2] - c2 + c3 * LIMB
    requires d[3] == a[3] - b[3] - c3 + c4 * LIMB
    requires d[4] == a[4] - b[4] - c4
    ensures Val(d) == Val(a) - Val(b)
  {
  }

  lemma ZeroOneTests(a: Bignum)
    ensures IsZeroBatch(a) <==> Val(a) == 0
    ensures IsOneBatch(a) <==> Val(a) == 1
  {
    if Val(a) <= 1 {
      assert a[0] == Val(a) && a[1] == 0 && a[2] == 0 && a[3] == 0 && a[4] == 0;
    }
  }

  const TWO128: nat := 0x1_0000_0000_0000_0000_0000_0000_0000_0000

  lemma AtMost128Test(a: Bignum)
    requires Normal(a)
    ensures IsAtMost128BitsBatch(a) <==> Val(a) < TWO128
  {
    OrZero(Or(a[4], a[3]), And(a[2], 0xff_ffff_ffff_0000));
    OrZero(a[4], a[3]);
    HighBitsOfLimb2(a[2]);
    Below128(a);
  }

  lemma Below128(a: Bignum)
    requires Normal(a)
    ensures Val(a) < TWO128 <==> a[4] == 0 && a[3] == 0 && a[2] < 0x1_0000
  {
    assert TWO128 == 0x1_0000 * B2;
  }

  lemma HighBitsOfLimb2(x: nat)
    requires x < LIMB
    ensures And(x, 0xff_ffff_ffff_0000) == 0 <==> x < 0x1_0000
  {
    Pow2Values();
    var m := 0xff_ffff_ffff;
    ShlIsMul(m, 16);
    assert Shl(m, 16) == 0xff_ffff_ffff_0000;
    AndShiftedMask(x, m, 16);
    ShrIsDiv(x, 16);
    var h := x / 0x1_0000;
    assert h <= m;
    AndMask(h, 40);
    assert m == Pow2(40) - 1;
    ModUnique(h, m + 1, 0, h);
    ShlIsMul(h, 16);
  }
}
