/**
 Arithmetic modulo the group order L = 2^252 + 27742317777372353535851937790883648493
 in five 56-bit limbs: conditional subtraction, addition, and the Barrett reduction
 that drops the low columns of its first product.

 Line numbers are those of src/ed25519-donna/modm-donna-64bit.h.
 */
module Modm {
  import opened Bits
  import opened Scalars

  const L: nat := 0x1000_0000_0000_0000_0000_0000_0000_0000_14de_f9de_a2f7_9cd6_5812_631a_5cf5_d3ed

  const M0: nat := 0x12_631a_5cf5_d3ed
  const M1: nat := 0xf9_dea2_f79c_d658
  const M2: nat := 0x14de
  const M3: nat := 0
  const M4: nat := 0x1000_0000

  const MU0: nat := 0x9c_e5a3_0a2c_131b
  const MU1: nat := 0x21_5d08_6329_a7ed
  const MU2: nat := 0xff_ffff_ffeb_2106
  const MU3: nat := 0xff_ffff_ffff_ffff
  const MU4: nat := 0xf_ffff_ffff

  const MU: nat := MU0 + MU1 * LIMB + MU2 * B2 + MU3 * B3 + MU4 * B4
  const TWO264: nat := 0x100_0000_0000 * B4
  const TWO248: nat := 0x100_0000 * B4
  const TWO512: nat := TWO248 * TWO264


  /** The constants are L and the floor of 2^512 / L. */
  lemma Constants()
    ensures Val([M0, M1, M2, M3, M4]) == L
    ensures MU * L <= TWO512 < (MU + 1) * L
  {
  }

  // ---- words ----

  function LtModm(a: nat, b: nat): nat {
    Wrap64(a - b) / 0x8000_0000_0000_0000
  }

  lemma LtModmCompares(a: nat, b: nat)
    requires a < 0x8000_0000_0000_0000 && b < 0x8000_0000_0000_0000
    ensures LtModm(a, b) == (if a < b then 1 else 0)
  {
    if a < b {
      ModUnique(a - b, W64, -1, a - b + W64);
    } else {
      ModUnique(a - b, W64, 0, a - b);
    }
  }

  /** One limb of a subtraction with borrow, `a - pb + (b << shift)`. */
  lemma SubLimb(a: nat, pb: nat, base: nat)
    requires a < base && pb <= base <= LIMB
    ensures var b := LtModm(a, pb);
            b <= 1 && Wrap64(a - pb + b * base) == a - pb + b * base && a - pb + b * base < base
  {
    LtModmCompares(a, pb);
    var d := a - pb + LtModm(a, pb) * base;
    ModUnique(d, W64, 0, d);
  }

  /** `x ^ (mask & (x ^ t))` with mask `b - 1`: t for b == 0, x for b == 1. */
  function Select(b: nat, x: nat, t: nat): nat {
    Xor(x, And(Wrap64(b - 1), Xor(x, t)))
  }

  lemma SelectIs(b: nat, x: nat, t: nat)
    requires b <= 1 && x < W64 && t < W64
    ensures Select(b, x, t) == if b == 0 then t else x
  {
    hide Xor, And, Pow2;
    Pow2Values();
    if b == 0 {
      ModUnique(-1, W64, -1, W64 - 1);
      XorBound(x, t, 64);
      AndOnes(Xor(x, t), 64);
      XorCancel(x, t);
    } else {
      ModUnique(0, W64, 0, 0);
      ZeroMask(x, Xor(x, t));
    }
  }

  lemma ZeroMask(x: nat, y: nat)
    ensures Xor(x, And(0, y)) == x
  {
  }

  // ---- conditional subtraction and addition ----

  /** Carries have been taken out of all limbs but the last. */
  predicate Carried(r: Bignum) {
    r[0] < LIMB && r[1] < LIMB && r[2] < LIMB && r[3] < LIMB && r[4] < 4 * LIMB
  }

  /** Five limbs with borrows are the difference of two numbers. */
  lemma BorrowTelescopes(r: Bignum, t: Bignum, m: Bignum, b0: nat, b1: nat, b2: nat, b3: nat, top: int)
    requires t[0] == r[0] - m[0] + b0 * LIMB
    requires t[1] == r[1] - (b0 + m[1]) + b1 * LIMB
    requires t[2] == r[2] - (b1 + m[2]) + b2 * LIMB
    requires t[3] == r[3] - (b2 + m[3]) + b3 * LIMB
    requires t[4] == r[4] - (b3 + m[4]) + top
    ensures Val(t) == Val(r) - Val(m) + top * B4
  {
  }

  /** r - L if that is not negative, else r. */
  method Reduce256(r: Bignum) returns (out: Bignum)
    requires Carried(r)
    ensures Carried(out) && out[4] <= r[4]
    ensures Val(out) == if Val(r) >= L then Val(r) - L else Val(r)
  {
    hide LtModm, Wrap64, Select;
    var pb, b: nat;
    pb := M0;
    SubLimb(r[0], pb, LIMB);
    b := LtModm(r[0], pb); var t0 := Wrap64(r[0] - pb + b * LIMB); pb := b;
    ghost var b0 := b;
    pb := pb + M1;
    SubLimb(r[1], pb, LIMB);
    b := LtModm(r[1], pb); var t1 := Wrap64(r[1] - pb + b * LIMB); pb := b;
    ghost var b1 := b;
    pb := pb + M2;
    SubLimb(r[2], pb, LIMB);
    b := LtModm(r[2], pb); var t2 := Wrap64(r[2] - pb + b * LIMB); pb := b;
    ghost var b2 := b;
    pb := pb + M3;
    SubLimb(r[3], pb, LIMB);
    b := LtModm(r[3], pb); var t3 := Wrap64(r[3] - pb + b * LIMB); pb := b;
    ghost var b3 := b;
    pb := pb + M4;
    LtModmCompares(r[4], pb);
    b := LtModm(r[4], pb); var t4 := Wrap64(r[4] - pb + b * 0x1_0000_0000);
    ReduceSelects(r, [t0, t1, t2, t3, t4], b0, b1, b2, b3, b);
    out := [Select(b, r[0], t0), Select(b, r[1], t1), Select(b, r[2], t2), Select(b, r[3], t3), Select(b, r[4], t4)];
  }

  lemma ReduceSelects(r: Bignum, t: Bignum, b0: nat, b1: nat, b2: nat, b3: nat, b: nat)
    requires Carried(r)
    requires b0 <= 1 && b1 <= 1 && b2 <= 1 && b3 <= 1
    requires t[0] == r[0] - M0 + b0 * LIMB < LIMB
    requires t[1] == r[1] - (b0 + M1) + b1 * LIMB < LIMB
    requires t[2] == r[2] - (b1 + M2) + b2 * LIMB < LIMB
    requires t[3] == r[3] - (b2 + M3) + b3 * LIMB < LIMB
    requires b == (if r[4] < b3 + M4 then 1 else 0)
    requires t[4] == Wrap64(r[4] - (b3 + M4) + b * 0x1_0000_0000)
    ensures var out := [Select(b, r[0], t[0]), Select(b, r[1], t[1]), Select(b, r[2], t[2]),
                        Select(b, r[3], t[3]), Select(b, r[4], t[4])];
            Carried(out) && out[4] <= r[4] && Val(out) == if Val(r) >= L then Val(r) - L else Val(r)
  {
    hide Select, Wrap64;
    SelectIs(b, r[0], t[0]);
    SelectIs(b, r[1], t[1]);
    SelectIs(b, r[2], t[2]);
    SelectIs(b, r[3], t[3]);
    SelectIs(b, r[4], t[4]);
    ReduceDecides(r, t, b0, b1, b2, b3, b);
    assert [Select(b, r[0], t[0]), Select(b, r[1], t[1]), Select(b, r[2], t[2]),
            Select(b, r[3], t[3]), Select(b, r[4], t[4])] == if b == 0 then t else r;
  }

  /** The last borrow says whether the number was below L, and without it the difference is right. */
  lemma ReduceDecides(r: Bignum, t: Bignum, b0: nat, b1: nat, b2: nat, b3: nat, b: nat)
    requires Carried(r)
    requires b0 <= 1 && b1 <= 1 && b2 <= 1 && b3 <= 1
    requires t[0] == r[0] - M0 + b0 * LIMB < LIMB
    requires t[1] == r[1] - (b0 + M1) + b1 * LIMB < LIMB
    requires t[2] == r[2] - (b1 + M2) + b2 * LIMB < LIMB
    requires t[3] == r[3] - (b2 + M3) + b3 * LIMB < LIMB
    requires b == (if r[4] < b3 + M4 then 1 else 0)
    requires t[4] == Wrap64(r[4] - (b3 + M4) + b * 0x1_0000_0000)
    ensures b == 0 <==> Val(r) >= L
    ensures b == 0 ==> Carried(t) && t[4] <= r[4] && Val(t) == Val(r) - L
  {
    var m := [M0, M1, M2, M3, M4];
    Constants();
    var top: int := r[4] - (b3 + M4);
    assert -0x2000_0000 <= top < 4 * LIMB;
    if b == 0 {
      ModUnique(top, W64, 0, top);
      BorrowTelescopes(r, t, m, b0, b1, b2, b3, 0);
    } else {
      assert Val(r) - L == t[0] + t[1] * LIMB + t[2] * B2 + t[3] * B3 + top * B4;
    }
  }

  /** The sum, less L once where it reaches L: for summands below L, the sum modulo L. */
  method Add256(x: Bignum, y: Bignum) returns (r: Bignum)
    requires Normal(x) && Normal(y)
    ensures Carried(r)
    ensures Val(r) == if Val(x) + Val(y) >= L then Val(x) + Val(y) - L else Val(x) + Val(y)
    ensures Val(x) < L && Val(y) < L ==> Normal(r) && Val(r) == (Val(x) + Val(y)) % L
  {
    var c: u64 := x[0] + y[0]; var r0 := c % LIMB; c := c / LIMB; ghost var c0 := c;
    c := c + x[1] + y[1]; var r1 := c % LIMB; c := c / LIMB; ghost var c1 := c;
    c := c + x[2] + y[2]; var r2 := c % LIMB; c := c / LIMB; ghost var c2 := c;
    c := c + x[3] + y[3]; var r3 := c % LIMB; c := c / LIMB; ghost var c3 := c;
    c := c + x[4] + y[4]; var r4 := c;
    r := [r0, r1, r2, r3, r4];
    CarriesTelescope(x, y, r, c0, c1, c2, c3);
    ghost var sum := r;
    r := Reduce256(r);
    SumBelowTwice(x, y, sum, r);
  }

  lemma CarriesTelescope(x: Bignum, y: Bignum, r: Bignum, c0: nat, c1: nat, c2: nat, c3: nat)
    requires r[0] + c0 * LIMB == x[0] + y[0]
    requires r[1] + c1 * LIMB == c0 + x[1] + y[1]
    requires r[2] + c2 * LIMB == c1 + x[2] + y[2]
    requires r[3] + c3 * LIMB == c2 + x[3] + y[3]
    requires r[4] == c3 + x[4] + y[4]
    ensures Val(r) == Val(x) + Val(y)
  {
  }

  lemma SumBelowTwice(x: Bignum, y: Bignum, sum: Bignum, r: Bignum)
    requires Val(sum) == Val(x) + Val(y) && Carried(r)
    requires Val(r) == if Val(sum) >= L then Val(sum) - L else Val(sum)
    ensures Val(x) < L && Val(y) < L ==> Normal(r) && Val(r) == (Val(x) + Val(y)) % L
  {
    if Val(x) < L && Val(y) < L {
      ReducedIsNormal(r);
      hide Val;
      ModUnique(Val(sum), L, if Val(sum) >= L then 1 else 0, Val(r));
    }
  }

  lemma ReducedIsNormal(r: Bignum)
    requires Carried(r) && Val(r) < L
    ensures Normal(r) && r[4] <= M4
  {
  }

  // ---- Barrett reduction ----

  /** The quotient estimate falls short of x / L by less than 3, dropped columns included. */
  lemma BarrettQuotient(x: nat, q1: nat, x0: nat, q3: nat)
    requires x < TWO512 && x == q1 * TWO248 + x0 && x0 < TWO248
    requires 0 <= MU * q1 - q3 * TWO264 < TWO264 + 8 * B4
    ensures 0 <= x - q3 * L < 3 * L
  {
    Constants();
    assert q1 <= TWO264;
  }


  /** Where a 56-bit column is cut in two: after 40 bits, or after 24. */
  predicate Cut(lo: nat, hi: nat) {
    (lo == TWO40 && hi == TWO16) || (lo == TWO24 && hi == TWO32)
  }

  lemma SplitColumn(c: nat, lo: nat, hi: nat)
    requires Cut(lo, hi)
    ensures c == c % lo + c / lo % hi * lo + c / LIMB * LIMB
  {
    var d := c / lo;
    assert lo * hi == LIMB;
    DivDiv(c, lo, hi);
    assert c == c % lo + d * lo && d == d % hi + d / hi * hi;
  }

  /** `((lo128(c) >> k) & ones) | ((lo128(d) << (56 - k)) & mask56)` with k the place of the cut. */
  function JoinColumns(c: nat, d: nat, lo: nat, hi: nat): nat
    requires Cut(lo, hi)
  {
    Or(Wrap64(c) / lo % hi, Wrap64(Wrap64(d) * hi) % LIMB)
  }

  lemma JoinColumnsIs(c: nat, d: nat, lo: nat, hi: nat)
    requires Cut(lo, hi)
    ensures JoinColumns(c, d, lo, hi) == c / lo % hi + d % lo * hi
  {
    hide Or, Pow2;
    Pow2Values();
    HighBits(c, lo, hi);
    LowBits(d, lo, hi);
    OrDisjoint(c / lo % hi, d % lo, if hi == TWO16 then 16 else 32);
  }

  lemma HighBits(c: nat, lo: nat, hi: nat)
    requires Cut(lo, hi)
    ensures Wrap64(c) / lo % hi == c / lo % hi
  {
    var k, d := c / W64, c % W64;
    assert c == k * W64 + d;
    if lo == TWO40 {
      ModUnique(c, TWO40, d / TWO40 + k * TWO24, d % TWO40);
      var e := d / TWO40;
      ModUnique(e + k * TWO24, TWO16, e / TWO16 + k * 0x100, e % TWO16);
    } else {
      ModUnique(c, TWO24, d / TWO24 + k * TWO40, d % TWO24);
      var e := d / TWO24;
      ModUnique(e + k * TWO40, TWO32, e / TWO32 + k * 0x100, e % TWO32);
    }
  }

  lemma LowBits(d: nat, lo: nat, hi: nat)
    requires Cut(lo, hi)
    ensures Wrap64(Wrap64(d) * hi) % LIMB == d % lo * hi
  {
    var k64 := d / W64;
    assert d == k64 * W64 + Wrap64(d);
    var e := Wrap64(d) * hi;
    var j := e / W64;
    assert e == j * W64 + Wrap64(e);
    if lo == TWO40 {
      var k := d / TWO40;
      assert d == k * TWO40 + d % TWO40;
      ModUnique(Wrap64(e), LIMB, k - (k64 * TWO16 + j) * 0x100, d % TWO40 * TWO16);
    } else {
      var k := d / TWO24;
      assert d == k * TWO24 + d % TWO24;
      ModUnique(Wrap64(e), LIMB, k - (k64 * TWO32 + j) * 0x100, d % TWO24 * TWO32);
    }
  }

  /** Column k of mu * q1: the products of limbs whose indices sum to k. */
  function QuotientColumn(q: Bignum, k: nat): nat {
    if k == 0 then MU0 * q[0]
    else if k == 1 then MU0 * q[1] + MU1 * q[0]
    else if k == 2 then MU0 * q[2] + MU2 * q[0] + MU1 * q[1]
    else if k == 3 then MU0 * q[3] + MU3 * q[0] + MU1 * q[2] + MU2 * q[1]
    else if k == 4 then MU0 * q[4] + MU4 * q[0] + MU3 * q[1] + MU1 * q[3] + MU2 * q[2]
    else if k == 5 then MU4 * q[1] + MU1 * q[4] + MU2 * q[3] + MU3 * q[2]
    else if k == 6 then MU4 * q[2] + MU2 * q[4] + MU3 * q[3]
    else if k == 7 then MU4 * q[3] + MU3 * q[4]
    else MU4 * q[4]
  }

  lemma QuotientColumnBound(q: Bignum, k: nat)
    requires Normal(q) && q[4] < TWO40 && k <= 8
    ensures QuotientColumn(q, k) < 4 * B2 + B2 / TWO16
    ensures k == 8 ==> QuotientColumn(q, k) < LIMB * 0x10_0000
  {
  }

  /** The columns from the fourth up, each with the carry of the one before. */
  predicate QuotientColumns(q: Bignum, c3: nat, c4: nat, c5: nat, c6: nat, c7: nat, c8: nat) {
    && c3 == QuotientColumn(q, 3)
    && c4 == QuotientColumn(q, 4) + c3 / LIMB
    && c5 == QuotientColumn(q, 5) + c4 / LIMB
    && c6 == QuotientColumn(q, 6) + c5 / LIMB
    && c7 == QuotientColumn(q, 7) + c6 / LIMB
    && c8 == QuotientColumn(q, 8) + c7 / LIMB
  }

  /** The sum of the columns from the fifth up, as they were carried. */
  function ColumnSum(c4: nat, c5: nat, c6: nat, c7: nat, c8: nat): nat {
    c4 % LIMB + c5 % LIMB * LIMB + c6 % LIMB * B2 + c7 % LIMB * B3 + c8 * B4
  }

  /** mu * q1 by columns. */
  lemma QuotientProduct(q: Bignum)
    ensures MU * Val(q)
         == QuotientColumn(q, 0) + QuotientColumn(q, 1) * LIMB + QuotientColumn(q, 2) * B2 + QuotientColumn(q, 3) * B3
            + QuotientColumn(q, 4) * B4 + QuotientColumn(q, 5) * (LIMB * B4) + QuotientColumn(q, 6) * (B2 * B4)
            + QuotientColumn(q, 7) * (B3 * B4) + QuotientColumn(q, 8) * (B4 * B4)
  {
    ProductColumns(MU, Val(q), MU0, MU1, MU2, MU3, MU4, q[0], q[1], q[2], q[3], q[4]);
  }

  /** The product of two five-limb numbers, by columns. */
  lemma ProductColumns(a: int, b: int, a0: int, a1: int, a2: int, a3: int, a4: int,
                       b0: int, b1: int, b2: int, b3: int, b4: int)
    requires a == a0 + a1 * LIMB + a2 * B2 + a3 * B3 + a4 * B4
    requires b == b0 + b1 * LIMB + b2 * B2 + b3 * B3 + b4 * B4
    ensures a * b
         == a0 * b0 + (a0 * b1 + a1 * b0) * LIMB + (a0 * b2 + a2 * b0 + a1 * b1) * B2
            + (a0 * b3 + a3 * b0 + a1 * b2 + a2 * b1) * B3 + (a0 * b4 + a4 * b0 + a3 * b1 + a1 * b3 + a2 * b2) * B4
            + (a4 * b1 + a1 * b4 + a2 * b3 + a3 * b2) * (LIMB * B4) + (a4 * b2 + a2 * b4 + a3 * b3) * (B2 * B4)
            + (a4 * b3 + a3 * b4) * (B3 * B4) + a4 * b4 * (B4 * B4)
  {
    ProductRow(b, a, a0, a1, a2, a3, a4);
    ProductRow(a0, b, b0, b1, b2, b3, b4);
    ProductRow(a1, b, b0, b1, b2, b3, b4);
    ProductRow(a2, b, b0, b1, b2, b3, b4);
    ProductRow(a3, b, b0, b1, b2, b3, b4);
    ProductRow(a4, b, b0, b1, b2, b3, b4);
    RowsToColumns(a * b, a0 * b, a1 * b, a2 * b, a3 * b, a4 * b, a0 * b0, a0 * b1, a0 * b2, a0 * b3, a0 * b4,
                  a1 * b0, a1 * b1, a1 * b2, a1 * b3, a1 * b4, a2 * b0, a2 * b1, a2 * b2, a2 * b3, a2 * b4,
                  a3 * b0, a3 * b1, a3 * b2, a3 * b3, a3 * b4, a4 * b0, a4 * b1, a4 * b2, a4 * b3, a4 * b4);
  }

  lemma ProductRow(x: int, b: int, b0: int, b1: int, b2: int, b3: int, b4: int)
    requires b == b0 + b1 * LIMB + b2 * B2 + b3 * B3 + b4 * B4
    ensures x * b == b * x == (x * b0) + (x * b1) * LIMB + (x * b2) * B2 + (x * b3) * B3 + (x * b4) * B4
  {
  }

  lemma RowsToColumns(product: int, r0: int, r1: int, r2: int, r3: int, r4: int,
                      p00: int, p01: int, p02: int, p03: int, p04: int, p10: int, p11: int, p12: int, p13: int, p14: int,
                      p20: int, p21: int, p22: int, p23: int, p24: int, p30: int, p31: int, p32: int, p33: int, p34: int,
                      p40: int, p41: int, p42: int, p43: int, p44: int)
    requires r0 == p00 + p01 * LIMB + p02 * B2 + p03 * B3 + p04 * B4
    requires r1 == p10 + p11 * LIMB + p12 * B2 + p13 * B3 + p14 * B4
    requires r2 == p20 + p21 * LIMB + p22 * B2 + p23 * B3 + p24 * B4
    requires r3 == p30 + p31 * LIMB + p32 * B2 + p33 * B3 + p34 * B4
    requires r4 == p40 + p41 * LIMB + p42 * B2 + p43 * B3 + p44 * B4
    requires product == r0 + r1 * LIMB + r2 * B2 + r3 * B3 + r4 * B4
    ensures product
         == p00 + (p01 + p10) * LIMB + (p02 + p20 + p11) * B2
            + (p03 + p30 + p12 + p21) * B3 + (p04 + p40 + p31 + p13 + p22) * B4
            + (p41 + p14 + p23 + p32) * (LIMB * B4) + (p42 + p24 + p33) * (B2 * B4)
            + (p43 + p34) * (B3 * B4) + p44 * (B4 * B4)
  {
  }

  /** Carrying from one column to the next keeps the sum of the columns. */
  lemma ColumnsTelescope(s3: int, s4: int, s5: int, s6: int, s7: int, s8: int, r3: int, f3: int, r4: int, f4: int,
                         r5: int, f5: int, r6: int, f6: int, r7: int, f7: int)
    requires s3 == r3 + f3 * LIMB
    requires s4 + f3 == r4 + f4 * LIMB
    requires s5 + f4 == r5 + f5 * LIMB
    requires s6 + f5 == r6 + f6 * LIMB
    requires s7 + f6 == r7 + f7 * LIMB
    ensures s3 * B3 + s4 * B4 + s5 * (LIMB * B4) + s6 * (B2 * B4) + s7 * (B3 * B4) + s8 * (B4 * B4)
         == r3 * B3 + (r4 + r5 * LIMB + r6 * B2 + r7 * B3 + (s8 + f7) * B4) * B4
  {
  }

  /** Only the four lowest columns of the product, without their carries, are lost. */
  lemma DroppedColumns(q: Bignum, c3: nat, c4: nat, c5: nat, c6: nat, c7: nat, c8: nat)
    requires Normal(q) && QuotientColumns(q, c3, c4, c5, c6, c7, c8)
    ensures 0 <= MU * Val(q) - ColumnSum(c4, c5, c6, c7, c8) * B4 < 8 * B4
  {
    hide Val, QuotientColumn;
    QuotientProduct(q);
    ColumnsTelescope(QuotientColumn(q, 3), QuotientColumn(q, 4), QuotientColumn(q, 5), QuotientColumn(q, 6),
                     QuotientColumn(q, 7), QuotientColumn(q, 8), c3 % LIMB, c3 / LIMB, c4 % LIMB, c4 / LIMB,
                     c5 % LIMB, c5 / LIMB, c6 % LIMB, c6 / LIMB, c7 % LIMB, c7 / LIMB);
    LostColumns(q, c3 % LIMB);
  }

  lemma LostColumns(q: Bignum, r3: nat)
    requires Normal(q) && r3 < LIMB
    ensures QuotientColumn(q, 0) + QuotientColumn(q, 1) * LIMB + QuotientColumn(q, 2) * B2 + r3 * B3 < 8 * B4
  {
  }

  /** The joined limbs are the columns shifted right past the cut. */
  lemma JoinedIsShifted(q: Bignum, c4: nat, c5: nat, c6: nat, c7: nat, c8: nat, lo: nat, hi: nat)
    requires Cut(lo, hi)
    requires q[0] == c4 / lo % hi + c5 % lo * hi
    requires q[1] == c5 / lo % hi + c6 % lo * hi
    requires q[2] == c6 / lo % hi + c7 % lo * hi
    requires q[3] == c7 / lo % hi + c8 % lo * hi
    requires q[4] == c8 / lo % hi + c8 / LIMB * hi
    ensures ColumnSum(c4, c5, c6, c7, c8) == c4 % lo + Val(q) * lo
    ensures q[0] < LIMB && q[1] < LIMB && q[2] < LIMB && q[3] < LIMB
  {
    ColumnMod(c4, lo, hi);
    ColumnMod(c5, lo, hi);
    ColumnMod(c6, lo, hi);
    ColumnMod(c7, lo, hi);
    SplitColumn(c8, lo, hi);
    if lo == TWO40 {
      ShiftTelescopes40(c4 % lo, c4 / lo % hi, c5 % lo, c5 / lo % hi, c6 % lo, c6 / lo % hi, c7 % lo, c7 / lo % hi,
                        c8 % lo, c8 / lo % hi, c8 / LIMB);
    } else {
      ShiftTelescopes24(c4 % lo, c4 / lo % hi, c5 % lo, c5 / lo % hi, c6 % lo, c6 / lo % hi, c7 % lo, c7 / lo % hi,
                        c8 % lo, c8 / lo % hi, c8 / LIMB);
    }
  }

  lemma ShiftTelescopes40(l4: int, h4: int, l5: int, h5: int, l6: int, h6: int, l7: int, h7: int, l8: int, h8: int, f8: int)
    ensures l4 + h4 * TWO40 + (l5 + h5 * TWO40) * LIMB + (l6 + h6 * TWO40) * B2 + (l7 + h7 * TWO40) * B3
            + (l8 + h8 * TWO40 + f8 * LIMB) * B4
         == l4 + (h4 + l5 * TWO16 + (h5 + l6 * TWO16) * LIMB + (h6 + l7 * TWO16) * B2 + (h7 + l8 * TWO16) * B3
                  + (h8 + f8 * TWO16) * B4) * TWO40
  {
  }

  lemma ShiftTelescopes24(l4: int, h4: int, l5: int, h5: int, l6: int, h6: int, l7: int, h7: int, l8: int, h8: int, f8: int)
    ensures l4 + h4 * TWO24 + (l5 + h5 * TWO24) * LIMB + (l6 + h6 * TWO24) * B2 + (l7 + h7 * TWO24) * B3
            + (l8 + h8 * TWO24 + f8 * LIMB) * B4
         == l4 + (h4 + l5 * TWO32 + (h5 + l6 * TWO32) * LIMB + (h6 + l7 * TWO32) * B2 + (h7 + l8 * TWO32) * B3
                  + (h8 + f8 * TWO32) * B4) * TWO24
  {
  }

  lemma ColumnMod(c: nat, lo: nat, hi: nat)
    requires Cut(lo, hi)
    ensures c % LIMB == c % lo + c / lo % hi * lo
    ensures c % lo * hi + (hi - 1) < LIMB
  {
    SplitColumn(c, lo, hi);
    if lo == TWO40 {
      ModUnique(c, LIMB, c / LIMB, c % TWO40 + c / TWO40 % TWO16 * TWO40);
    } else {
      ModUnique(c, LIMB, c / LIMB, c % TWO24 + c / TWO24 % TWO32 * TWO24);
    }
  }

  /** Lines 45-56: the estimate of x / L from the high half q1 of x. */
  method QuotientEstimate(q1: Bignum) returns (q3: Bignum)
    requires Normal(q1) && q1[4] < TWO40
    ensures q3[0] < LIMB && q3[1] < LIMB && q3[2] < LIMB && q3[3] < LIMB && q3[4] <= TWO40
    ensures 0 <= MU * Val(q1) - Val(q3) * TWO264 < TWO264 + 8 * B4
  {
    hide JoinColumns, Val, QuotientColumn;
    forall k: nat | 3 <= k <= 8
      ensures QuotientColumn(q1, k) < 4 * B2 + B2 / TWO16
    {
      QuotientColumnBound(q1, k);
    }
    QuotientColumnBound(q1, 8);
    var c3: u128 := QuotientColumn(q1, 3);
    var f: u64 := c3 / LIMB;
    var c4: u128 := QuotientColumn(q1, 4) + f;
    f := c4 / LIMB;
    var c5: u128 := QuotientColumn(q1, 5) + f;
    f := c5 / LIMB;
    var c6: u128 := QuotientColumn(q1, 6) + f;
    f := c6 / LIMB;
    var c7: u128 := QuotientColumn(q1, 7) + f;
    f := c7 / LIMB;
    var c8: u128 := QuotientColumn(q1, 8) + f;
    f := c8 / LIMB;
    q3 := [JoinColumns(c4, c5, TWO40, TWO16), JoinColumns(c5, c6, TWO40, TWO16), JoinColumns(c6, c7, TWO40, TWO16),
           JoinColumns(c7, c8, TWO40, TWO16),
           Or(Wrap64(c8) / TWO40 % TWO16, Wrap64(f * TWO16))];
    EstimateValue(q1, q3, c3, c4, c5, c6, c7, c8);
  }

  /** Five limbs joined across the cut of the columns c4 to c8. */
  predicate Joined(q: Bignum, c4: nat, c5: nat, c6: nat, c7: nat, c8: nat, lo: nat, hi: nat)
    requires Cut(lo, hi)
  {
    q == [JoinColumns(c4, c5, lo, hi), JoinColumns(c5, c6, lo, hi), JoinColumns(c6, c7, lo, hi),
          JoinColumns(c7, c8, lo, hi), Or(Wrap64(c8) / lo % hi, Wrap64(c8 / LIMB * hi))]
  }

  lemma JoinedValue(q: Bignum, c4: nat, c5: nat, c6: nat, c7: nat, c8: nat, lo: nat, hi: nat)
    requires Cut(lo, hi) && Joined(q, c4, c5, c6, c7, c8, lo, hi) && c8 < LIMB * TWO24
    ensures ColumnSum(c4, c5, c6, c7, c8) == c4 % lo + Val(q) * lo
    ensures q[0] < LIMB && q[1] < LIMB && q[2] < LIMB && q[3] < LIMB
    ensures q[4] == c8 / lo % hi + c8 / LIMB * hi
  {
    hide JoinColumns, Val, Or, Pow2, ColumnSum;
    JoinColumnsIs(c4, c5, lo, hi);
    JoinColumnsIs(c5, c6, lo, hi);
    JoinColumnsIs(c6, c7, lo, hi);
    JoinColumnsIs(c7, c8, lo, hi);
    HighBits(c8, lo, hi);
    TopLimbJoined(c8, lo, hi);
    JoinedIsShifted(q, c4, c5, c6, c7, c8, lo, hi);
  }

  lemma TopLimbJoined(c8: nat, lo: nat, hi: nat)
    requires Cut(lo, hi) && c8 < LIMB * TWO24
    ensures Or(c8 / lo % hi, Wrap64(c8 / LIMB * hi)) == c8 / lo % hi + c8 / LIMB * hi
  {
    hide Or, Pow2;
    Pow2Values();
    var f := c8 / LIMB;
    assert f < TWO24;
    if hi == TWO16 {
      ModUnique(f * TWO16, W64, 0, f * TWO16);
    } else {
      ModUnique(f * TWO32, W64, 0, f * TWO32);
    }
    OrDisjoint(c8 / lo % hi, f, if hi == TWO16 then 16 else 32);
  }

  lemma EstimateValue(q1: Bignum, q3: Bignum, c3: nat, c4: nat, c5: nat, c6: nat, c7: nat, c8: nat)
    requires Normal(q1) && QuotientColumns(q1, c3, c4, c5, c6, c7, c8) && c8 < LIMB * TWO24
    requires Joined(q3, c4, c5, c6, c7, c8, TWO40, TWO16)
    ensures q3[0] < LIMB && q3[1] < LIMB && q3[2] < LIMB && q3[3] < LIMB && q3[4] <= TWO40
    ensures 0 <= MU * Val(q1) - Val(q3) * TWO264 < TWO264 + 8 * B4
  {
    hide Joined, QuotientColumns, Val, ColumnSum;
    JoinedValue(q3, c4, c5, c6, c7, c8, TWO40, TWO16);
    DroppedColumns(q1, c3, c4, c5, c6, c7, c8);
    ShiftedEstimate(MU * Val(q1), ColumnSum(c4, c5, c6, c7, c8), c4 % TWO40, Val(q3));
  }

  lemma ShiftedEstimate(m: int, sum: int, low: int, q3: int)
    requires 0 <= m - sum * B4 < 8 * B4 && sum == low + q3 * TWO40 && 0 <= low < TWO40
    ensures 0 <= m - q3 * TWO264 < TWO264 + 8 * B4
  {
    assert sum * B4 == low * B4 + q3 * TWO264;
  }

  /** Column k of q3 * L, for the five columns that are formed. */
  function MultipleColumn(q: Bignum, k: nat): nat {
    if k == 0 then M0 * q[0]
    else if k == 1 then M0 * q[1] + M1 * q[0]
    else if k == 2 then M0 * q[2] + M2 * q[0] + M1 * q[1]
    else if k == 3 then M0 * q[3] + M3 * q[0] + M1 * q[2] + M2 * q[1]
    else M0 * q[4] + M4 * q[0] + M3 * q[1] + M1 * q[3] + M2 * q[2]
  }

  /** The columns above those. */
  function MultipleHigh(q: Bignum): nat {
    (M4 * q[1] + M1 * q[4] + M2 * q[3] + M3 * q[2]) + (M4 * q[2] + M2 * q[4] + M3 * q[3]) * LIMB
    + (M4 * q[3] + M3 * q[4]) * B2 + M4 * q[4] * B3
  }

  lemma MultipleColumnBound(q: Bignum, k: nat)
    requires Normal(q) && k <= 4
    ensures MultipleColumn(q, k) < 4 * B2
  {
  }

  lemma MultipleProduct(q: Bignum)
    ensures L * Val(q)
         == MultipleColumn(q, 0) + MultipleColumn(q, 1) * LIMB + MultipleColumn(q, 2) * B2 + MultipleColumn(q, 3) * B3
            + MultipleColumn(q, 4) * B4 + MultipleHigh(q) * (LIMB * B4)
  {
    assert L == M0 + M1 * LIMB + M2 * B2 + M3 * B3 + M4 * B4;
    ProductColumns(L, Val(q), M0, M1, M2, M3, M4, q[0], q[1], q[2], q[3], q[4]);
    FoldHigh(M4 * q[1] + M1 * q[4] + M2 * q[3] + M3 * q[2], M4 * q[2] + M2 * q[4] + M3 * q[3],
             M4 * q[3] + M3 * q[4], M4 * q[4]);
  }

  lemma FoldHigh(s5: int, s6: int, s7: int, s8: int)
    ensures (s5 + s6 * LIMB + s7 * B2 + s8 * B3) * (LIMB * B4)
         == s5 * (LIMB * B4) + s6 * (B2 * B4) + s7 * (B3 * B4) + s8 * (B4 * B4)
  {
  }

  /** Lines 57-66: q3 * L modulo 2^264. */
  method LowMultiple(q3: Bignum) returns (r2: Bignum, ghost k: nat)
    requires Normal(q3)
    ensures Normal(r2) && r2[4] < TWO40
    ensures L * Val(q3) == Val(r2) + k * TWO264
  {
    hide MultipleColumn, MultipleHigh, Val;
    forall j: nat | j <= 4
      ensures MultipleColumn(q3, j) < 4 * B2
    {
      MultipleColumnBound(q3, j);
    }
    var c0: u128 := MultipleColumn(q3, 0);
    var f: u64 := c0 / LIMB;
    var c1: u128 := MultipleColumn(q3, 1) + f;
    f := c1 / LIMB;
    var c2: u128 := MultipleColumn(q3, 2) + f;
    f := c2 / LIMB;
    var c3: u128 := MultipleColumn(q3, 3) + f;
    f := c3 / LIMB;
    var c4: u128 := MultipleColumn(q3, 4) + f;
    LowWord(c0);
    LowWord(c1);
    LowWord(c2);
    LowWord(c3);
    LowWord(c4);
    r2 := [Wrap64(c0) % LIMB, Wrap64(c1) % LIMB, Wrap64(c2) % LIMB, Wrap64(c3) % LIMB, Wrap64(c4) % TWO40];
    k := c4 / TWO40 + MultipleHigh(q3) * TWO16;
    LowMultipleValue(q3, r2, c0, c1, c2, c3, c4, k);
  }

  lemma LowWord(c: nat)
    ensures Wrap64(c) % LIMB == c % LIMB && Wrap64(c) % TWO40 == c % TWO40
  {
    var k, d := c / W64, c % W64;
    assert c == k * W64 + d;
    assert d == d / LIMB * LIMB + d % LIMB && d == d / TWO40 * TWO40 + d % TWO40;
    ModUnique(c, LIMB, k * 0x100 + d / LIMB, d % LIMB);
    ModUnique(c, TWO40, k * 0x100_0000 + d / TWO40, d % TWO40);
  }

  lemma LowMultipleValue(q3: Bignum, r2: Bignum, c0: nat, c1: nat, c2: nat, c3: nat, c4: nat, k: nat)
    requires c0 == MultipleColumn(q3, 0)
    requires c1 == MultipleColumn(q3, 1) + c0 / LIMB
    requires c2 == MultipleColumn(q3, 2) + c1 / LIMB
    requires c3 == MultipleColumn(q3, 3) + c2 / LIMB
    requires c4 == MultipleColumn(q3, 4) + c3 / LIMB
    requires r2 == [c0 % LIMB, c1 % LIMB, c2 % LIMB, c3 % LIMB, c4 % TWO40]
    requires k == c4 / TWO40 + MultipleHigh(q3) * TWO16
    ensures Normal(r2) && L * Val(q3) == Val(r2) + k * TWO264
  {
    MultipleProduct(q3);
    hide MultipleColumn, MultipleHigh;
    LowTelescopes(MultipleColumn(q3, 0), MultipleColumn(q3, 1), MultipleColumn(q3, 2), MultipleColumn(q3, 3),
                  MultipleColumn(q3, 4), c0 % LIMB, c0 / LIMB, c1 % LIMB, c1 / LIMB, c2 % LIMB, c2 / LIMB,
                  c3 % LIMB, c3 / LIMB, c4 % TWO40, c4 / TWO40);
  }

  lemma LowTelescopes(s0: int, s1: int, s2: int, s3: int, s4: int, r0: int, f0: int, r1: int, f1: int, r2: int, f2: int,
                      r3: int, f3: int, r4: int, f4: int)
    requires s0 == r0 + f0 * LIMB
    requires s1 + f0 == r1 + f1 * LIMB
    requires s2 + f1 == r2 + f2 * LIMB
    requires s3 + f2 == r3 + f3 * LIMB
    requires s4 + f3 == r4 + f4 * TWO40
    ensures s0 + s1 * LIMB + s2 * B2 + s3 * B3 + s4 * B4
         == r0 + r1 * LIMB + r2 * B2 + r3 * B3 + r4 * B4 + f4 * TWO264
  {
  }

  /** Lines 67-72: r1 - r2 modulo 2^264. */
  method SubtractLow(r1: Bignum, r2: Bignum) returns (r: Bignum, ghost b: nat)
    requires Normal(r1) && r1[4] < TWO40 && Normal(r2) && r2[4] < TWO40
    ensures Normal(r) && r[4] < TWO40
    ensures Val(r) == Val(r1) - Val(r2) + b * TWO264
  {
    hide LtModm, Wrap64;
    var pb, bb: nat;
    pb := r2[0];
    SubLimb(r1[0], pb, LIMB);
    bb := LtModm(r1[0], pb); var t0 := Wrap64(r1[0] - pb + bb * LIMB); pb := bb;
    ghost var b0 := bb;
    pb := pb + r2[1];
    SubLimb(r1[1], pb, LIMB);
    bb := LtModm(r1[1], pb); var t1 := Wrap64(r1[1] - pb + bb * LIMB); pb := bb;
    ghost var b1 := bb;
    pb := pb + r2[2];
    SubLimb(r1[2], pb, LIMB);
    bb := LtModm(r1[2], pb); var t2 := Wrap64(r1[2] - pb + bb * LIMB); pb := bb;
    ghost var b2 := bb;
    pb := pb + r2[3];
    SubLimb(r1[3], pb, LIMB);
    bb := LtModm(r1[3], pb); var t3 := Wrap64(r1[3] - pb + bb * LIMB); pb := bb;
    ghost var b3 := bb;
    pb := pb + r2[4];
    SubLimb(r1[4], pb, TWO40);
    bb := LtModm(r1[4], pb); var t4 := Wrap64(r1[4] - pb + bb * TWO40);
    r, b := [t0, t1, t2, t3, t4], bb;
    BorrowTelescopes(r1, r, r2, b0, b1, b2, b3, bb * TWO40);
  }

  lemma SameModulo264(x: nat, r1: nat, j: int, r2: int, k: int, r: nat, b: int, m: int)
    requires x == r1 + j * TWO264 && m == r2 + k * TWO264 && r == r1 - r2 + b * TWO264
    requires r < TWO264 && 0 <= x - m < TWO264
    ensures r == x - m
  {
    var d := j - k - b;
    assert x - m - r == d * TWO264;
  }

  /** x modulo L, from the 264 high bits q1 and the 264 low bits r1 of any x below 2^512. */
  method BarrettReduce256(q1: Bignum, r1: Bignum, ghost x: nat) returns (r: Bignum)
    requires x < TWO512
    requires Normal(q1) && Val(q1) == x / TWO248
    requires Normal(r1) && Val(r1) == x % TWO264
    ensures Normal(r) && Val(r) == x % L
  {
    hide Val;
    HighPart(q1, x);
    LowPart(r1);
    var q3 := QuotientEstimate(q1);
    BarrettQuotient(x, Val(q1), x % TWO248, Val(q3));
    var r2, k := LowMultiple(q3);
    ghost var b: nat;
    r, b := SubtractLow(r1, r2);
    LowValue(r);
    SameModulo264(x, Val(r1), x / TWO264, Val(r2), k, Val(r), b, L * Val(q3));
    ghost var v := Val(r);
    r := Reduce256(r);
    r := Reduce256(r);
    ReducedIsNormal(r);
    ThreeTimesBelow(x, v, Val(r), Val(q3));
  }

  lemma HighPart(q1: Bignum, x: nat)
    requires x < TWO512 && Normal(q1) && Val(q1) == x / TWO248
    ensures q1[4] < TWO40
  {
    assert x / TWO248 < TWO264;
  }

  lemma LowPart(r1: Bignum)
    requires Normal(r1) && Val(r1) < TWO264
    ensures r1[4] < TWO40
  {
  }

  lemma LowValue(r: Bignum)
    requires Normal(r) && r[4] < TWO40
    ensures Val(r) < TWO264
  {
  }

  lemma ThreeTimesBelow(x: nat, v: nat, r: nat, q3: nat)
    requires v == x - L * q3 && v < 3 * L
    requires r == if v >= 2 * L then v - 2 * L else if v >= L then v - L else v
    ensures r == x % L
  {
    var q := if v >= 2 * L then q3 + 2 else if v >= L then q3 + 1 else q3;
    ModUnique(x, L, q, r);
  }
}
