/**
 Multiplication modulo L: the 512-bit product by columns, cut into the two overlapping
 halves that the Barrett reduction takes.

 Line numbers are those of src/ed25519-donna/modm-donna-64bit.h.
 */
module ModmMul {
  import opened Bits
  import opened Scalars
  import opened Modm

  /** Column k of x * y. */
  function ProductColumn(x: Bignum, y: Bignum, k: nat): nat {
    if k == 0 then x[0] * y[0]
    else if k == 1 then x[0] * y[1] + x[1] * y[0]
    else if k == 2 then x[0] * y[2] + x[2] * y[0] + x[1] * y[1]
    else if k == 3 then x[0] * y[3] + x[3] * y[0] + x[1] * y[2] + x[2] * y[1]
    else if k == 4 then x[0] * y[4] + x[4] * y[0] + x[3] * y[1] + x[1] * y[3] + x[2] * y[2]
    else if k == 5 then x[4] * y[1] + x[1] * y[4] + x[2] * y[3] + x[3] * y[2]
    else if k == 6 then x[4] * y[2] + x[2] * y[4] + x[3] * y[3]
    else if k == 7 then x[4] * y[3] + x[3] * y[4]
    else x[4] * y[4]
  }

  lemma LimbProduct(a: nat, b: nat)
    requires a < LIMB && b < LIMB
    ensures a * b < B2
  {
    MulStrict(a, LIMB, b);
    MulStrict(b, LIMB, LIMB);
  }

  lemma ProductColumnBound(x: Bignum, y: Bignum, k: nat)
    requires Normal(x) && Normal(y) && k <= 8
    ensures ProductColumn(x, y, k) <= 5 * B2
  {
    forall i, j | 0 <= i < 5 && 0 <= j < 5
      ensures x[i] * y[j] < B2
    {
      LimbProduct(x[i], y[j]);
    }
  }

  lemma ProductByColumns(x: Bignum, y: Bignum)
    ensures Val(x) * Val(y)
         == ProductColumn(x, y, 0) + ProductColumn(x, y, 1) * LIMB + ProductColumn(x, y, 2) * B2
            + ProductColumn(x, y, 3) * B3 + ProductColumn(x, y, 4) * B4 + ProductColumn(x, y, 5) * (LIMB * B4)
            + ProductColumn(x, y, 6) * (B2 * B4) + ProductColumn(x, y, 7) * (B3 * B4)
            + ProductColumn(x, y, 8) * (B4 * B4)
  {
    ProductColumns(Val(x), Val(y), x[0], x[1], x[2], x[3], x[4], y[0], y[1], y[2], y[3], y[4]);
  }

  /** The nine columns, each with the carry of the one before. */
  predicate CarriedColumns(x: Bignum, y: Bignum, c: seq<nat>)
    requires |c| == 9
  {
    c[0] == ProductColumn(x, y, 0)
    && c[1] == ProductColumn(x, y, 1) + c[0] / LIMB
    && c[2] == ProductColumn(x, y, 2) + c[1] / LIMB
    && c[3] == ProductColumn(x, y, 3) + c[2] / LIMB
    && c[4] == ProductColumn(x, y, 4) + c[3] / LIMB
    && c[5] == ProductColumn(x, y, 5) + c[4] / LIMB
    && c[6] == ProductColumn(x, y, 6) + c[5] / LIMB
    && c[7] == ProductColumn(x, y, 7) + c[6] / LIMB
    && c[8] == ProductColumn(x, y, 8) + c[7] / LIMB
  }

  /** The product is the low four limbs plus the column sum of the rest. */
  lemma CarriedProduct(x: Bignum, y: Bignum, c: seq<nat>)
    requires |c| == 9 && CarriedColumns(x, y, c)
    ensures Val(x) * Val(y) == c[0] % LIMB + c[1] % LIMB * LIMB + c[2] % LIMB * B2 + c[3] % LIMB * B3
                               + ColumnSum(c[4], c[5], c[6], c[7], c[8]) * B4
  {
    ProductByColumns(x, y);
    hide ProductColumn, Val;
    NineTelescope(ProductColumn(x, y, 0), ProductColumn(x, y, 1), ProductColumn(x, y, 2), ProductColumn(x, y, 3),
                  ProductColumn(x, y, 4), ProductColumn(x, y, 5), ProductColumn(x, y, 6), ProductColumn(x, y, 7),
                  ProductColumn(x, y, 8), c[0] % LIMB, c[0] / LIMB, c[1] % LIMB, c[1] / LIMB, c[2] % LIMB, c[2] / LIMB,
                  c[3] % LIMB, c[3] / LIMB, c[4] % LIMB, c[4] / LIMB, c[5] % LIMB, c[5] / LIMB,
                  c[6] % LIMB, c[6] / LIMB, c[7] % LIMB, c[7] / LIMB);
  }

  lemma NineTelescope(s0: int, s1: int, s2: int, s3: int, s4: int, s5: int, s6: int, s7: int, s8: int,
                      r0: int, f0: int, r1: int, f1: int, r2: int, f2: int, r3: int, f3: int,
                      r4: int, f4: int, r5: int, f5: int, r6: int, f6: int, r7: int, f7: int)
    requires s0 == r0 + f0 * LIMB
    requires s1 + f0 == r1 + f1 * LIMB
    requires s2 + f1 == r2 + f2 * LIMB
    requires s3 + f2 == r3 + f3 * LIMB
    requires s4 + f3 == r4 + f4 * LIMB
    requires s5 + f4 == r5 + f5 * LIMB
    requires s6 + f5 == r6 + f6 * LIMB
    requires s7 + f6 == r7 + f7 * LIMB
    ensures s0 + s1 * LIMB + s2 * B2 + s3 * B3 + s4 * B4 + s5 * (LIMB * B4) + s6 * (B2 * B4) + s7 * (B3 * B4) + s8 * (B4 * B4)
         == r0 + r1 * LIMB + r2 * B2 + r3 * B3 + (r4 + r5 * LIMB + r6 * B2 + r7 * B3 + (s8 + f7) * B4) * B4
  {
    assert s0 + s1 * LIMB + s2 * B2 + s3 * B3 == r0 + r1 * LIMB + r2 * B2 + r3 * B3 + f3 * B4;
    assert s4 + f3 + s5 * LIMB + s6 * B2 + s7 * B3 + s8 * B4 == r4 + r5 * LIMB + r6 * B2 + r7 * B3 + (s8 + f7) * B4;
  }

  /** The halves: the low 264 bits, and all bits from 248 up. */
  lemma Halves(z: nat, low: nat, sum: nat, c4: nat, q1: nat, r1: nat)
    requires low < B4 && z == low + sum * B4
    requires sum == c4 % TWO24 + q1 * TWO24
    requires r1 == low + sum % TWO40 * B4
    ensures q1 == z / TWO248 && r1 == z % TWO264
  {
    ModUnique(z, TWO248, q1, low + c4 % TWO24 * B4);
    var k := sum / TWO40;
    assert sum == k * TWO40 + sum % TWO40;
    ModUnique(z, TWO264, k, r1);
  }

  lemma SumLow40(c4: nat, c5: nat, c6: nat, c7: nat, c8: nat)
    ensures ColumnSum(c4, c5, c6, c7, c8) % TWO40 == c4 % TWO40
  {
    var d := c4 % LIMB;
    var rest := c5 % LIMB + c6 % LIMB * LIMB + c7 % LIMB * B2 + c8 * B3;
    assert ColumnSum(c4, c5, c6, c7, c8) == d + rest * LIMB;
    ColumnMod(c4, TWO40, TWO16);
    ModUnique(d + rest * LIMB, TWO40, c4 / TWO40 % TWO16 + rest * TWO16, c4 % TWO40);
  }

  method Mul256(x: Bignum, y: Bignum) returns (r: Bignum)
    requires Normal(x) && Normal(y) && Val(x) * Val(y) < TWO512
    ensures Normal(r) && Val(r) == Val(x) * Val(y) % L
  {
    hide ProductColumn, Val, JoinColumns, ColumnSum, Or, Wrap64;
    var q1, r1 := ProductHalves(x, y);
    r := BarrettReduce256(q1, r1, Val(x) * Val(y));
  }

  method ProductHalves(x: Bignum, y: Bignum) returns (q1: Bignum, r1: Bignum)
    requires Normal(x) && Normal(y) && Val(x) * Val(y) < TWO512
    ensures Normal(q1) && Val(q1) == Val(x) * Val(y) / TWO248
    ensures Normal(r1) && Val(r1) == Val(x) * Val(y) % TWO264
  {
    hide ProductColumn, Val, JoinColumns, ColumnSum, Or, Wrap64;
    forall k: nat | k <= 8
      ensures ProductColumn(x, y, k) <= 5 * B2
    {
      ProductColumnBound(x, y, k);
    }
    var c0: u128 := ProductColumn(x, y, 0);
    var f: u64 := c0 / LIMB;
    var c1: u128 := ProductColumn(x, y, 1) + f;
    f := c1 / LIMB;
    var c2: u128 := ProductColumn(x, y, 2) + f;
    f := c2 / LIMB;
    var c3: u128 := ProductColumn(x, y, 3) + f;
    f := c3 / LIMB;
    var c4: u128 := ProductColumn(x, y, 4) + f;
    f := c4 / LIMB;
    var c5: u128 := ProductColumn(x, y, 5) + f;
    f := c5 / LIMB;
    var c6: u128 := ProductColumn(x, y, 6) + f;
    f := c6 / LIMB;
    var c7: u128 := ProductColumn(x, y, 7) + f;
    f := c7 / LIMB;
    var c8: u128 := ProductColumn(x, y, 8) + f;
    f := c8 / LIMB;
    r1 := [Wrap64(c0) % LIMB, Wrap64(c1) % LIMB, Wrap64(c2) % LIMB, Wrap64(c3) % LIMB, Wrap64(c4) % TWO40];
    q1 := [JoinColumns(c4, c5, TWO24, TWO32), JoinColumns(c5, c6, TWO24, TWO32), JoinColumns(c6, c7, TWO24, TWO32),
           JoinColumns(c7, c8, TWO24, TWO32), Or(Wrap64(c8) / TWO24 % TWO32, Wrap64(f * TWO32))];
    HalvesOfProduct(x, y, [c0, c1, c2, c3, c4, c5, c6, c7, c8], q1, r1);
  }

  lemma HalvesOfProduct(x: Bignum, y: Bignum, c: seq<nat>, q1: Bignum, r1: Bignum)
    requires Normal(x) && Normal(y) && Val(x) * Val(y) < TWO512 && |c| == 9 && CarriedColumns(x, y, c)
    requires r1 == [Wrap64(c[0]) % LIMB, Wrap64(c[1]) % LIMB, Wrap64(c[2]) % LIMB, Wrap64(c[3]) % LIMB, Wrap64(c[4]) % TWO40]
    requires Joined(q1, c[4], c[5], c[6], c[7], c[8], TWO24, TWO32)
    ensures Normal(q1) && Val(q1) == Val(x) * Val(y) / TWO248
    ensures Normal(r1) && Val(r1) == Val(x) * Val(y) % TWO264
  {
    hide CarriedColumns, Joined, ColumnSum, Wrap64, Val;
    var z := Val(x) * Val(y);
    var sum := ColumnSum(c[4], c[5], c[6], c[7], c[8]);
    CarriedProduct(x, y, c);
    LowWord(c[0]);
    LowWord(c[1]);
    LowWord(c[2]);
    LowWord(c[3]);
    LowWord(c[4]);
    SumLow40(c[4], c[5], c[6], c[7], c[8]);
    TopColumnSmall(c[4], c[5], c[6], c[7], c[8], z, z - sum * B4);
    JoinedValue(q1, c[4], c[5], c[6], c[7], c[8], TWO24, TWO32);
    LowLimbs(r1);
    Halves(z, z - sum * B4, sum, c[4], Val(q1), Val(r1));
    HighLimbs(q1, z);
  }

  lemma LowLimbs(r1: Bignum)
    ensures Val(r1) == r1[0] + r1[1] * LIMB + r1[2] * B2 + r1[3] * B3 + r1[4] * B4
    ensures Normal(r1) ==> r1[0] + r1[1] * LIMB + r1[2] * B2 + r1[3] * B3 < B4
  {
  }

  lemma TopColumnSmall(c4: nat, c5: nat, c6: nat, c7: nat, c8: nat, z: nat, low: int)
    requires z < TWO512 && low >= 0 && z == low + ColumnSum(c4, c5, c6, c7, c8) * B4
    ensures c8 < LIMB * TWO24
  {
    assert ColumnSum(c4, c5, c6, c7, c8) >= c8 * B4;
  }

  lemma HighLimbs(q1: Bignum, z: nat)
    requires z < TWO512 && Val(q1) == z / TWO248
    requires q1[0] < LIMB && q1[1] < LIMB && q1[2] < LIMB && q1[3] < LIMB
    ensures Normal(q1)
  {
    assert Val(q1) < TWO264;
  }
}
