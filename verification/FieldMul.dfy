/** Products, squares and repeated squares modulo p = 2^255 - 19.

 Line numbers are those of src/ed25519-donna/curve25519-donna-64bit.h.
 */
module FieldMul {
  import opened Bits
  import opened Field

  const P108: nat := LOOSE * LOOSE        // 2^108: what a product of two limbs stays below

  // ---- columns ----

  /** The products of limbs whose indices sum to k. */
  function Low(a: Fe, b: Fe, k: nat): int {
    if k == 0 then a[0] * b[0]
    else if k == 1 then a[0] * b[1] + a[1] * b[0]
    else if k == 2 then a[0] * b[2] + a[2] * b[0] + a[1] * b[1]
    else if k == 3 then a[0] * b[3] + a[3] * b[0] + a[1] * b[2] + a[2] * b[1]
    else a[0] * b[4] + a[4] * b[0] + a[3] * b[1] + a[1] * b[3] + a[2] * b[2]
  }

  /** The products of limbs whose indices sum to k + 5. */
  function High(a: Fe, b: Fe, k: nat): int {
    if k == 0 then a[4] * b[1] + a[1] * b[4] + a[2] * b[3] + a[3] * b[2]
    else if k == 1 then a[4] * b[2] + a[2] * b[4] + a[3] * b[3]
    else if k == 2 then a[4] * b[3] + a[3] * b[4]
    else if k == 3 then a[4] * b[4]
    else 0
  }

  /** Column k with the part above 2^255 folded in: 2^255 is 19 modulo p. */
  function Column(a: Fe, b: Fe, k: nat): int {
    Low(a, b, k) + 19 * High(a, b, k)
  }

  /** The number denoted by five columns. */
  function Columns(t0: int, t1: int, t2: int, t3: int, t4: int): int {
    t0 + t1 * R + t2 * R2 + t3 * R3 + t4 * R4
  }

  lemma ProductRow(x: int, b: int, b0: int, b1: int, b2: int, b3: int, b4: int)
    requires b == Columns(b0, b1, b2, b3, b4)
    ensures x * b == b * x == Columns(x * b0, x * b1, x * b2, x * b3, x * b4)
  {
  }

  lemma RowsToColumns(product: int, r0: int, r1: int, r2: int, r3: int, r4: int,
                      p00: int, p01: int, p02: int, p03: int, p04: int, p10: int, p11: int, p12: int, p13: int, p14: int,
                      p20: int, p21: int, p22: int, p23: int, p24: int, p30: int, p31: int, p32: int, p33: int, p34: int,
                      p40: int, p41: int, p42: int, p43: int, p44: int)
    requires r0 == Columns(p00, p01, p02, p03, p04)
    requires r1 == Columns(p10, p11, p12, p13, p14)
    requires r2 == Columns(p20, p21, p22, p23, p24)
    requires r3 == Columns(p30, p31, p32, p33, p34)
    requires r4 == Columns(p40, p41, p42, p43, p44)
    requires product == Columns(r0, r1, r2, r3, r4)
    ensures product
         == Columns(p00, p01 + p10, p02 + p20 + p11, p03 + p30 + p12 + p21, p04 + p40 + p31 + p13 + p22)
            + (19 + PRIME) * Columns(p41 + p14 + p23 + p32, p42 + p24 + p33, p43 + p34, p44, 0)
  {
    assert 19 + PRIME == R4 * R;
  }

  lemma ProductByColumns(a: Fe, b: Fe)
    ensures Value(a) * Value(b)
         == Columns(Low(a, b, 0), Low(a, b, 1), Low(a, b, 2), Low(a, b, 3), Low(a, b, 4))
            + (19 + PRIME) * Columns(High(a, b, 0), High(a, b, 1), High(a, b, 2), High(a, b, 3), High(a, b, 4))
  {
    var x, y := Value(a), Value(b);
    ProductRow(y, x, a[0], a[1], a[2], a[3], a[4]);
    ProductRow(a[0], y, b[0], b[1], b[2], b[3], b[4]);
    ProductRow(a[1], y, b[0], b[1], b[2], b[3], b[4]);
    ProductRow(a[2], y, b[0], b[1], b[2], b[3], b[4]);
    ProductRow(a[3], y, b[0], b[1], b[2], b[3], b[4]);
    ProductRow(a[4], y, b[0], b[1], b[2], b[3], b[4]);
    hide Columns;
    RowsToColumns(x * y, a[0] * y, a[1] * y, a[2] * y, a[3] * y, a[4] * y,
                  a[0] * b[0], a[0] * b[1], a[0] * b[2], a[0] * b[3], a[0] * b[4],
                  a[1] * b[0], a[1] * b[1], a[1] * b[2], a[1] * b[3], a[1] * b[4],
                  a[2] * b[0], a[2] * b[1], a[2] * b[2], a[2] * b[3], a[2] * b[4],
                  a[3] * b[0], a[3] * b[1], a[3] * b[2], a[3] * b[3], a[3] * b[4],
                  a[4] * b[0], a[4] * b[1], a[4] * b[2], a[4] * b[3], a[4] * b[4]);
  }

  /** The folded columns denote the product, modulo p. */
  lemma FoldedProduct(a: Fe, b: Fe)
    ensures Cong(Columns(Column(a, b, 0), Column(a, b, 1), Column(a, b, 2), Column(a, b, 3), Column(a, b, 4)),
                 Value(a) * Value(b))
  {
    ProductByColumns(a, b);
    hide Low, High, Value;
    var low := Columns(Low(a, b, 0), Low(a, b, 1), Low(a, b, 2), Low(a, b, 3), Low(a, b, 4));
    var high := Columns(High(a, b, 0), High(a, b, 1), High(a, b, 2), High(a, b, 3), High(a, b, 4));
    var t := Columns(Column(a, b, 0), Column(a, b, 1), Column(a, b, 2), Column(a, b, 3), Column(a, b, 4));
    assert t == low + 19 * high;
    CongBy(t, Value(a) * Value(b), 0 - high);
  }

  lemma LimbProduct(x: nat, y: nat)
    requires x < LOOSE && y < LOOSE
    ensures 0 <= x * y < P108
  {
    MulStrict(x, LOOSE, y);
    MulStrict(y, LOOSE, LOOSE);
  }

  lemma ColumnBounds(a: Fe, b: Fe)
    requires Below(a, LOOSE) && Below(b, LOOSE)
    ensures 0 <= Column(a, b, 0) < 77 * P108 && 0 <= Column(a, b, 1) < 59 * P108 && 0 <= Column(a, b, 2) < 41 * P108
    ensures 0 <= Column(a, b, 3) < 23 * P108 && 0 <= Column(a, b, 4) < 5 * P108
  {
    forall i, j | 0 <= i < 5 && 0 <= j < 5
      ensures 0 <= a[i] * b[j] < P108
    {
      LimbProduct(a[i], b[j]);
    }
  }

  // ---- one carry chain over 128-bit columns ----

  /** Lines 124-130: the columns become limbs, and what leaves the top comes back in as 19 times itself. */
  method CarryColumns(t0: u128, t1: u128, t2: u128, t3: u128, t4: u128) returns (out: Fe)
    requires t0 < 77 * P108 && t1 < 59 * P108 && t2 < 41 * P108 && t3 < 23 * P108 && t4 < 5 * P108
    ensures Below(out, TIGHT) && out[0] < R && out[1] < R + 0x2000 && out[2] < R && out[3] < R && out[4] < R
    ensures Cong(Value(out), Columns(t0, t1, t2, t3, t4))
  {
    hide Value, Cong, Columns;
    var r0, c0 := CarryStep(t0, 0, 77);
    var r1, c1 := CarryStep(t1, c0, 59);
    var r2, c2 := CarryStep(t2, c1, 41);
    var r3, c3 := CarryStep(t3, c2, 23);
    var r4, c4 := CarryStep(t4, c3, 5);
    var f: u64 := r0 + c4 * 19;
    var c: u64 := f / R;
    r0 := f % R;
    r1 := r1 + c;
    out := [r0, r1, r2, r3, r4];
    ColumnsTelescope(t0, t1, t2, t3, t4, r0, r1, r2, r3, r4, c0, c1, c2, c3, c4, c);
  }

  /** A column and the carry into it, split at 51 bits. */
  method CarryStep(t: u128, c: u64, ghost k: nat) returns (r: u64, c': u64)
    requires t < k * P108 && k <= 77
    ensures r < R && c' < (k + 1) * 0x200_0000_0000_0000 && t + c == r + c' * R
  {
    var u: u128 := t + c;
    r, c' := u % R, u / R;
  }

  lemma ColumnsTelescope(t0: int, t1: int, t2: int, t3: int, t4: int, r0: nat, r1: nat, r2: nat, r3: nat, r4: nat,
                         c0: int, c1: int, c2: int, c3: int, c4: int, c: int)
    requires t0 == r0 + c * R - 19 * c4 + c0 * R
    requires t1 + c0 == r1 - c + c1 * R
    requires t2 + c1 == r2 + c2 * R
    requires t3 + c2 == r3 + c3 * R
    requires t4 + c3 == r4 + c4 * R
    ensures Cong(Value([r0, r1, r2, r3, r4]), Columns(t0, t1, t2, t3, t4))
  {
    assert R4 * R == PRIME + 19;
    CongBy(Value([r0, r1, r2, r3, r4]), Columns(t0, t1, t2, t3, t4), -c4);
  }

  /** The product modulo p of any limbs below 2^54. */
  method Mul(in2: Fe, in1: Fe) returns (out: Fe)
    requires Below(in1, LOOSE) && Below(in2, LOOSE)
    ensures Below(out, TIGHT) && out[0] < R && out[1] < R + 0x2000 && out[2] < R && out[3] < R && out[4] < R
    ensures Cong(Value(out), Value(in2) * Value(in1))
  {
    hide Value, Columns, Cong, Column;
    ColumnBounds(in1, in2);
    FoldedProduct(in1, in2);
    var t0, t1, t2, t3, t4 := MulColumns(in1, in2);
    out := CarryColumns(t0, t1, t2, t3, t4);
    CongTrans(Value(out), Columns(t0, t1, t2, t3, t4), Value(in1) * Value(in2));
  }

  /** Lines 86-123: the five columns, the high products through limbs that are 19 times as large. */
  method MulColumns(r: Fe, s: Fe) returns (t0: u128, t1: u128, t2: u128, t3: u128, t4: u128)
    requires Below(r, LOOSE) && Below(s, LOOSE)
    ensures t0 == Column(r, s, 0) && t1 == Column(r, s, 1) && t2 == Column(r, s, 2) && t3 == Column(r, s, 3)
    ensures t4 == Column(r, s, 4)
  {
    hide Column;
    ColumnBounds(r, s);
    var r0: int, r1: int, r2: int, r3: int, r4: int := r[0], r[1], r[2], r[3], r[4];
    var s0: int, s1: int, s2: int, s3: int, s4: int := s[0], s[1], s[2], s[3], s[4];
    var q1: u64, q2: u64, q3: u64, q4: u64 := r1 * 19, r2 * 19, r3 * 19, r4 * 19;
    Column0(r, s, q1, q2, q3, q4);
    Column123(r, s, q2, q3, q4);
    t0 := r0 * s0 + (q4 * s1 + q1 * s4 + q2 * s3 + q3 * s2);
    t1 := r0 * s1 + r1 * s0 + (q4 * s2 + q2 * s4 + q3 * s3);
    t2 := r0 * s2 + r2 * s0 + r1 * s1 + (q4 * s3 + q3 * s4);
    t3 := r0 * s3 + r3 * s0 + r1 * s2 + r2 * s1 + q4 * s4;
    t4 := r0 * s4 + r4 * s0 + r3 * s1 + r1 * s3 + r2 * s2;
  }

  lemma Column0(r: Fe, s: Fe, q1: int, q2: int, q3: int, q4: int)
    requires q1 == r[1] * 19 && q2 == r[2] * 19 && q3 == r[3] * 19 && q4 == r[4] * 19
    ensures r[0] * s[0] + (q4 * s[1] + q1 * s[4] + q2 * s[3] + q3 * s[2]) == Column(r, s, 0)
    ensures r[0] * s[4] + r[4] * s[0] + r[3] * s[1] + r[1] * s[3] + r[2] * s[2] == Column(r, s, 4)
  {
    Scaled(r[4], s[1]);
    Scaled(r[1], s[4]);
    Scaled(r[2], s[3]);
    Scaled(r[3], s[2]);
  }

  lemma Column123(r: Fe, s: Fe, q2: int, q3: int, q4: int)
    requires q2 == r[2] * 19 && q3 == r[3] * 19 && q4 == r[4] * 19
    ensures r[0] * s[1] + r[1] * s[0] + (q4 * s[2] + q2 * s[4] + q3 * s[3]) == Column(r, s, 1)
    ensures r[0] * s[2] + r[2] * s[0] + r[1] * s[1] + (q4 * s[3] + q3 * s[4]) == Column(r, s, 2)
    ensures r[0] * s[3] + r[3] * s[0] + r[1] * s[2] + r[2] * s[1] + q4 * s[4] == Column(r, s, 3)
  {
    Scaled(r[4], s[2]);
    Scaled(r[2], s[4]);
    Scaled(r[3], s[3]);
    Scaled(r[4], s[3]);
    Scaled(r[3], s[4]);
    Scaled(r[4], s[4]);
  }

  lemma Scaled(x: int, y: int)
    ensures x * 19 * y == 19 * (x * y)
  {
  }

  // ---- squares ----

  /** Lines 205-222: the columns of a square, with the symmetric products taken once. */
  method SquareColumns(r: Fe) returns (t0: u128, t1: u128, t2: u128, t3: u128, t4: u128)
    requires Below(r, LOOSE)
    ensures t0 == Column(r, r, 0) && t1 == Column(r, r, 1) && t2 == Column(r, r, 2) && t3 == Column(r, r, 3)
    ensures t4 == Column(r, r, 4)
  {
    hide Column;
    ColumnBounds(r, r);
    var d0: u64, d1: u64, d2: u64, d419: u64 := r[0] * 2, r[1] * 2, r[2] * 2 * 19, r[4] * 19;
    var d4: u64 := d419 * 2;
    var r319: u64 := r[3] * 19;
    Square01(r, d0, d2, d4, r319);
    Square234(r, d0, d1, d4, d419);
    var r0: int, r1: int, r2: int, r3: int, r4: int := r[0], r[1], r[2], r[3], r[4];
    t0 := r0 * r0 + d4 * r1 + d2 * r3;
    t1 := d0 * r1 + d4 * r2 + r3 * r319;
    t2 := d0 * r2 + r1 * r1 + d4 * r3;
    t3 := d0 * r3 + d1 * r2 + r4 * d419;
    t4 := d0 * r4 + d1 * r3 + r2 * r2;
  }

  lemma Square01(r: Fe, d0: int, d2: int, d4: int, r319: int)
    requires d0 == r[0] * 2 && d2 == r[2] * 2 * 19 && d4 == r[4] * 19 * 2 && r319 == r[3] * 19
    ensures r[0] * r[0] + d4 * r[1] + d2 * r[3] == Column(r, r, 0)
    ensures d0 * r[1] + d4 * r[2] + r[3] * r319 == Column(r, r, 1)
  {
    Multiple(r[4], 38, r[1]);
    Multiple(r[2], 38, r[3]);
    Multiple(r[0], 2, r[1]);
    Multiple(r[4], 38, r[2]);
    Multiple(r[3], 19, r[3]);
  }

  lemma Square234(r: Fe, d0: int, d1: int, d4: int, d419: int)
    requires d0 == r[0] * 2 && d1 == r[1] * 2 && d4 == r[4] * 19 * 2 && d419 == r[4] * 19
    ensures d0 * r[2] + r[1] * r[1] + d4 * r[3] == Column(r, r, 2)
    ensures d0 * r[3] + d1 * r[2] + r[4] * d419 == Column(r, r, 3)
    ensures d0 * r[4] + d1 * r[3] + r[2] * r[2] == Column(r, r, 4)
  {
    Multiple(r[0], 2, r[2]);
    Multiple(r[4], 38, r[3]);
    Multiple(r[0], 2, r[3]);
    Multiple(r[1], 2, r[2]);
    Multiple(r[4], 19, r[4]);
    Multiple(r[0], 2, r[4]);
    Multiple(r[1], 2, r[3]);
  }

  lemma Multiple(x: int, k: int, y: int)
    ensures x * k * y == k * (x * y) == y * (x * k) && x * y == y * x
  {
  }

  method Square(a: Fe) returns (out: Fe)
    requires Below(a, LOOSE)
    ensures Below(out, TIGHT) && out[0] < R && out[1] < R + 0x2000 && out[2] < R && out[3] < R && out[4] < R
    ensures Cong(Value(out), Value(a) * Value(a))
  {
    hide Value, Columns, Cong, Column;
    ColumnBounds(a, a);
    FoldedProduct(a, a);
    var t0, t1, t2, t3, t4 := SquareColumns(a);
    out := CarryColumns(t0, t1, t2, t3, t4);
    CongTrans(Value(out), Columns(t0, t1, t2, t3, t4), Value(a) * Value(a));
  }

  /** `(t << 13) >> 64` in 128 bits: bits 51 to 114 of t. */
  function Shl128High(t: u128): nat {
    t * 0x2000 % (W64 * W64) / W64
  }

  lemma Shl128HighIs(t: u128)
    requires t < R * W64
    ensures Shl128High(t) == t / R
  {
    ModUnique(t * 0x2000, W64 * W64, 0, t * 0x2000);
    var k := t / R;
    assert t == k * R + t % R;
    ModUnique(t * 0x2000, W64, k, t % R * 0x2000);
  }

  /** Lines 173-178: every column gives its low 51 bits and passes the rest up, all at once. */
  method SpreadColumns(t0: u128, t1: u128, t2: u128, t3: u128, t4: u128) returns (u: Fe)
    requires t0 < 77 * P108 && t1 < 59 * P108 && t2 < 41 * P108 && t3 < 23 * P108 && t4 < 5 * P108
    ensures Below(u, W64 - 0x4000)
    ensures Cong(Value(u), Columns(t0, t1, t2, t3, t4))
  {
    hide Shl128High, Value, Cong, Columns;
    Shl128HighIs(t0);
    Shl128HighIs(t1);
    Shl128HighIs(t2);
    Shl128HighIs(t3);
    Shl128HighIs(t4);
    var c0: u64, c1: u64, c2: u64, c3: u64, c4: u64 :=
      Shl128High(t0), Shl128High(t1), Shl128High(t2), Shl128High(t3), Shl128High(t4);
    var r0: u64, r1: u64, r2: u64, r3: u64, r4: u64 :=
      t0 % R + c4 * 19, t1 % R + c0, t2 % R + c1, t3 % R + c2, t4 % R + c3;
    u := [r0, r1, r2, r3, r4];
    SpreadTelescopes(t0, t1, t2, t3, t4, r0, r1, r2, r3, r4, c0, c1, c2, c3, c4);
  }

  lemma SpreadTelescopes(t0: int, t1: int, t2: int, t3: int, t4: int, r0: nat, r1: nat, r2: nat, r3: nat, r4: nat,
                         c0: int, c1: int, c2: int, c3: int, c4: int)
    requires t0 == r0 - 19 * c4 + c0 * R
    requires t1 == r1 - c0 + c1 * R
    requires t2 == r2 - c1 + c2 * R
    requires t3 == r3 - c2 + c3 * R
    requires t4 == r4 - c3 + c4 * R
    ensures Cong(Value([r0, r1, r2, r3, r4]), Columns(t0, t1, t2, t3, t4))
  {
    assert R4 * R == PRIME + 19;
    CongBy(Value([r0, r1, r2, r3, r4]), Columns(t0, t1, t2, t3, t4), -c4);
  }
}
