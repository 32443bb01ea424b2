/**
 Repeated squaring and the two addition chains: z^(2^255 - 21), the inverse by
 Fermat's little theorem, and z^(2^252 - 3), the core of the square root.

 Line numbers are those of src/ed25519-donna/curve25519-donna-64bit.h and src/ed25519-donna/curve25519-donna-helpers.h.
 */
module FieldPow {
  import opened Bits
  import opened Field
  import opened FieldMul

  function Power(z: int, e: nat): int {
    if e == 0 then 1 else z * Power(z, e - 1)
  }

  /** x is z^e modulo p. */
  ghost predicate IsPower(x: int, z: int, e: nat) {
    Cong(x, Power(z, e))
  }

  lemma {:induction false} PowerAdd(z: int, m: nat, n: nat)
    ensures Power(z, m + n) == Power(z, m) * Power(z, n)
  {
    if m != 0 {
      PowerAdd(z, m - 1, n);
      Reassociate(z, Power(z, m - 1), Power(z, n));
    }
  }

  lemma {:induction false} PowerTimes(z: int, m: nat, n: nat)
    ensures 0 <= m * n && Power(z, m * n) == Power(Power(z, m), n)
  {
    if n == 0 {
      assert m * n == 0;
    } else {
      PowerTimes(z, m, n - 1);
      Distribute(n - 1, 1, m);
      PowerAdd(z, m * (n - 1), m);
    }
  }

  lemma {:induction false} PowerCong(x: int, y: int, n: nat)
    requires Cong(x, y)
    ensures Cong(Power(x, n), Power(y, n))
  {
    hide Cong;
    if n == 0 {
      CongRefl(1);
    } else {
      PowerCong(x, y, n - 1);
      CongMul(x, y, Power(x, n - 1), Power(y, n - 1));
    }
  }

  lemma FirstPower(z: int)
    ensures IsPower(z, z, 1)
  {
    assert Power(z, 1) == z * Power(z, 0);
    CongRefl(z);
  }

  /** The product of two powers. */
  lemma ProductOfPowers(w: int, x: int, y: int, z: int, m: nat, n: nat)
    requires IsPower(x, z, m) && IsPower(y, z, n) && Cong(w, x * y)
    ensures IsPower(w, z, m + n)
  {
    hide Cong;
    PowerAdd(z, m, n);
    CongMul(x, Power(z, m), y, Power(z, n));
    CongTrans(w, x * y, Power(z, m) * Power(z, n));
  }

  /** A power of a power. */
  lemma PowerOfPower(y: int, x: int, z: int, m: nat, n: nat)
    requires IsPower(x, z, m) && IsPower(y, x, n)
    ensures 0 <= m * n && IsPower(y, z, m * n)
  {
    hide Cong;
    PowerTimes(z, m, n);
    PowerCong(x, Power(z, m), n);
    CongTrans(y, Power(x, n), Power(Power(z, m), n));
  }

  /** in^(2^count), for every count from 1 up. */
  method SquareTimes(a: Fe, count: nat) returns (out: Fe)
    requires Below(a, LOOSE) && count >= 1
    ensures Below(out, TIGHT) && IsPower(Value(out), Value(a), Pow2(count))
  {
    hide Value, Columns, Cong, Column, Power;
    var r := a;
    FirstPower(Value(a));
    ghost var i: nat := 0;
    var left := count;
    while left > 0
      invariant 0 <= left && i + left == count && Below(r, LOOSE) && (i > 0 ==> Below(r, TIGHT))
      invariant IsPower(Value(r), Value(a), Pow2(i))
    {
      ghost var x := Value(r);
      r := SquareStep(r);
      ProductOfPowers(Value(r), x, x, Value(a), Pow2(i), Pow2(i));
      i := i + 1;
      left := left - 1;
    }
    out := r;
  }

  /** Lines 155-184: one squaring, with its own carries. */
  method SquareStep(r: Fe) returns (out: Fe)
    requires Below(r, LOOSE)
    ensures Below(out, TIGHT) && Cong(Value(out), Value(r) * Value(r))
  {
    hide Value, Columns, Cong, Column;
    ColumnBounds(r, r);
    FoldedProduct(r, r);
    var t0, t1, t2, t3, t4 := SquareColumns(r);
    var u := SpreadColumns(t0, t1, t2, t3, t4);
    out := CarryFold(u);
    CongTrans(Value(out), Value(u), Columns(t0, t1, t2, t3, t4));
    CongTrans(Value(out), Columns(t0, t1, t2, t3, t4), Value(r) * Value(r));
  }

  // ---- the chains ----

  /** Squaring n times multiplies the exponent by 2^n. */
  method SquareTimesPower(a: Fe, count: nat, ghost z: int, ghost e: nat) returns (out: Fe)
    requires Below(a, LOOSE) && count >= 1 && IsPower(Value(a), z, e)
    ensures Below(out, TIGHT) && 0 <= e * Pow2(count) && IsPower(Value(out), z, e * Pow2(count))
  {
    hide Value, IsPower, Pow2;
    out := SquareTimes(a, count);
    PowerOfPower(Value(out), Value(a), z, e, Pow2(count));
  }

  method MulPower(a: Fe, b: Fe, ghost z: int, ghost m: nat, ghost n: nat) returns (out: Fe)
    requires Below(a, LOOSE) && Below(b, LOOSE) && IsPower(Value(a), z, m) && IsPower(Value(b), z, n)
    ensures Below(out, TIGHT) && IsPower(Value(out), z, m + n)
  {
    hide Value, IsPower;
    out := Mul(a, b);
    ProductOfPowers(Value(out), Value(a), Value(b), z, m, n);
  }

  /** (2^m - 1)·2^n + (2^n - 1) == 2^(m+n) - 1 */
  lemma Mersenne(m: nat, n: nat)
    ensures (Pow2(m) - 1) * Pow2(n) + (Pow2(n) - 1) == Pow2(m + n) - 1
  {
    hide Pow2;
    Pow2Add(m, n);
    MulDifference(Pow2(m), 1, Pow2(n));
  }

  /** From z^(2^m - 1) and z^(2^n - 1) to z^(2^(m+n) - 1): n squarings and a product. */
  method MersenneStep(x: Fe, y: Fe, ghost z: int, ghost m: nat, n: nat) returns (out: Fe)
    requires n >= 1 && Below(x, TIGHT) && Below(y, TIGHT)
    requires IsPower(Value(x), z, Pow2(m) - 1) && IsPower(Value(y), z, Pow2(n) - 1)
    ensures Below(out, TIGHT) && IsPower(Value(out), z, Pow2(m + n) - 1)
  {
    hide Value, IsPower, Pow2;
    var t0 := SquareTimesPower(x, n, z, Pow2(m) - 1);
    Mersenne(m, n);
    out := MulPower(t0, y, z, (Pow2(m) - 1) * Pow2(n), Pow2(n) - 1);
  }

  /** Lines 2-18: from z^(2^5 - 1) to z^(2^250 - 1). */
  method PowTwo5ToTwo250(b0: Fe, ghost z: int) returns (b: Fe)
    requires Below(b0, TIGHT) && IsPower(Value(b0), z, Pow2(5) - 1)
    ensures Below(b, TIGHT) && IsPower(Value(b), z, Pow2(250) - 1)
  {
    hide Value, IsPower, Pow2;
    b := MersenneStep(b0, b0, z, 5, 5);
    var c := MersenneStep(b, b, z, 10, 10);
    var t0 := MersenneStep(c, c, z, 20, 20);
    b := MersenneStep(t0, b, z, 40, 10);
    c := MersenneStep(b, b, z, 50, 50);
    t0 := MersenneStep(c, c, z, 100, 100);
    b := MersenneStep(t0, b, z, 200, 50);
  }

  /** The common start of both chains: z^11 and z^31. */
  method Eleven(z: Fe) returns (z11: Fe, z31: Fe)
    requires Below(z, LOOSE)
    ensures Below(z11, TIGHT) && IsPower(Value(z11), Value(z), 11)
    ensures Below(z31, TIGHT) && IsPower(Value(z31), Value(z), Pow2(5) - 1)
  {
    hide Value, IsPower;
    assert Pow2(1) == 2 && Pow2(2) == 4 && Pow2(5) == 32;
    ghost var v := Value(z);
    FirstPower(v);
    var a := SquareTimesPower(z, 1, v, 1);
    var t0 := SquareTimesPower(a, 2, v, 2);
    var b := MulPower(t0, z, v, 8, 1);
    z11 := MulPower(b, a, v, 9, 2);
    t0 := SquareTimesPower(z11, 1, v, 11);
    z31 := MulPower(t0, b, v, 22, 9);
  }

  /** z^(2^255 - 21), which is z^(p - 2). */
  method Recip(z: Fe) returns (out: Fe)
    requires Below(z, LOOSE)
    ensures Below(out, TIGHT) && Pow2(255) - 21 == PRIME - 2 && IsPower(Value(out), Value(z), Pow2(255) - 21)
  {
    hide Value, IsPower, Pow2;
    ghost var v := Value(z);
    var a, b := Eleven(z);
    b := PowTwo5ToTwo250(b, v);
    b := SquareTimesPower(b, 5, v, Pow2(250) - 1);
    Exponents();
    out := MulPower(b, a, v, (Pow2(250) - 1) * Pow2(5), 11);
  }

  /** z^(2^252 - 3). */
  method PowTwo252m3(z: Fe) returns (out: Fe)
    requires Below(z, LOOSE)
    ensures Below(out, TIGHT) && IsPower(Value(out), Value(z), Pow2(252) - 3)
  {
    hide Value, IsPower, Pow2;
    ghost var v := Value(z);
    FirstPower(v);
    var c, b := Eleven(z);
    b := PowTwo5ToTwo250(b, v);
    b := SquareTimesPower(b, 2, v, Pow2(250) - 1);
    Exponents();
    out := MulPower(b, z, v, (Pow2(250) - 1) * Pow2(2), 1);
  }

  lemma Exponents()
    ensures (Pow2(250) - 1) * Pow2(5) + 11 == Pow2(255) - 21 == PRIME - 2
    ensures (Pow2(250) - 1) * Pow2(2) + 1 == Pow2(252) - 3
  {
    assert Pow2(5) == 32 && Pow2(2) == 4;
    hide Pow2;
    Pow2Add(250, 5);
    Pow2Add(250, 2);
    Pow2Values();
    Pow2Add(64, 64);
    Pow2Add(128, 64);
    Pow2Add(192, 56);
    Pow2Add(248, 2);
  }
}
