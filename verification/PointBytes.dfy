/**
 Points in 32 bytes: y in the low 255 bits, the parity of x in the top bit. Unpacking
 gives the negated point.

 Line numbers are those of src/ed25519-donna/ed25519-donna-impl-base.h.
 */
module PointBytes {
  import opened Bits
  import opened Bytes
  import opened Field
  import opened FieldMul
  import opened FieldPow
  import opened FieldBytes
  import opened Points
  import opened PointLaws

  // ---- packing ----

  /** The encoding of y with the parity of x. */
  function Encoding(x: int, y: int): nat {
    y % PRIME + TWO255 * (x % PRIME % 2)
  }

  method Pack(p: Extended) returns (r: seq<byte>)
    requires TightXYZ(p)
    ensures var inverse := Power(Value(p.z), Pow2(255) - 21);
            |r| == 32 && LE(r) == Encoding(Value(p.x) * inverse, Value(p.y) * inverse)
  {
    hide Value, Cong, Power, LE, ToLE, Pow2;
    var zi := Recip(p.z);
    ghost var inverse := Power(Value(p.z), Pow2(255) - 21);
    var tx := Mul(p.x, zi);
    var ty := Mul(p.y, zi);
    CongRefl(Value(p.x));
    CongRefl(Value(p.y));
    ThenMul(Value(tx), Value(p.x), Value(p.x), Value(zi), inverse);
    ThenMul(Value(ty), Value(p.y), Value(p.y), Value(zi), inverse);
    SameResidue(Value(tx), Value(p.x) * inverse);
    SameResidue(Value(ty), Value(p.y) * inverse);
    r := Contract(ty);
    var parity := Contract(tx);
    r := SetSign(r, parity);
  }

  /** r[31] ^= (parity[0] & 1) << 7 */
  method SetSign(b: seq<byte>, parity: seq<byte>) returns (r: seq<byte>)
    requires |b| == 32 && |parity| == 32 && LE(b) < TWO255
    ensures |r| == 32 && LE(r) == LE(b) + TWO255 * (LE(parity) % 2)
  {
    hide And, Xor;
    var bit := And(parity[0], 1);
    LowestBit(parity);
    TopByteLow(b);
    assert Pow2(7) == 128;
    XorDisjoint(b[31], bit, 7);
    hide Pow2;
    var top := Xor(b[31], bit * 128);
    r := b[31 := top];
    ReplaceTop(b, top);
    Pow248Is();
  }

  lemma LowestBit(b: seq<byte>)
    requires |b| >= 1
    ensures And(b[0], 1) == LE(b) % 2 == b[0] % 2
  {
    assert Pow2(1) == 2;
    AndMask(b[0], 1);
  }

  lemma Pow248Is()
    ensures 128 * Pow2(248) == TWO255
  {
    hide Pow2;
    Pow2Values();
    Pow2Add(64, 64);
    Pow2Add(128, 64);
    Pow2Add(192, 56);
  }

  lemma TopByteLow(b: seq<byte>)
    requires |b| == 32 && LE(b) < TWO255
    ensures b[31] < 128
  {
    hide LE, Pow2;
    TopByte(b);
    Pow248Is();
  }

  lemma ReplaceTop(b: seq<byte>, top: byte)
    requires |b| == 32
    ensures LE(b[31 := top]) == LE(b) + (top - b[31]) * Pow2(248)
  {
    hide Pow2;
    var c := b[31 := top];
    LEConcat(b[..31], b[31..]);
    LEConcat(c[..31], c[31..]);
    assert b == b[..31] + b[31..] && c == c[..31] + c[31..] && c[..31] == b[..31];
    assert b[31..][1..] == [] && c[31..][1..] == [];
    assert LE(b[31..]) == b[31] && LE(c[31..]) == top;
    MulDifference(top, b[31], Pow2(248));
  }

  /** Where the power is an inverse of Z, the bytes depend on the affine point alone. */
  lemma PackedIsThePoint(p: Coords, inverse: int, x: int, y: int)
    requires Affine(p, x, y) && Cong(p.z * inverse, 1)
    ensures Encoding(p.x * inverse, p.y * inverse) == Encoding(x, y)
  {
    hide Cong;
    Unscale(p.x, p.z, inverse, x);
    Unscale(p.y, p.z, inverse, y);
    SameResidue(p.x * inverse, x);
    SameResidue(p.y * inverse, y);
  }

  lemma Unscale(a: int, z: int, inverse: int, x: int)
    requires Cong(a, x * z) && Cong(z * inverse, 1)
    ensures Cong(a * inverse, x)
  {
    hide Cong;
    CongRefl(inverse);
    CongRefl(x);
    CongMul(a, x * z, inverse, inverse);
    Reassociate(x, z, inverse);
    CongMul(x, x, z * inverse, 1);
    CongTrans(a * inverse, x * (z * inverse), x);
  }

  // ---- unpacking ----

  const SQRTNEG1: Fe := [0x0006_1b27_4a0e_a0b0, 0x0000_d5a5_fc8f_189d, 0x0007_ef5e_9cbd_0c60, 0x0007_8595_a680_4c9e, 0x0002_b832_4804_fc1d]
  const ONE: Fe := [1, 0, 0, 0, 0]

  lemma RootOfMinusOne()
    ensures Below(SQRTNEG1, R) && Cong(Value(SQRTNEG1) * Value(SQRTNEG1), -1)
  {
    CongBy(Value(SQRTNEG1) * Value(SQRTNEG1), -1, 0xeca_a2e2_f6a2_302c_cedb_31ac_0572_0688_238c_ed20_78f3_eb0e_c9f2_2e8f_6219_72e5);
  }

  lemma OneIs()
    ensures Below(ONE, 2) && Value(ONE) == 1
  {
  }

  /** The numerator and denominator of x^2. */
  function Num(y: int): int { y * y - 1 }

  ghost function Den(y: int): int { (y * y) * D() + 1 }

  /** The square root that is tried first: (num den^7)^(2^252 - 3) den^3 num. */
  function Candidate(num: int, den: int): int {
    var den3 := (den * den) * den;
    (Power(((den3 * den3) * den) * num, Pow2(252) - 3) * den3) * num
  }

  method NumDen(y: Fe) returns (num: Fe, den: Fe)
    requires Below(y, R)
    ensures Below(num, TIGHT) && Cong(Value(num), Num(Value(y)))
    ensures Below(den, TIGHT + 2) && Cong(Value(den), Den(Value(y)))
  {
    hide Value, Cong, D;
    OneIs();
    CongRefl(1);
    var yy := Square(y);
    num := SubReduce(yy, ONE);
    ThenSub(Value(num), Value(yy), Value(y) * Value(y), 1, 1);
    var dy := TimesD(yy, Value(y) * Value(y));
    den := Add(dy, ONE, TIGHT, 2);
    CongRefl(Value(den));
    ThenAdd(Value(den), Value(dy), (Value(y) * Value(y)) * D(), 1, 1);
  }

  method TimesD(a: Fe, ghost v: int) returns (out: Fe)
    requires Below(a, TIGHT) && Cong(Value(a), v)
    ensures Below(out, TIGHT) && Cong(Value(out), v * D())
  {
    hide Value, Cong, D;
    CurveConstants();
    CongRefl(D());
    out := Mul(a, ECD);
    ThenMul(Value(out), Value(a), v, Value(ECD), D());
  }

  method FirstRoot(num: Fe, den: Fe, ghost n: int, ghost d: int) returns (x: Fe)
    requires Below(num, TIGHT) && Cong(Value(num), n)
    requires Below(den, TIGHT + 2) && Cong(Value(den), d)
    ensures Below(x, TIGHT) && Cong(Value(x), Candidate(n, d))
  {
    hide Value, Cong, Power, Pow2;
    var t := Square(den);
    ThenMul(Value(t), Value(den), d, Value(den), d);
    var d3 := Mul(t, den);
    ThenMul(Value(d3), Value(t), d * d, Value(den), d);
    ghost var den3 := (d * d) * d;
    var sq := Square(d3);
    ThenMul(Value(sq), Value(d3), den3, Value(d3), den3);
    var seven := Mul(sq, den);
    ThenMul(Value(seven), Value(sq), den3 * den3, Value(den), d);
    var base := Mul(seven, num);
    ThenMul(Value(base), Value(seven), (den3 * den3) * d, Value(num), n);
    var root := PowTwo252m3(base);
    assert Pow2(252) >= 4 by {
      LargePower(252);
    }
    x := FinishRoot(root, Value(base), d3, num, Pow2(252) - 3, ((den3 * den3) * d) * n, den3, n);
  }

  method FinishRoot(root: Fe, ghost base: int, d3: Fe, num: Fe, ghost e: nat, ghost vb: int, ghost vd: int, ghost n: int) returns (x: Fe)
    requires Below(root, TIGHT) && Below(d3, TIGHT) && Below(num, TIGHT)
    requires IsPower(Value(root), base, e) && Cong(base, vb)
    requires Cong(Value(d3), vd) && Cong(Value(num), n)
    ensures Below(x, TIGHT) && Cong(Value(x), (Power(vb, e) * vd) * n)
  {
    hide Value, Cong, Power;
    PowerCong(base, vb, e);
    CongTrans(Value(root), Power(base, e), Power(vb, e));
    x := Mul(root, d3);
    ThenMul(Value(x), Value(root), Power(vb, e), Value(d3), vd);
    ghost var was := Value(x);
    x := Mul(x, num);
    ThenMul(Value(x), was, Power(vb, e) * vd, Value(num), n);
  }

  /** An element is zero exactly when its bytes are. */
  method IsZeroElement(a: Fe) returns (zero: bool)
    requires Below(a, LOOSE)
    ensures zero <==> Cong(Value(a), 0)
  {
    hide Value, LE, ToLE;
    var check := Contract(a);
    zero := check == Zeros(32);
    ZerosAreZero(32);
    ToLEUnique(Zeros(32));
    ModUnique(0, PRIME, 0, 0);
    if zero {
      CongFromResidues(Value(a), 0);
    } else if Cong(Value(a), 0) {
      SameResidue(Value(a), 0);
    }
  }

  /** The neutral element is x == 0 and y == z. */
  method IsNeutral(p: Extended) returns (neutral: bool)
    requires TightXYZ(p)
    ensures neutral <==> Cong(Value(p.x), 0) && Cong(Value(p.y), Value(p.z))
  {
    hide Value, Cong, LE, ToLE;
    var zero := IsZeroElement(p.x);
    var y := Contract(p.y);
    var z := Contract(p.z);
    neutral := zero && y == z;
    if Cong(Value(p.y), Value(p.z)) {
      SameResidue(Value(p.y), Value(p.z));
    } else if Value(p.y) % PRIME == Value(p.z) % PRIME {
      CongFromResidues(Value(p.y), Value(p.z));
    }
  }

  lemma CongFromResidues(a: int, b: int)
    requires a % PRIME == b % PRIME
    ensures Cong(a, b)
  {
    hide Cong;
    ResidueCong(a);
    ResidueCong(b);
    CongSym(a % PRIME, a);
    CongTrans(a, a % PRIME, b);
  }

  lemma ZeroDifference(r: int, a: int, b: int)
    requires Cong(r, a - b)
    ensures Cong(r, 0) <==> Cong(a, b)
  {
    var k := CongQuotient(r, a - b);
    if Cong(r, 0) {
      var j := CongQuotient(r, 0);
      CongBy(a, b, j - k);
    }
    if Cong(a, b) {
      var j := CongQuotient(a, b);
      CongBy(r, 0, j + k);
    }
  }

  /** Lines 179-189: the candidate, its product with the root of -1, or nothing. */
  method FixRoot(x0: Fe, num: Fe, den: Fe, ghost n: int, ghost d: int) returns (ok: bool, x: Fe)
    requires Below(x0, TIGHT)
    requires Below(num, TIGHT) && Cong(Value(num), n)
    requires Below(den, TIGHT + 2) && Cong(Value(den), d)
    ensures Below(x, TIGHT)
    ensures ok <==> Cong((Value(x0) * Value(x0)) * d, n) || Cong((Value(x0) * Value(x0)) * d, 0 - n)
    ensures ok ==> Cong((Value(x) * Value(x)) * d, n)
    ensures Cong(Value(x0), 0) ==> Cong(Value(x), 0)
  {
    hide Value, Cong;
    ghost var v := (Value(x0) * Value(x0)) * d;
    var s := Square(x0);
    var t := Mul(s, den);
    ThenMul(Value(t), Value(s), Value(x0) * Value(x0), Value(den), d);
    x := x0;
    var root := SubReduce(t, num);
    ThenSub(Value(root), Value(t), v, Value(num), n);
    ZeroDifference(Value(root), v, n);
    ok := IsZeroElement(root);
    if !ok {
      var u := AddReduce(t, num);
      ThenAdd(Value(u), Value(t), v, Value(num), n);
      ZeroDifference(Value(u), v, 0 - n);
      ok := IsZeroElement(u);
      if ok {
        RootOfMinusOne();
        x := Mul(x0, SQRTNEG1);
        OtherRoot(Value(x), Value(x0), Value(SQRTNEG1), d, n);
        if Cong(Value(x0), 0) {
          CongRefl(Value(SQRTNEG1));
          ThenMul(Value(x), Value(x0), 0, Value(SQRTNEG1), Value(SQRTNEG1));
        }
      }
    }
  }

  lemma OtherRoot(x: int, x0: int, i: int, d: int, n: int)
    requires Cong(x, x0 * i) && Cong(i * i, -1) && Cong((x0 * x0) * d, 0 - n)
    ensures Cong((x * x) * d, n)
  {
    hide Cong;
    CongMul(x, x0 * i, x, x0 * i);
    CongRefl(d);
    CongMul(x * x, (x0 * i) * (x0 * i), d, d);
    assert ((x0 * i) * (x0 * i)) * d == ((x0 * x0) * d) * (i * i);
    CongMul((x0 * x0) * d, 0 - n, i * i, -1);
    CongTrans((x * x) * d, ((x0 * x0) * d) * (i * i), (0 - n) * -1);
  }

  /** Lines 190-194: the root whose parity is not the sign bit. */
  method NegateToSign(x0: Fe, parity: nat) returns (x: Fe)
    requires Below(x0, TIGHT) && parity < 2
    ensures Below(x, TIGHT) && (Cong(Value(x), Value(x0)) || Cong(Value(x), 0 - Value(x0)))
    ensures Value(x) % PRIME != 0 ==> Value(x) % PRIME % 2 != parity
  {
    hide Value, Cong, LE, ToLE, And;
    var check := Contract(x0);
    LowestBit(check);
    x := x0;
    CongRefl(Value(x));
    if And(check[0], 1) == parity {
      x := Neg(x0);
      ParityFlips(Value(x), Value(x0));
    }
  }

  lemma ParityFlips(x: int, x0: int)
    requires Cong(x, 0 - x0)
    ensures x % PRIME != 0 ==> x % PRIME % 2 != x0 % PRIME % 2
  {
    var k := CongQuotient(x, 0 - x0);
    var j := x0 / PRIME;
    assert x0 == j * PRIME + x0 % PRIME;
    if x0 % PRIME == 0 {
      ModUnique(x, PRIME, k - j, 0);
    } else {
      ModUnique(x, PRIME, k - j - 1, PRIME - x0 % PRIME);
    }
  }

  /**
   With n = y^2 - 1 and d' = d y^2 + 1, the number n (n d'^7)^((p - 1) / 4) is n or its
   negation; behind a mark, as congruence is.
   */
  ghost predicate Solvable(y: int) {
    forall m: bool {:trigger At(m, y, y)} :: At(m, y, y) ==>
      var n := y * y - 1;
      var t := n * Power(n * Power((y * y) * D() + 1, 7), (PRIME - 1) / 4);
      Cong(t, n) || Cong(t, 0 - n)
  }

  lemma QuarterExponent()
    ensures Pow2(252) >= 3 && 2 * (Pow2(252) - 3) + 1 == (PRIME - 1) / 4
  {
    hide Pow2;
    Pow248Is();
    Pow2Add(248, 4);
    Pow2Small();
    LargePower(252);
  }

  lemma SevenTimes(d: int)
    ensures Power(d, 7) == (((d * d) * d) * ((d * d) * d)) * d
  {
    hide Power;
    assert Power(d, 1) == d by {
      OnePower(d);
    }
    PowerAdd(d, 1, 1);
    PowerAdd(d, 2, 1);
    PowerAdd(d, 3, 3);
    PowerAdd(d, 6, 1);
  }

  lemma OnePower(d: int)
    ensures Power(d, 1) == d
  {
    assert Power(d, 1) == d * Power(d, 0);
  }

  /** The square of the candidate times the denominator, without the candidate. */
  lemma CandidateSquared(n: int, d: int)
    ensures var c := Candidate(n, d); (c * c) * d == n * Power(n * Power(d, 7), (PRIME - 1) / 4)
  {
    hide Power, Pow2;
    QuarterExponent();
    SevenTimes(d);
    var e := Pow2(252) - 3;
    var d3 := (d * d) * d;
    var z := ((d3 * d3) * d) * n;
    var w := Power(z, e);
    PowerAdd(z, e, e);
    PowerAdd(z, e + e, 1);
    OnePower(z);
    SquareOut(w, d3, n, d);
  }

  lemma SquareOut(w: int, d3: int, n: int, d: int)
    ensures (((w * d3) * n) * ((w * d3) * n)) * d == n * ((w * w) * (((d3 * d3) * d) * n))
  {
  }

  /** The test on the candidate. */
  lemma SolvableIs(y: int, c: int)
    requires c == Candidate(Num(y), Den(y))
    ensures Solvable(y) <==> Cong((c * c) * Den(y), Num(y)) || Cong((c * c) * Den(y), 0 - Num(y))
  {
    hide Cong, Power, Candidate, D;
    CandidateSquared(Num(y), Den(y));
    assert At(true, y, y);
  }

  // ---- squares are accepted ----

  /** One modulo p has no square roots but 1 and -1, which follows if p is prime. */
  ghost predicate TwoRootsOfOne() {
    forall m: bool, w: int {:trigger At(m, w, w)} :: At(m, w, w) && Cong(w * w, 1) ==> Cong(w, 1) || Cong(w, -1)
  }

  /** Fermat's little theorem at a. */
  ghost predicate FermatAt(a: int) {
    Cong(Power(a, PRIME - 1), 1)
  }

  /** Whenever some x satisfies the curve equation with y, the bytes of y are accepted. */
  lemma SquaresAreAccepted(x: int, y: int)
    requires Cong((x * x) * Den(y), Num(y)) && TwoRootsOfOne() && FermatAt(x * Power(Den(y), 4))
    ensures Solvable(y)
  {
    hide Cong, Power, D;
    var n, d := Num(y), Den(y);
    var a := x * Power(d, 4);
    var z := n * Power(d, 7);
    var w := Power(a, (PRIME - 1) / 2);
    IsFourthRoot(x, n, d);
    HalfPower(a, z, w);
    HalfSquared(a);
    assert At(true, w, w);
    var q := Power(z, (PRIME - 1) / 4);
    CongRefl(n);
    if Cong(w, 1) {
      CongTrans(q, w, 1);
      CongMul(n, n, q, 1);
    } else {
      CongTrans(q, w, -1);
      CongMul(n, n, q, -1);
    }
  }

  /** n d^7 is the square of x d^4. */
  lemma IsFourthRoot(x: int, n: int, d: int)
    requires Cong((x * x) * d, n)
    ensures Cong(n * Power(d, 7), (x * Power(d, 4)) * (x * Power(d, 4)))
  {
    hide Cong, Power;
    var s, f := Power(d, 7), Power(d, 4);
    CongRefl(s);
    CongSym((x * x) * d, n);
    CongMul(n, (x * x) * d, s, s);
    OnePower(d);
    PowerAdd(d, 1, 7);
    PowerAdd(d, 4, 4);
    assert ((x * x) * d) * s == (x * x) * (d * s) by {
      Reassociate(x * x, d, s);
    }
    assert (x * x) * (f * f) == (x * f) * (x * f);
  }

  lemma HalfPower(a: int, z: int, w: int)
    requires Cong(z, a * a) && w == Power(a, (PRIME - 1) / 2)
    ensures Cong(Power(z, (PRIME - 1) / 4), w)
  {
    hide Cong, Power;
    var e: nat := (PRIME - 1) / 4;
    PowerCong(z, a * a, e);
    OnePower(a);
    PowerAdd(a, 1, 1);
    PowerTimes(a, 2, e);
    assert 2 * e == (PRIME - 1) / 2;
  }

  lemma HalfSquared(a: int)
    requires FermatAt(a)
    ensures var w := Power(a, (PRIME - 1) / 2); Cong(w * w, 1)
  {
    hide Cong, Power;
    var e: nat := (PRIME - 1) / 2;
    PowerAdd(a, e, e);
    assert e + e == PRIME - 1;
  }

  /** Two consequences of p being prime. */
  ghost predicate NoZeroDivisors() {
    forall m: bool, u: int, v: int {:trigger At(m, u, v)} :: At(m, u, v) && Cong(u * v, 0) ==> Cong(u, 0) || Cong(v, 0)
  }

  ghost predicate Fermat() {
    forall m: bool, a: int {:trigger At(m, a, a)} :: At(m, a, a) && !Cong(a, 0) ==> FermatAt(a)
  }

  lemma ZeroFactor(u: int, v: int)
    requires NoZeroDivisors() && Cong(u * v, 0)
    ensures Cong(u, 0) || Cong(v, 0)
  {
    hide Cong;
    assert At(true, u, v);
  }

  lemma RootsOfOne()
    requires NoZeroDivisors()
    ensures TwoRootsOfOne()
  {
    hide Cong, NoZeroDivisors;
    forall m: bool, w: int | At(m, w, w) && Cong(w * w, 1) ensures Cong(w, 1) || Cong(w, -1) {
      CongRefl(1);
      CongAdd(w * w, 1, 1, 1);
      assert w * w - 1 == (w - 1) * (w + 1);
      ZeroFactor(w - 1, w + 1);
      if Cong(w - 1, 0) {
        CongAdd(w - 1, 0, 1, 1);
      } else {
        CongAdd(w + 1, 0, 1, 1);
      }
    }
  }

  ghost predicate OnCurveWith(x: int, y: int) {
    Cong((x * x) * Den(y), Num(y))
  }

  /** If p is prime, y is accepted if and only if it is that of a point of the curve. */
  lemma AcceptedIffOnCurve(y: int)
    requires NoZeroDivisors() && Fermat()
    ensures Solvable(y) <==> exists x :: OnCurveWith(x, y)
  {
    hide Cong, NoZeroDivisors, Solvable, Fermat, Candidate, Den;
    if Solvable(y) {
      var x := RootOf(y);
      assert OnCurveWith(x, y);
    } else if exists x :: OnCurveWith(x, y) {
      var x :| OnCurveWith(x, y);
      OnCurveIsAccepted(x, y);
      assert false;
    }
  }

  lemma RootOf(y: int) returns (x: int)
    requires Solvable(y)
    ensures OnCurveWith(x, y)
  {
    hide Cong, Solvable, Candidate, Den;
    x := Candidate(Num(y), Den(y));
    SolvableIs(y, x);
    if !Cong((x * x) * Den(y), Num(y)) {
      var i := Value(SQRTNEG1);
      RootOfMinusOne();
      CongRefl(x * i);
      OtherRoot(x * i, x, i, Den(y), Num(y));
      x := x * i;
    }
  }

  lemma OnCurveIsAccepted(x: int, y: int)
    requires NoZeroDivisors() && Fermat() && OnCurveWith(x, y)
    ensures Solvable(y)
  {
    hide Cong, NoZeroDivisors, Solvable, TwoRootsOfOne, FermatAt, Den, Power;
    var d := Den(y);
    var a := x * Power(d, 4);
    if Cong(a, 0) {
      ZeroFactor(x, Power(d, 4));
      CongRefl(x);
      CongRefl(d);
      if Cong(x, 0) {
        CongMul(x, 0, x, x);
        CongMul(x * x, 0, d, d);
      } else {
        FourthPowerZero(d);
        CongRefl(x * x);
        CongMul(x * x, x * x, d, 0);
      }
      CongSym((x * x) * d, Num(y));
      CongTrans(Num(y), (x * x) * d, 0);
      var k := CongQuotient(Num(y), 0);
      RootOfZero(y, k);
    } else {
      assert At(true, a, a);
      RootsOfOne();
      SquaresAreAccepted(x, y);
    }
  }

  lemma FourthPowerZero(d: int)
    requires NoZeroDivisors() && Cong(Power(d, 4), 0)
    ensures Cong(d, 0)
  {
    hide Cong, NoZeroDivisors, Power;
    OnePower(d);
    PowerAdd(d, 1, 1);
    PowerAdd(d, 2, 2);
    ZeroFactor(d * d, d * d);
    ZeroFactor(d, d);
  }

  /**
   When the bytes are accepted, the result is the point with their y whose x has not
   the parity of their sign bit, and it is on the curve. Which y are accepted does not
   depend on the sign bit.
   */
  method UnpackNegative(b: seq<byte>) returns (ok: bool, r: Extended)
    requires |b| == 32
    ensures ok <==> Solvable(LE(b) % TWO255)
    ensures ok ==> Tight(r) && Value(r.y) == LE(b) % TWO255 && Value(r.z) == 1
    ensures ok ==> Affine(Of(r), Value(r.x), Value(r.y)) && OnAffine(D(), Value(r.x), Value(r.y)) && OnCurve(D(), Of(r))
    ensures ok && Value(r.x) % PRIME != 0 ==> Value(r.x) % PRIME % 2 != b[31] / 128
    ensures ok ==> (Value(r.x) % PRIME == 0 <==> ZeroX(LE(b) % TWO255))
  {
    hide Value, Cong, LE, Num, Den, Candidate, D, Solvable;
    var parity := b[31] / 128;
    var y := Expand(b);
    ghost var n, d := Num(Value(y)), Den(Value(y));
    var num, den := NumDen(y);
    var x := FirstRoot(num, den, n, d);
    ghost var c := Value(x);
    CandidateSquares(c, Candidate(n, d), d, n);
    SolvableIs(Value(y), Candidate(n, d));
    ok, x := FixRoot(x, num, den, n, d);
    if !ok {
      r := Extended(x, y, ONE, ONE);
      return;
    }
    ghost var x1 := Value(x);
    x := NegateToSign(x, parity);
    SquareOfEither(Value(x), x1, d, n);
    ZeroXIs(Value(x), x1, c, Value(y));
    var t := Mul(x, y);
    OneIs();
    r := Extended(x, y, ONE, t);
    UnpackedOnCurve(Of(r));
  }

  /** The two y at which x is zero, as a caller can tell. */
  predicate ZeroX(y: int) {
    y * y % PRIME == 1
  }

  /** x is zero exactly where y^2 is 1: there the candidate is zero, and elsewhere the equation has no such root. */
  lemma ZeroXIs(x: int, x1: int, c: int, y: int)
    requires Cong(c, Candidate(Num(y), Den(y))) && (Cong(c, 0) ==> Cong(x1, 0))
    requires Cong(x, x1) || Cong(x, 0 - x1)
    requires Cong((x * x) * Den(y), Num(y))
    ensures x % PRIME == 0 <==> ZeroX(y)
  {
    hide Cong, Candidate, Den;
    ModUnique(0, PRIME, 0, 0);
    ModUnique(1, PRIME, 0, 1);
    if ZeroX(y) {
      CongFromResidues(y * y, 1);
      CongRefl(1);
      CongAdd(y * y, 1, 1, 1);
      CandidateOfZero(Num(y), Den(y));
      CongTrans(c, Candidate(Num(y), Den(y)), 0);
      CongRefl(0);
      CongAdd(0, 0, x1, 0);
      if Cong(x, x1) {
        CongTrans(x, x1, 0);
      } else {
        CongTrans(x, 0 - x1, 0);
      }
      SameResidue(x, 0);
    }
    if x % PRIME == 0 {
      CongFromResidues(x, 0);
      CongMul(x, 0, x, 0);
      CongRefl(Den(y));
      CongMul(x * x, 0, Den(y), Den(y));
      CongSym((x * x) * Den(y), Num(y));
      CongTrans(Num(y), (x * x) * Den(y), 0);
      CongRefl(1);
      CongAdd(Num(y), 0, 1, 1);
      SameResidue(y * y, 1);
    }
  }

  /** The candidate is a multiple of the numerator. */
  lemma CandidateOfZero(n: int, den: int)
    requires Cong(n, 0)
    ensures Cong(Candidate(n, den), 0)
  {
    hide Cong, Power, Pow2;
    LargePower(252);
    var den3 := (den * den) * den;
    var f := Power(((den3 * den3) * den) * n, Pow2(252) - 3) * den3;
    CongRefl(f);
    CongMul(f, f, n, 0);
  }

  lemma CandidateSquares(x: int, c: int, d: int, n: int)
    requires Cong(x, c)
    ensures Cong((x * x) * d, n) <==> Cong((c * c) * d, n)
    ensures Cong((x * x) * d, 0 - n) <==> Cong((c * c) * d, 0 - n)
  {
    hide Cong;
    CongMul(x, c, x, c);
    CongRefl(d);
    CongMul(x * x, c * c, d, d);
    CongEither((x * x) * d, (c * c) * d, n);
    CongEither((x * x) * d, (c * c) * d, 0 - n);
  }

  lemma CongEither(a: int, b: int, c: int)
    requires Cong(a, b)
    ensures Cong(a, c) <==> Cong(b, c)
  {
    hide Cong;
    CongSym(a, b);
    if Cong(a, c) {
      CongTrans(b, a, c);
    }
    if Cong(b, c) {
      CongTrans(a, b, c);
    }
  }

  lemma SquareOfEither(x: int, x1: int, d: int, n: int)
    requires Cong(x, x1) || Cong(x, 0 - x1)
    requires Cong((x1 * x1) * d, n)
    ensures Cong((x * x) * d, n)
  {
    hide Cong;
    if Cong(x, x1) {
      CandidateSquares(x, x1, d, n);
    } else {
      CandidateSquares(x, 0 - x1, d, n);
      assert (0 - x1) * (0 - x1) == x1 * x1;
    }
  }

  lemma UnpackedOnCurve(p: Coords)
    requires p.z == 1 && Cong(p.t, p.x * p.y) && Cong((p.x * p.x) * Den(p.y), Num(p.y))
    ensures Affine(p, p.x, p.y) && OnAffine(D(), p.x, p.y) && OnCurve(D(), p)
  {
    hide Cong, D;
    var x, y, d := p.x, p.y, D();
    CongRefl(x);
    CongRefl(y);
    var e := (x * x) * Den(y) - x * x + 1;
    CongSym((x * x) * Den(y), Num(y));
    CongRefl(1 - x * x);
    CongAdd(Num(y), (x * x) * Den(y), 1 - x * x, 1 - x * x);
    UnpackIdentity(x, y, d);
    CongMul(p.t, x * y, p.t, x * y);
    CongRefl(d);
    CongMul(d, d, p.t * p.t, (x * y) * (x * y));
    CongRefl(1);
    CongAdd(1, 1, d * (p.t * p.t), d * ((x * y) * (x * y)));
    CongSym(1 + d * (p.t * p.t), 1 + d * ((x * y) * (x * y)));
    CongTrans(y * y - x * x, 1 + d * ((x * y) * (x * y)), 1 + d * (p.t * p.t));
  }

  lemma UnpackIdentity(x: int, y: int, d: int)
    ensures (x * x) * ((y * y) * d + 1) + (1 - x * x) == 1 + d * ((x * y) * (x * y))
  {
  }

  // ---- round trips ----

  /** The sign bit is the rest of the number. */
  lemma SignBitIs(b: seq<byte>)
    requires |b| == 32
    ensures LE(b) == LE(b) % TWO255 + TWO255 * (b[31] / 128) && b[31] / 128 <= 1
  {
    hide LE, Pow2;
    var low := b[31 := b[31] % 128];
    ReplaceTop(b, b[31] % 128);
    Pow248Is();
    var s := b[31] / 128;
    assert b[31] == 128 * s + b[31] % 128;
    TopBelow(low);
    SignArithmetic(LE(b), LE(low), b[31], b[31] % 128, s, Pow2(248));
  }

  lemma SignArithmetic(v: nat, low: nat, top: nat, rest: nat, s: nat, p: nat)
    requires low == v + (rest - top) * p && top == 128 * s + rest && 128 * p == TWO255 && low < TWO255
    ensures v % TWO255 == low && v == low + TWO255 * s
  {
    assert (top - rest) * p == s * (128 * p) by {
      Reassociate(s, 128, p);
    }
    MulDifference(rest, top, p);
    MulDifference(top, rest, p);
    ModUnique(v, TWO255, s, low);
  }

  lemma TopBelow(b: seq<byte>)
    requires |b| == 32 && b[31] < 128
    ensures LE(b) < TWO255
  {
    hide Pow2, LE;
    TopByteAbove(b);
    Pow248Is();
    MulStrict(b[31], 128, Pow2(248));
    Distribute(b[31], 1, Pow2(248));
  }

  /** Encoding the negated point gives the number back exactly when y was below p and zero had no sign. */
  lemma EncodingOfUnpacked(v: nat, x: int, sign: nat)
    requires sign <= 1 && v == v % TWO255 + TWO255 * sign
    requires x % PRIME != 0 ==> x % PRIME % 2 != sign
    ensures Encoding(0 - x, v % TWO255) == v <==> v % TWO255 < PRIME && (x % PRIME != 0 || sign == 0)
  {
    var y := v % TWO255;
    NegatedParity(x);
    hide Cong;
    var n := (0 - x) % PRIME % 2;
    if y < PRIME {
      ModUnique(y, PRIME, 0, y);
    } else {
      ModUnique(y, PRIME, 1, y - PRIME);
    }
  }

  lemma NegatedParity(x: int)
    ensures (0 - x) % PRIME % 2 == if x % PRIME == 0 then 0 else 1 - x % PRIME % 2
  {
    var j := x / PRIME;
    assert x == j * PRIME + x % PRIME;
    if x % PRIME == 0 {
      ModUnique(0 - x, PRIME, 0 - j, 0);
    } else {
      ModUnique(0 - x, PRIME, 0 - j - 1, PRIME - x % PRIME);
    }
  }

  lemma {:induction false} PowerOfOne(e: nat)
    ensures Power(1, e) == 1
  {
    if e != 0 {
      PowerOfOne(e - 1);
    }
  }

  /** Decoding, negating and encoding: the same bytes exactly when they were canonical. */
  method Reencode(b: seq<byte>) returns (ok: bool, out: seq<byte>, ghost x: int)
    requires |b| == 32
    ensures ok <==> Solvable(LE(b) % TWO255)
    ensures ok ==> OnAffine(D(), x, LE(b) % TWO255) && (x % PRIME != 0 ==> x % PRIME % 2 != b[31] / 128)
    ensures ok ==> |out| == 32 && LE(out) == Encoding(0 - x, LE(b) % TWO255)
    ensures ok ==> (out == b <==> LE(b) % TWO255 < PRIME && (!ZeroX(LE(b) % TWO255) || b[31] / 128 == 0))
  {
    hide Value, LE, Cong, Solvable, ToLE, Power, D, OnAffine, Affine, OnCurve, Encoding, Pow2;
    var r;
    ok, r := UnpackNegative(b);
    out, x := [], Value(r.x);
    if ok {
      var nx := Neg(r.x);
      out := Pack(Extended(nx, r.y, r.z, r.t));
      assert Pow2(255) >= 32 by {
        LargePower(255);
      }
      PowerOfOne(Pow2(255) - 21);
      SameEncoding(Value(nx), 0 - Value(r.x), Value(r.y));
      SignBitIs(b);
      EncodingOfUnpacked(LE(b), Value(r.x), b[31] / 128);
      ToLEUnique(b);
      ToLEUnique(out);
    }
  }

  lemma LargePower(n: nat)
    requires n >= 5
    ensures Pow2(n) >= 32
  {
    hide Pow2;
    Pow2Small();
    Pow2Monotone(5, n);
  }

  lemma SameEncoding(x: int, x': int, y: int)
    requires Cong(x, x')
    ensures Encoding(x * 1, y * 1) == Encoding(x', y)
  {
    SameResidue(x, x');
  }

  /** The bytes of p + 1 are accepted, though p + 1 is not below p; so are those of 1, with either sign bit. */
  lemma NonCanonicalAccepted()
    ensures PRIME <= PRIME + 1 < TWO255 && Solvable(PRIME + 1) && Solvable(1)
    ensures LE(ToLE(PRIME + 1, 32)) == PRIME + 1 && LE(ToLE(TWO255 + 1, 32)) % TWO255 == 1
  {
    hide LE, ToLE, Pow2, Solvable;
    Pow248Is();
    Pow2Values();
    Pow2Add(248, 8);
    ToLEValue(PRIME + 1, 32);
    ToLEValue(TWO255 + 1, 32);
    ModUnique(TWO255 + 1, TWO255, 1, 1);
    RootOfZero(PRIME + 1, PRIME + 2);
    RootOfZero(1, 0);
  }

  /** Where y^2 - 1 is zero modulo p, y is accepted. */
  lemma RootOfZero(y: int, k: int)
    requires Num(y) == k * PRIME
    ensures Solvable(y)
  {
    hide Cong, Power, D;
    var n := y * y - 1;
    var q := Power(n * Power((y * y) * D() + 1, 7), (PRIME - 1) / 4);
    CongBy(n, 0, k);
    CongRefl(q);
    CongMul(n, 0, q, q);
    CongSym(n, 0);
    CongTrans(n * q, 0, n);
  }
}
