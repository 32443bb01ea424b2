/**
 Points of the twisted Edwards curve -x^2 + y^2 == 1 + d x^2 y^2 in extended
 coordinates (X : Y : Z : T) with x == X/Z, y == Y/Z and T == XY/Z. The reference is
 section 5.1.4 of RFC 8032; every addition and the doubling of the sources are shown
 to compute it modulo p, and no limb of any intermediate wraps or goes below zero.

 Line numbers are those of src/ed25519-donna/ed25519-donna-impl-base.h.
 */
module Points {
  import opened Bits
  import opened Field
  import opened FieldMul

  const ECD: Fe := [0x0003_4dca_1359_78a3, 0x0001_a828_3b15_6ebd, 0x0005_e7a2_6001_c029, 0x0007_39c6_63a0_3cbb, 0x0005_2036_cee2_b6ff]
  const EC2D: Fe := [0x0006_9b94_26b2_f159, 0x0003_5050_762a_dd7a, 0x0003_cf44_c003_8052, 0x0006_738c_c740_7977, 0x0002_406d_9dc5_6dff]

  ghost predicate IsCurveConstant(d: int) {
    forall m: bool {:trigger At(m, d, d)} :: At(m, d, d) ==> d == Value(ECD)
  }

  /** The curve constant d, which is -121665/121666; its digits are looked at in the next lemma only. */
  ghost function D(): (d: int)
    ensures IsCurveConstant(d)
  {
    assert IsCurveConstant(Value(ECD));
    var d: int :| IsCurveConstant(d);
    d
  }

  lemma CurveConstants()
    ensures Below(ECD, R) && Below(EC2D, R) && Value(ECD) == D() && Cong(Value(EC2D), 2 * D()) && Cong(D() * 121666, -121665)
  {
    assert At(true, D(), D());
    CongBy(Value(EC2D), 2 * D(), -1);
    CongBy(D() * 121666, -121665, (D() * 121666 + 121665) / PRIME);
  }

  // ---- representations ----

  datatype Extended = Extended(x: Fe, y: Fe, z: Fe, t: Fe)
  datatype P1p1 = P1p1(x: Fe, y: Fe, z: Fe, t: Fe)
  datatype Niels = Niels(ysubx: Fe, xaddy: Fe, t2d: Fe)
  datatype Pniels = Pniels(ysubx: Fe, xaddy: Fe, z: Fe, t2d: Fe)

  predicate Tight(p: Extended) {
    Below(p.x, TIGHT) && Below(p.y, TIGHT) && Below(p.z, TIGHT) && Below(p.t, TIGHT)
  }

  /** Doubling, and the conversion that feeds it, leave T aside. */
  predicate TightXYZ(p: Extended) {
    Below(p.x, TIGHT) && Below(p.y, TIGHT) && Below(p.z, TIGHT)
  }

  predicate LooseP1p1(r: P1p1) {
    Below(r.x, LOOSE) && Below(r.y, LOOSE) && Below(r.z, LOOSE) && Below(r.t, LOOSE)
  }

  predicate LooseNiels(q: Niels) {
    Below(q.ysubx, LOOSE) && Below(q.xaddy, LOOSE) && Below(q.t2d, TIGHT)
  }

  predicate LoosePniels(q: Pniels) {
    Below(q.ysubx, LOOSE) && Below(q.xaddy, LOOSE) && Below(q.z, TIGHT) && Below(q.t2d, TIGHT)
  }

  /** Coordinates as integers, to be read modulo p. */
  datatype Coords = Coords(x: int, y: int, z: int, t: int)

  function Of(p: Extended): Coords {
    Coords(Value(p.x), Value(p.y), Value(p.z), Value(p.t))
  }

  function Completed(r: P1p1): Coords {
    Coords(Value(r.x), Value(r.y), Value(r.z), Value(r.t))
  }

  ghost predicate Equiv(a: Coords, b: Coords) {
    Cong(a.x, b.x) && Cong(a.y, b.y) && Cong(a.z, b.z) && Cong(a.t, b.t)
  }

  /** q caches the sums and products that adding c will need. */
  ghost predicate Caches(q: Pniels, c: Coords) {
    Cong(Value(q.ysubx), c.y - c.x) && Cong(Value(q.xaddy), c.y + c.x) && Cong(Value(q.z), c.z)
    && Cong(Value(q.t2d), 2 * D() * c.t)
  }

  /** The same for a point with Z equal to one. */
  ghost predicate CachesAffine(q: Niels, c: Coords) {
    Cong(Value(q.ysubx), c.y - c.x) && Cong(Value(q.xaddy), c.y + c.x) && c.z == 1 && Cong(Value(q.t2d), 2 * D() * c.t)
  }

  // ---- the reference ----

  /** Section 5.1.4 of RFC 8032, before the last four products: (E, H, G, F), for any constant d. */
  function Sum(d: int, p: Coords, q: Coords): Coords {
    var a := (p.y - p.x) * (q.y - q.x);
    var b := (p.y + p.x) * (q.y + q.x);
    var c := (p.t * q.t) * (2 * d);
    var e := 2 * (p.z * q.z);
    Coords(b - a, b + a, e + c, e - c)
  }

  /** The last four products. */
  function Finish(r: Coords): Coords {
    Coords(r.x * r.t, r.y * r.z, r.z * r.t, r.x * r.y)
  }

  function Negated(q: Coords): Coords {
    Coords(0 - q.x, q.y, q.z, 0 - q.t)
  }

  function Signed(q: Coords, minus: bool): Coords {
    if minus then Negated(q) else q
  }

  /** The curve equation in extended coordinates. */
  ghost predicate OnCurve(d: int, p: Coords) {
    Cong(p.y * p.y - p.x * p.x, p.z * p.z + d * (p.t * p.t))
  }

  // ---- congruence, one operation at a time ----

  lemma ThenMul(r: int, a: int, a': int, b: int, b': int)
    requires Cong(r, a * b) && Cong(a, a') && Cong(b, b')
    ensures Cong(r, a' * b')
  {
    hide Cong;
    CongMul(a, a', b, b');
    CongTrans(r, a * b, a' * b');
  }

  lemma ThenAdd(r: int, a: int, a': int, b: int, b': int)
    requires Cong(r, a + b) && Cong(a, a') && Cong(b, b')
    ensures Cong(r, a' + b')
  {
    hide Cong;
    CongAdd(a, a', b, b');
    CongTrans(r, a + b, a' + b');
  }

  lemma ThenSub(r: int, a: int, a': int, b: int, b': int)
    requires Cong(r, a - b) && Cong(a, a') && Cong(b, b')
    ensures Cong(r, a' - b')
  {
    hide Cong;
    CongAdd(a, a', b, b');
    CongTrans(r, a - b, a' - b');
  }

  /** Y - X and Y + X, not carried. */
  method DifferenceAndSum(y: Fe, x: Fe) returns (a: Fe, b: Fe)
    requires Below(y, TIGHT) && Below(x, TIGHT)
    ensures Below(a, TIGHT + 2 * R) && Cong(Value(a), Value(y) - Value(x))
    ensures Below(b, 2 * TIGHT) && Cong(Value(b), Value(y) + Value(x))
  {
    hide Value, Cong;
    a := Sub(y, x, TIGHT);
    b := Add(y, x, TIGHT, TIGHT);
    CongRefl(Value(b));
  }

  /** E and H from A and B. */
  method Outer(a: Fe, b: Fe, ghost va: int, ghost vb: int) returns (e: Fe, h: Fe)
    requires Below(a, TIGHT) && Below(b, TIGHT) && Cong(Value(a), va) && Cong(Value(b), vb)
    ensures Below(e, LOOSE) && Cong(Value(e), vb - va) && Below(h, LOOSE) && Cong(Value(h), vb + va)
  {
    hide Value, Cong;
    e := Sub(b, a, TIGHT);
    h := Add(b, a, TIGHT, TIGHT);
    CongRefl(Value(h));
    ThenSub(Value(e), Value(b), vb, Value(a), va);
    ThenAdd(Value(h), Value(b), vb, Value(a), va);
  }

  /** G and F from C and a D that was not carried. */
  method Inner(c: Fe, d: Fe, ghost vc: int, ghost vd: int) returns (g: Fe, f: Fe)
    requires Below(c, TIGHT) && Below(d, 2 * TIGHT) && Cong(Value(c), vc) && Cong(Value(d), vd)
    ensures Below(g, LOOSE) && Cong(Value(g), vd + vc) && Below(f, LOOSE) && Cong(Value(f), vd - vc)
  {
    hide Value, Cong;
    g := Add(d, c, 2 * TIGHT, TIGHT);
    f := SubAfterBasic(d, c, 2 * TIGHT);
    CongRefl(Value(g));
    ThenAdd(Value(g), Value(d), vd, Value(c), vc);
    ThenSub(Value(f), Value(d), vd, Value(c), vc);
  }

  /** Twice a product, or twice Z, not carried. */
  method Twice(d: Fe, ghost v: int) returns (out: Fe)
    requires Below(d, TIGHT) && Cong(Value(d), v)
    ensures Below(out, 2 * TIGHT) && Cong(Value(out), 2 * v)
  {
    hide Value, Cong;
    out := Add(d, d, TIGHT, TIGHT);
    CongRefl(Value(out));
    ThenAdd(Value(out), Value(d), v, Value(d), v);
  }

  // ---- conversions ----

  method ToFull(p: P1p1) returns (r: Extended)
    requires LooseP1p1(p)
    ensures Tight(r) && Equiv(Of(r), Finish(Completed(p)))
  {
    hide Value, Cong;
    var x := Mul(p.x, p.t);
    var y := Mul(p.y, p.z);
    var z := Mul(p.z, p.t);
    var t := Mul(p.x, p.y);
    r := Extended(x, y, z, t);
  }

  /** T keeps what it held before. */
  method ToPartial(p: P1p1, was: Extended) returns (r: Extended)
    requires LooseP1p1(p)
    ensures TightXYZ(r) && r.t == was.t && Equiv(Of(r), Finish(Completed(p)).(t := Value(was.t)))
  {
    hide Value, Cong;
    var x := Mul(p.x, p.t);
    var y := Mul(p.y, p.z);
    var z := Mul(p.z, p.t);
    r := Extended(x, y, z, was.t);
    CongRefl(Value(was.t));
  }

  method FullToPniels(r: Extended) returns (p: Pniels)
    requires Tight(r)
    ensures LoosePniels(p) && Caches(p, Of(r))
  {
    hide Value, Cong, D;
    CurveConstants();
    var ysubx, xaddy := DifferenceAndSum(r.y, r.x);
    var t2d := Mul(r.t, EC2D);
    p := Pniels(ysubx, xaddy, r.z, t2d);
    CongRefl(Value(r.z));
    CongRefl(Value(r.t));
    ThenMul(Value(t2d), Value(r.t), Value(r.t), Value(EC2D), 2 * D());
  }

  // ---- additions ----

  method AddP1p1(p: Extended, q: Extended) returns (r: P1p1)
    requires Tight(p) && Tight(q)
    ensures LooseP1p1(r) && Equiv(Completed(r), Sum(D(), Of(p), Of(q)))
  {
    hide Value, Cong, D;
    ghost var u, v := Of(p), Of(q);
    var a, b := DifferenceAndSum(p.y, p.x);
    var t, s := DifferenceAndSum(q.y, q.x);
    var am := Mul(a, t);
    var bm := Mul(b, s);
    ThenMul(Value(am), Value(a), u.y - u.x, Value(t), v.y - v.x);
    ThenMul(Value(bm), Value(b), u.y + u.x, Value(s), v.y + v.x);
    var c := TimesTwoD(p.t, q.t);
    var d := Mul(p.z, q.z);
    var d2 := Twice(d, u.z * v.z);
    var e, h := Outer(am, bm, (u.y - u.x) * (v.y - v.x), (u.y + u.x) * (v.y + v.x));
    var g, f := Inner(c, d2, (u.t * v.t) * (2 * D()), 2 * (u.z * v.z));
    r := P1p1(e, h, g, f);
  }

  method TimesTwoD(s: Fe, t: Fe) returns (c: Fe)
    requires Below(s, TIGHT) && Below(t, TIGHT)
    ensures Below(c, TIGHT) && Cong(Value(c), (Value(s) * Value(t)) * (2 * D()))
  {
    hide Value, Cong, D;
    CurveConstants();
    c := Mul(s, t);
    ghost var first := Value(c);
    c := Mul(c, EC2D);
    ThenMul(Value(c), first, Value(s) * Value(t), Value(EC2D), 2 * D());
  }

  /** Section 5.1.4 of RFC 8032 for doubling, with the signs of both outer pairs turned. */
  function Doubled(p: Coords): Coords {
    var s := p.y * p.y + p.x * p.x;
    var d := p.y * p.y - p.x * p.x;
    Coords((p.x + p.y) * (p.x + p.y) - s, s, d, 2 * (p.z * p.z) - d)
  }

  method DoubleP1p1(p: Extended) returns (r: P1p1)
    requires TightXYZ(p)
    ensures LooseP1p1(r) && Equiv(Completed(r), Doubled(Of(p)))
  {
    hide Value, Cong;
    var a := Square(p.x);
    var b := Square(p.y);
    var c := Square(p.z);
    c := TwiceReduced(c, Value(p.z) * Value(p.z));
    var s := Add(p.x, p.y, TIGHT, TIGHT);
    var x := Square(s);
    var z, y := DifferenceAndSum(b, a);
    ThenAdd(Value(y), Value(b), Value(p.y) * Value(p.y), Value(a), Value(p.x) * Value(p.x));
    ThenSub(Value(z), Value(b), Value(p.y) * Value(p.y), Value(a), Value(p.x) * Value(p.x));
    x, c := FinishDouble(x, y, c, z, Of(p));
    r := P1p1(x, y, z, c);
  }

  method FinishDouble(x: Fe, y: Fe, c: Fe, z: Fe, ghost p: Coords) returns (e: Fe, f: Fe)
    requires Below(x, TIGHT) && Below(y, 2 * TIGHT) && Below(c, TIGHT) && Below(z, TIGHT + 2 * R)
    requires Cong(Value(x), (p.x + p.y) * (p.x + p.y)) && Cong(Value(y), p.y * p.y + p.x * p.x)
    requires Cong(Value(c), 2 * (p.z * p.z)) && Cong(Value(z), p.y * p.y - p.x * p.x)
    ensures Below(e, LOOSE) && Cong(Value(e), Doubled(p).x)
    ensures Below(f, LOOSE) && Cong(Value(f), Doubled(p).t)
  {
    hide Value, Cong;
    e := SubAfterBasic(x, y, TIGHT);
    ThenSub(Value(e), Value(x), (p.x + p.y) * (p.x + p.y), Value(y), p.y * p.y + p.x * p.x);
    f := SubAfterBasic(c, z, TIGHT);
    ThenSub(Value(f), Value(c), 2 * (p.z * p.z), Value(z), p.y * p.y - p.x * p.x);
  }

  /** Twice a value, carried. */
  method TwiceReduced(d: Fe, ghost v: int) returns (out: Fe)
    requires Below(d, TIGHT) && Cong(Value(d), v)
    ensures Below(out, TIGHT) && Cong(Value(out), 2 * v)
  {
    hide Value, Cong;
    out := AddReduce(d, d);
    ThenAdd(Value(out), Value(d), v, Value(d), v);
  }

  // ---- additions of cached points ----

  /** The cached sums of q, in the order that adding or subtracting it needs. */
  lemma SignedSums(q: Coords, minus: bool)
    ensures Signed(q, minus).y - Signed(q, minus).x == (if minus then q.y + q.x else q.y - q.x)
    ensures Signed(q, minus).y + Signed(q, minus).x == (if minus then q.y - q.x else q.y + q.x)
  {
  }

  /** A, B of the reference from the cached sums: lines 57-62 and 74-79. */
  method OuterProducts(p: Extended, ysubx: Fe, xaddy: Fe, minus: bool, ghost c: Coords) returns (a: Fe, b: Fe)
    requires Tight(p) && Below(ysubx, LOOSE) && Below(xaddy, LOOSE)
    requires Cong(Value(ysubx), c.y - c.x) && Cong(Value(xaddy), c.y + c.x)
    ensures var u, v := Of(p), Signed(c, minus);
            && Below(a, TIGHT) && Cong(Value(a), (u.y - u.x) * (v.y - v.x))
            && Below(b, TIGHT) && Cong(Value(b), (u.y + u.x) * (v.y + v.x))
  {
    hide Value, Cong, Signed;
    ghost var u, v := Of(p), Signed(c, minus);
    SignedSums(c, minus);
    var first, second := if minus then xaddy else ysubx, if minus then ysubx else xaddy;
    var s, t := DifferenceAndSum(p.y, p.x);
    a := Mul(s, first);
    b := Mul(t, second);
    ThenMul(Value(a), Value(s), u.y - u.x, Value(first), v.y - v.x);
    ThenMul(Value(b), Value(t), u.y + u.x, Value(second), v.y + v.x);
  }

  /** G and F when D was carried: C is added to one and taken from the other. */
  method InnerSigned(c: Fe, d: Fe, minus: bool, ghost vc: int, ghost vd: int) returns (g: Fe, f: Fe)
    requires Below(c, TIGHT) && Below(d, TIGHT) && Cong(Value(c), vc) && Cong(Value(d), vd)
    ensures Below(g, LOOSE) && Cong(Value(g), if minus then vd - vc else vd + vc)
    ensures Below(f, LOOSE) && Cong(Value(f), if minus then vd + vc else vd - vc)
  {
    hide Value, Cong;
    var more := Add(d, c, TIGHT, TIGHT);
    var less := Sub(d, c, TIGHT);
    CongRefl(Value(more));
    ThenAdd(Value(more), Value(d), vd, Value(c), vc);
    ThenSub(Value(less), Value(d), vd, Value(c), vc);
    g, f := if minus then less else more, if minus then more else less;
  }

  /** T1 times the cached 2dT2 is the C of the reference, up to the sign of q. */
  lemma CachedProduct(t1: int, t2: int)
    ensures t1 * (2 * D() * t2) == (t1 * t2) * (2 * D())
    ensures (t1 * (0 - t2)) * (2 * D()) == 0 - (t1 * t2) * (2 * D())
  {
    hide D;
    Reassociate(t1, t2, 2 * D());
    MulDifference(0, t2, t1);
    MulDifference(0, t1 * t2, 2 * D());
  }

  method CachedC(t: Fe, t2d: Fe, ghost vt: int) returns (c: Fe)
    requires Below(t, TIGHT) && Below(t2d, TIGHT) && Cong(Value(t2d), 2 * D() * vt)
    ensures Below(c, TIGHT) && Cong(Value(c), (Value(t) * vt) * (2 * D()))
  {
    hide Value, Cong, D;
    c := Mul(t, t2d);
    CongRefl(Value(t));
    ThenMul(Value(c), Value(t), Value(t), Value(t2d), 2 * D() * vt);
    CachedProduct(Value(t), vt);
  }

  /** The four sums with either sign. */
  method CompleteSigned(a: Fe, b: Fe, c: Fe, d: Fe, minus: bool, ghost u: Coords, ghost w: Coords) returns (r: P1p1)
    requires Below(a, TIGHT) && Below(b, TIGHT) && Below(c, TIGHT) && Below(d, TIGHT)
    requires var v := Signed(w, minus);
             Cong(Value(a), (u.y - u.x) * (v.y - v.x)) && Cong(Value(b), (u.y + u.x) * (v.y + v.x))
    requires Cong(Value(c), (u.t * w.t) * (2 * D())) && Cong(Value(d), 2 * (u.z * w.z))
    ensures LooseP1p1(r) && Equiv(Completed(r), Sum(D(), u, Signed(w, minus)))
  {
    hide Value, Cong, D;
    ghost var v := Signed(w, minus);
    var e, h := Outer(a, b, (u.y - u.x) * (v.y - v.x), (u.y + u.x) * (v.y + v.x));
    var g, f := InnerSigned(c, d, minus, (u.t * w.t) * (2 * D()), 2 * (u.z * w.z));
    CachedProduct(u.t, w.t);
    r := P1p1(e, h, g, f);
  }

  /** Adds the cached affine point c, or its negation when the sign bit is set. */
  method NielsAdd2P1p1(p: Extended, q: Niels, signbit: bool, ghost c: Coords) returns (r: P1p1)
    requires Tight(p) && LooseNiels(q) && CachesAffine(q, c)
    ensures LooseP1p1(r) && Equiv(Completed(r), Sum(D(), Of(p), Signed(c, signbit)))
  {
    hide Value, Cong, D, Signed, Sum;
    var a, b := OuterProducts(p, q.ysubx, q.xaddy, signbit, c);
    var cc := CachedC(p.t, q.t2d, c.t);
    CongRefl(Value(p.z));
    var d := TwiceReduced(p.z, Value(p.z));
    r := CompleteSigned(a, b, cc, d, signbit, Of(p), c);
  }

  /** The same for a cached projective point. */
  method PnielsAddP1p1(p: Extended, q: Pniels, signbit: bool, ghost c: Coords) returns (r: P1p1)
    requires Tight(p) && LoosePniels(q) && Caches(q, c)
    ensures LooseP1p1(r) && Equiv(Completed(r), Sum(D(), Of(p), Signed(c, signbit)))
  {
    hide Value, Cong, D, Signed, Sum;
    var a, b := OuterProducts(p, q.ysubx, q.xaddy, signbit, c);
    var cc := CachedC(p.t, q.t2d, c.t);
    var d := Mul(p.z, q.z);
    CongRefl(Value(p.z));
    ThenMul(Value(d), Value(p.z), Value(p.z), Value(q.z), c.z);
    d := TwiceReduced(d, Value(p.z) * c.z);
    r := CompleteSigned(a, b, cc, d, signbit, Of(p), c);
  }

  method NielsAdd2(p: Extended, q: Niels, ghost c: Coords) returns (r: Extended)
    requires Tight(p) && LooseNiels(q) && CachesAffine(q, c)
    ensures Tight(r) && Equiv(Of(r), Finish(Sum(D(), Of(p), c)))
  {
    hide Value, Cong, D, Sum;
    var a, b := OuterProducts(p, q.ysubx, q.xaddy, false, c);
    var cc := CachedC(p.t, q.t2d, c.t);
    CongRefl(Value(p.z));
    var d := Twice(p.z, Value(p.z));
    var s := CompleteBasic(a, b, cc, d, Of(p), c);
    r := ToFull(s);
    FinishEquiv(Completed(s), Sum(D(), Of(p), c), Of(r));
  }

  method CompleteBasic(a: Fe, b: Fe, c: Fe, d: Fe, ghost u: Coords, ghost v: Coords) returns (r: P1p1)
    requires Below(a, TIGHT) && Below(b, TIGHT) && Below(c, TIGHT) && Below(d, 2 * TIGHT)
    requires Cong(Value(a), (u.y - u.x) * (v.y - v.x)) && Cong(Value(b), (u.y + u.x) * (v.y + v.x))
    requires Cong(Value(c), (u.t * v.t) * (2 * D())) && Cong(Value(d), 2 * (u.z * v.z))
    ensures LooseP1p1(r) && Equiv(Completed(r), Sum(D(), u, v))
  {
    hide Value, Cong, D;
    var e, h := Outer(a, b, (u.y - u.x) * (v.y - v.x), (u.y + u.x) * (v.y + v.x));
    var g, f := Inner(c, d, (u.t * v.t) * (2 * D()), 2 * (u.z * v.z));
    r := P1p1(e, h, g, f);
  }

  lemma FinishEquiv(r: Coords, s: Coords, out: Coords)
    requires Equiv(r, s) && Equiv(out, Finish(r))
    ensures Equiv(out, Finish(s))
  {
    hide Cong;
    ThenMul(out.x, r.x, s.x, r.t, s.t);
    ThenMul(out.y, r.y, s.y, r.z, s.z);
    ThenMul(out.z, r.z, s.z, r.t, s.t);
    ThenMul(out.t, r.x, s.x, r.y, s.y);
  }

  /** The sum of a point and a cached point, cached again: the steps of the odd table. */
  method PnielsAdd(p: Extended, q: Pniels, ghost c: Coords) returns (r: Pniels)
    requires Tight(p) && LoosePniels(q) && Caches(q, c)
    ensures LoosePniels(r) && Caches(r, Finish(Sum(D(), Of(p), c)))
  {
    hide Value, Cong, D, Sum;
    var a, b := OuterProducts(p, q.ysubx, q.xaddy, false, c);
    var cc := CachedC(p.t, q.t2d, c.t);
    var d := Mul(p.z, q.z);
    CongRefl(Value(p.z));
    ThenMul(Value(d), Value(p.z), Value(p.z), Value(q.z), c.z);
    d := Twice(d, Value(p.z) * c.z);
    var s := CompleteBasic(a, b, cc, d, Of(p), c);
    var full := ToFull(s);
    FinishEquiv(Completed(s), Sum(D(), Of(p), c), Of(full));
    r := FullToPniels(full);
    CachesEquiv(r, Of(full), Finish(Sum(D(), Of(p), c)));
  }

  lemma CachesEquiv(q: Pniels, a: Coords, b: Coords)
    requires Caches(q, a) && Equiv(a, b)
    ensures Caches(q, b)
  {
    hide Value, Cong, D;
    ThenSub(Value(q.ysubx), a.y, b.y, a.x, b.x);
    ThenAdd(Value(q.xaddy), a.y, b.y, a.x, b.x);
    CongTrans(Value(q.z), a.z, b.z);
    CongRefl(2 * D());
    ThenMul(Value(q.t2d), 2 * D(), 2 * D(), a.t, b.t);
  }

  method Add2(p: Extended, q: Extended) returns (r: Extended)
    requires Tight(p) && Tight(q)
    ensures Tight(r) && Equiv(Of(r), Finish(Sum(D(), Of(p), Of(q))))
  {
    hide Value, Cong, Sum;
    var s := AddP1p1(p, q);
    r := ToFull(s);
    FinishEquiv(Completed(s), Sum(D(), Of(p), Of(q)), Of(r));
  }

  method Double(p: Extended) returns (r: Extended)
    requires TightXYZ(p)
    ensures Tight(r) && Equiv(Of(r), Finish(Doubled(Of(p))))
  {
    hide Value, Cong, Doubled;
    var s := DoubleP1p1(p);
    r := ToFull(s);
    FinishEquiv(Completed(s), Doubled(Of(p)), Of(r));
  }
}
