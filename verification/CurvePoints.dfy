/**
 Limbs as points of a group. The group is any abelian group of affine points whose
 addition is the Edwards law with denominators that are never zero; limbs represent a
 point if their coordinates are its own modulo p, with a Z that can be divided by.
 Every point operation of the sources is shown to be that of the group.

 Line numbers are those of src/ed25519-donna/ed25519-donna-impl-base.h.
 */
module CurvePoints {
  import opened Groups
  import opened Field
  import opened Points
  import opened PointLaws

  // ---- invertible residues ----

  ghost predicate Inverse(z: int, w: int) {
    Cong(z * w, 1)
  }

  ghost predicate Invertible(z: int) {
    exists w :: Inverse(z, w)
  }

  lemma InvertibleProduct(a: int, b: int)
    requires Invertible(a) && Invertible(b)
    ensures Invertible(a * b)
  {
    hide Cong;
    var v, w :| Inverse(a, v) && Inverse(b, w);
    CongMul(a * v, 1, b * w, 1);
    SquareOutTwo(a, v, b, w);
    assert Inverse(a * b, v * w);
  }

  lemma SquareOutTwo(a: int, v: int, b: int, w: int)
    ensures (a * v) * (b * w) == (a * b) * (v * w)
  {
  }

  lemma InvertibleCong(a: int, b: int)
    requires Cong(a, b) && Invertible(b)
    ensures Invertible(a)
  {
    hide Cong;
    var w :| Inverse(b, w);
    CongRefl(w);
    CongMul(a, b, w, w);
    CongTrans(a * w, b * w, 1);
    assert Inverse(a, w);
  }

  lemma OneAndTwo()
    ensures Invertible(1) && Invertible(2)
  {
    CongRefl(1);
    assert Inverse(1, 1);
    CongBy(2 * ((PRIME + 1) / 2), 1, 1);
    assert Inverse(2, (PRIME + 1) / 2);
  }

  // ---- the group ----

  /** A group of affine points. */
  datatype Affines<!P> = Affines(g: Group<P>, x: P -> int, y: P -> int)

  /** The coordinates of p. */
  function Plain<P>(e: Affines<P>, p: P): Coords {
    Coords(e.x(p), e.y(p), 1, e.x(p) * e.y(p))
  }

  ghost predicate Adds<P>(e: Affines<P>, p: P, q: P) {
    var delta := Delta(D(), e.x(p), e.y(p), e.x(q), e.y(q));
    && IsSum(D(), e.x(p), e.y(p), e.x(q), e.y(q), e.x(e.g.add(p, q)), e.y(e.g.add(p, q)))
    && Invertible(1 + delta) && Invertible(1 - delta)
  }

  ghost predicate Negates<P>(e: Affines<P>, p: P) {
    OnAffine(D(), e.x(p), e.y(p)) && Cong(e.x(e.g.neg(p)), 0 - e.x(p)) && Cong(e.y(e.g.neg(p)), e.y(p))
  }

  /** The points are on the curve, the law adds them, and denominators are invertible. */
  ghost predicate IsEdwards<P(!new)>(e: Affines<P>) {
    && IsAbelian(e.g)
    && Cong(e.x(e.g.zero), 0) && Cong(e.y(e.g.zero), 1)
    && (forall p: P, q: P {:trigger At2(p, q)} :: At2(p, q) ==> Adds(e, p, q))
    && (forall p: P {:trigger At1(p)} :: At1(p) ==> Negates(e, p))
  }

  /** The points (0, 1) and (0, -1) of the curve. */
  const POLES: Affines<bool> :=
    Affines(Group(false, (p: bool, q: bool) => p != q, (p: bool) => p), (p: bool) => 0, (p: bool) => if p then -1 else 1)

  /** The assumptions on the group can be met. */
  lemma PolesAreEdwards()
    ensures IsEdwards(POLES)
  {
    hide Cong, Adds, Negates;
    CongRefl(0);
    CongRefl(1);
    forall p: bool, q: bool | At2(p, q) ensures Adds(POLES, p, q) {
      AddPoles(p, q);
    }
    forall p: bool | At1(p) ensures Negates(POLES, p) {
      NegatePole(p);
    }
  }

  lemma NegatePole(p: bool)
    ensures Negates(POLES, p)
  {
    hide Cong, D;
    CongRefl(0);
    CongRefl(1);
    CongRefl(POLES.y(p));
    assert POLES.y(p) * POLES.y(p) == 1;
    OnAxis(D(), POLES.y(p));
  }

  lemma OnAxis(d: int, y: int)
    requires y * y == 1
    ensures OnAffine(d, 0, y)
  {
    hide Cong;
    CongRefl(1);
    assert (0 * y) * (0 * y) == 0;
  }

  lemma AddPoles(p: bool, q: bool)
    ensures Adds(POLES, p, q)
  {
    hide Cong, Invertible, D, Delta, IsSum;
    SumOnAxis(D(), POLES.y(p), POLES.y(q), POLES.y(p != q));
    OneAndTwo();
  }

  /** On the y axis the law multiplies. */
  lemma SumOnAxis(d: int, y1: int, y2: int, y3: int)
    requires y3 == y1 * y2
    ensures Delta(d, 0, y1, 0, y2) == 0 && IsSum(d, 0, y1, 0, y2, 0, y3)
  {
    hide Cong;
    assert Delta(d, 0, y1, 0, y2) == 0;
    CongRefl(0);
    CongRefl(y3);
  }

  lemma SumOfPoints<P(!new)>(e: Affines<P>, p: P, q: P)
    requires IsEdwards(e)
    ensures Adds(e, p, q)
  {
    hide Adds;
    assert At2(p, q);
  }

  lemma NegatedPoint<P(!new)>(e: Affines<P>, p: P)
    requires IsEdwards(e)
    ensures Negates(e, p)
  {
    hide Negates;
    assert At1(p);
  }

  // ---- representations ----

  ghost predicate Full<P>(e: Affines<P>, r: Extended, p: P) {
    Tight(r) && Affine(Of(r), e.x(p), e.y(p)) && Invertible(Value(r.z))
  }

  /** T may be left over from another point. */
  ghost predicate Partial<P>(e: Affines<P>, r: Extended, p: P) {
    && TightXYZ(r) && Invertible(Value(r.z))
    && Cong(Value(r.x), e.x(p) * Value(r.z)) && Cong(Value(r.y), e.y(p) * Value(r.z))
  }

  /** The completed form: x == X/Z and y == Y/T. */
  ghost predicate Done<P>(e: Affines<P>, t: P1p1, p: P) {
    && LooseP1p1(t) && Invertible(Value(t.z)) && Invertible(Value(t.t))
    && Cong(Value(t.x), e.x(p) * Value(t.z)) && Cong(Value(t.y), e.y(p) * Value(t.t))
  }

  ghost predicate CachesAt<P>(e: Affines<P>, q: Pniels, c: Coords, p: P) {
    Caches(q, c) && Affine(c, e.x(p), e.y(p)) && Invertible(c.z)
  }

  ghost predicate Cached<P>(e: Affines<P>, q: Pniels, p: P) {
    LoosePniels(q) && exists c :: CachesAt(e, q, c, p)
  }

  ghost predicate CachedPlain<P>(e: Affines<P>, q: Niels, p: P) {
    LooseNiels(q) && CachesAffine(q, Plain(e, p))
  }

  // ---- the four forms ----

  lemma FullIsPartial<P>(e: Affines<P>, r: Extended, p: P)
    requires Full(e, r, p)
    ensures Partial(e, r, p)
  {
    hide Cong, Invertible, Value;
  }

  /** From scaled numerators and denominators to the completed form. */
  lemma DoneOfScaled<P(!new)>(e: Affines<P>, t: P1p1, s: Coords, k: int, p: P, q: P)
    requires IsEdwards(e) && LooseP1p1(t) && Equiv(Completed(t), s) && Invertible(k)
    requires ScaledSum(D(), s, k, e.x(p), e.y(p), e.x(q), e.y(q))
    ensures Done(e, t, e.g.add(p, q))
  {
    hide Cong, D, Value, Invertible, SumX, SumY, IsEdwards;
    SumOfPoints(e, p, q);
    assert At(true, s.x, k);
    var delta := Delta(D(), e.x(p), e.y(p), e.x(q), e.y(q));
    hide Delta;
    var sx, sy := SumX(e.x(p), e.y(p), e.x(q), e.y(q)), SumY(e.x(p), e.y(p), e.x(q), e.y(q));
    CongTrans(Value(t.x), s.x, k * sx);
    CongTrans(Value(t.y), s.y, k * sy);
    CongTrans(Value(t.z), s.z, k * (1 + delta));
    CongTrans(Value(t.t), s.t, k * (1 - delta));
    FractionBy(Value(t.x), Value(t.z), k, sx, 1 + delta, e.x(e.g.add(p, q)));
    FractionBy(Value(t.y), Value(t.t), k, sy, 1 - delta, e.y(e.g.add(p, q)));
    InvertibleProduct(k, 1 + delta);
    InvertibleProduct(k, 1 - delta);
    InvertibleCong(Value(t.z), k * (1 + delta));
    InvertibleCong(Value(t.t), k * (1 - delta));
  }

  /** The four products of the completed form. */
  lemma FinishOfDone<P>(e: Affines<P>, t: P1p1, p: P, f: Coords)
    requires Done(e, t, p) && f == Finish(Completed(t))
    ensures Affine(f, e.x(p), e.y(p)) && Invertible(f.z)
  {
    hide Cong, Value, Invertible;
    var c := Completed(t);
    var x, y := e.x(p), e.y(p);
    CongRefl(c.t);
    CongRefl(c.z);
    CongMul(c.x, x * c.z, c.t, c.t);
    CongMul(c.y, y * c.t, c.z, c.z);
    CongMul(c.x, x * c.z, c.y, y * c.t);
    FinishIdentity(x, y, c.z, c.t);
    InvertibleProduct(c.z, c.t);
  }

  lemma AffineEquiv(a: Coords, b: Coords, x: int, y: int)
    requires Equiv(a, b) && Affine(b, x, y)
    ensures Affine(a, x, y)
  {
    hide Cong;
    CongSym(a.z, b.z);
    ScaledCong(a.x, b.x, x, a.z, b.z);
    ScaledCong(a.y, b.y, y, a.z, b.z);
    ScaledCong(a.t, b.t, x * y, a.z, b.z);
  }

  lemma ScaledCong(a: int, b: int, x: int, z: int, z': int)
    requires Cong(a, b) && Cong(b, x * z') && Cong(z', z)
    ensures Cong(a, x * z)
  {
    hide Cong;
    CongRefl(x);
    CongMul(x, x, z', z);
    CongTrans(a, b, x * z');
    CongTrans(a, x * z', x * z);
  }

  /** Negating the coordinates negates the point. */
  lemma NegatedAffine<P(!new)>(e: Affines<P>, c: Coords, p: P, minus: bool)
    requires IsEdwards(e) && Affine(c, e.x(p), e.y(p))
    ensures var q := if minus then e.g.neg(p) else p;
            Affine(Signed(c, minus), e.x(q), e.y(q)) && Signed(c, minus).z == c.z
  {
    hide Cong, D, OnAffine, IsEdwards;
    NegatedPoint(e, p);
    if minus {
      var x, y, x', y' := e.x(p), e.y(p), e.x(e.g.neg(p)), e.y(e.g.neg(p));
      CongRefl(0);
      CongRefl(c.z);
      CongAdd(0, 0, c.x, x * c.z);
      CongAdd(0, 0, c.t, (x * y) * c.z);
      CongSym(x', 0 - x);
      CongSym(y', y);
      CongMul(0 - x, x', c.z, c.z);
      CongMul(y, y', c.z, c.z);
      CongMul(0 - x, x', y, y');
      CongMul((0 - x) * y, x' * y', c.z, c.z);
      NegatedProducts(x, y, c.z);
      CongTrans(0 - c.x, 0 - x * c.z, x' * c.z);
      CongTrans(c.y, y * c.z, y' * c.z);
      CongTrans(0 - c.t, 0 - (x * y) * c.z, (x' * y') * c.z);
    }
  }

  lemma NegatedProducts(x: int, y: int, z: int)
    ensures (0 - x) * z == 0 - x * z && ((0 - x) * y) * z == 0 - (x * y) * z
  {
  }

  lemma PlainIsAffine<P>(e: Affines<P>, p: P)
    ensures Affine(Plain(e, p), e.x(p), e.y(p))
  {
    hide Cong;
    CongRefl(e.x(p));
    CongRefl(e.y(p));
    CongRefl(e.x(p) * e.y(p));
  }

  // ---- the operations ----

  method ToFullPoint<P(!new)>(ghost e: Affines<P>, t: P1p1, ghost p: P) returns (r: Extended)
    requires Done(e, t, p)
    ensures Full(e, r, p)
  {
    hide Cong, Value, Invertible, Affine;
    r := ToFull(t);
    FinishOfDone(e, t, p, Finish(Completed(t)));
    AffineEquiv(Of(r), Finish(Completed(t)), e.x(p), e.y(p));
    InvertibleCong(Value(r.z), Finish(Completed(t)).z);
  }

  /** T is kept as it was. */
  method ToPartialPoint<P(!new)>(ghost e: Affines<P>, t: P1p1, was: Extended, ghost p: P) returns (r: Extended)
    requires Done(e, t, p)
    ensures Partial(e, r, p) && r.t == was.t
  {
    hide Cong, Value, Invertible;
    r := ToPartial(t, was);
    ghost var f := Finish(Completed(t));
    FinishOfDone(e, t, p, f);
    CongSym(Value(r.z), f.z);
    ScaledCong(Value(r.x), f.x, e.x(p), Value(r.z), f.z);
    ScaledCong(Value(r.y), f.y, e.y(p), Value(r.z), f.z);
    InvertibleCong(Value(r.z), f.z);
  }

  method DoublePoint<P(!new)>(ghost e: Affines<P>, r: Extended, ghost p: P) returns (t: P1p1)
    requires IsEdwards(e) && Partial(e, r, p)
    ensures Done(e, t, e.g.add(p, p))
  {
    hide Cong, Value, Invertible, D, OnAffine, ScaledSum, IsEdwards, Doubled;
    t := DoubleP1p1(r);
    NegatedPoint(e, p);
    DoubledIsScaled(D(), Of(r), e.x(p), e.y(p));
    InvertibleProduct(Value(r.z), Value(r.z));
    DoneOfScaled(e, t, Doubled(Of(r)), Value(r.z) * Value(r.z), p, p);
  }

  /** The sum of coordinates as a completed point. */
  lemma DoneOfSum<P(!new)>(e: Affines<P>, t: P1p1, a: Coords, b: Coords, p: P, q: P)
    requires IsEdwards(e) && LooseP1p1(t) && Equiv(Completed(t), Sum(D(), a, b))
    requires Affine(a, e.x(p), e.y(p)) && Invertible(a.z) && Affine(b, e.x(q), e.y(q)) && Invertible(b.z)
    ensures Done(e, t, e.g.add(p, q))
  {
    hide Cong, D, Value, Invertible, ScaledSum, Sum, IsEdwards, Affine;
    SumIsScaled(D(), a, b, e.x(p), e.y(p), e.x(q), e.y(q));
    OneAndTwo();
    InvertibleProduct(a.z, b.z);
    InvertibleProduct(2, a.z * b.z);
    DoneOfScaled(e, t, Sum(D(), a, b), 2 * (a.z * b.z), p, q);
  }

  function SignedPoint<P>(g: Group<P>, q: P, minus: bool): P {
    if minus then g.neg(q) else q
  }

  method AddCachedPoint<P(!new)>(ghost e: Affines<P>, r: Extended, q: Pniels, minus: bool, ghost p: P, ghost o: P) returns (t: P1p1)
    requires IsEdwards(e) && Full(e, r, p) && Cached(e, q, o)
    ensures Done(e, t, e.g.add(p, SignedPoint(e.g, o, minus)))
  {
    hide Cong, D, Value, Invertible, Sum, IsEdwards, Affine, Signed, Caches;
    ghost var c :| CachesAt(e, q, c, o);
    t := PnielsAddP1p1(r, q, minus, c);
    NegatedAffine(e, c, o, minus);
    DoneOfSum(e, t, Of(r), Signed(c, minus), p, SignedPoint(e.g, o, minus));
  }

  method AddPlainPoint<P(!new)>(ghost e: Affines<P>, r: Extended, q: Niels, minus: bool, ghost p: P, ghost o: P) returns (t: P1p1)
    requires IsEdwards(e) && Full(e, r, p) && CachedPlain(e, q, o)
    ensures Done(e, t, e.g.add(p, SignedPoint(e.g, o, minus)))
  {
    hide Cong, D, Value, Invertible, Sum, IsEdwards, Affine, Signed, CachesAffine;
    ghost var c := Plain(e, o);
    PlainIsAffine(e, o);
    OneAndTwo();
    t := NielsAdd2P1p1(r, q, minus, c);
    NegatedAffine(e, c, o, minus);
    DoneOfSum(e, t, Of(r), Signed(c, minus), p, SignedPoint(e.g, o, minus));
  }

  /** The finished sum of coordinates. */
  lemma SumFinished<P(!new)>(e: Affines<P>, a: Coords, b: Coords, p: P, q: P)
    requires IsEdwards(e)
    requires Affine(a, e.x(p), e.y(p)) && Invertible(a.z) && Affine(b, e.x(q), e.y(q)) && Invertible(b.z)
    ensures var f := Finish(Sum(D(), a, b)); Affine(f, e.x(e.g.add(p, q)), e.y(e.g.add(p, q))) && Invertible(f.z)
  {
    hide Cong, D, Invertible, ScaledSum, Sum, IsEdwards, Affine, IsSum, Delta;
    SumOfPoints(e, p, q);
    SumIsScaled(D(), a, b, e.x(p), e.y(p), e.x(q), e.y(q));
    OneAndTwo();
    InvertibleProduct(a.z, b.z);
    InvertibleProduct(2, a.z * b.z);
    var k := 2 * (a.z * b.z);
    var delta := Delta(D(), e.x(p), e.y(p), e.x(q), e.y(q));
    FinishIsTheSum(D(), Sum(D(), a, b), k, e.x(p), e.y(p), e.x(q), e.y(q), e.x(e.g.add(p, q)), e.y(e.g.add(p, q)));
    InvertibleProduct(k, k);
    InvertibleProduct(1 + delta, 1 - delta);
    InvertibleProduct(k * k, (1 + delta) * (1 - delta));
    InvertibleCong(Finish(Sum(D(), a, b)).z, (k * k) * ((1 + delta) * (1 - delta)));
  }

  method AddPlainInPlace<P(!new)>(ghost e: Affines<P>, r: Extended, q: Niels, ghost p: P, ghost o: P) returns (r': Extended)
    requires IsEdwards(e) && Full(e, r, p) && CachedPlain(e, q, o)
    ensures Full(e, r', e.g.add(p, o))
  {
    hide Cong, D, Value, Invertible, Sum, IsEdwards, Affine, CachesAffine;
    ghost var c := Plain(e, o);
    PlainIsAffine(e, o);
    OneAndTwo();
    r' := NielsAdd2(r, q, c);
    SumFinished(e, Of(r), c, p, o);
    ghost var f := Finish(Sum(D(), Of(r), c));
    AffineEquiv(Of(r'), f, e.x(e.g.add(p, o)), e.y(e.g.add(p, o)));
    InvertibleCong(Value(r'.z), f.z);
  }

  method CachePoint<P(!new)>(ghost e: Affines<P>, r: Extended, ghost p: P) returns (q: Pniels)
    requires Full(e, r, p)
    ensures Cached(e, q, p)
  {
    hide Cong, Value, Invertible, Affine, Caches;
    q := FullToPniels(r);
    assert CachesAt(e, q, Of(r), p);
  }

  method AddToCached<P(!new)>(ghost e: Affines<P>, r: Extended, q: Pniels, ghost p: P, ghost o: P) returns (s: Pniels)
    requires IsEdwards(e) && Full(e, r, p) && Cached(e, q, o)
    ensures Cached(e, s, e.g.add(p, o))
  {
    hide Cong, D, Value, Invertible, Sum, IsEdwards, Affine, Caches;
    ghost var c :| CachesAt(e, q, c, o);
    s := PnielsAdd(r, q, c);
    SumFinished(e, Of(r), c, p, o);
    assert CachesAt(e, s, Finish(Sum(D(), Of(r), c)), e.g.add(p, o));
  }

  /** Lines 215-217: the neutral element in limbs. */
  method NeutralPoint<P(!new)>(ghost e: Affines<P>) returns (r: Extended)
    requires IsEdwards(e)
    ensures Full(e, r, e.g.zero)
  {
    hide Cong, Invertible, IsAbelian, Adds, Negates;
    var zero: Fe, one: Fe := [0, 0, 0, 0, 0], [1, 0, 0, 0, 0];
    r := Extended(zero, one, one, zero);
    ZeroValue();
    assert Value(one) == 1;
    OneAndTwo();
    hide Value;
    ghost var x, y := e.x(e.g.zero), e.y(e.g.zero);
    CongSym(x, 0);
    CongSym(y, 1);
    CongMul(x, 0, y, 1);
    CongSym(x * y, 0);
  }
}
