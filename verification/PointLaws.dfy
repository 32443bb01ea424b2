/**
 What the reference formulas mean: they add points by the Edwards law

   x3 == (x1 y2 + x2 y1) / (1 + d x1 x2 y1 y2)
   y3 == (y1 y2 + x1 x2) / (1 - d x1 x2 y1 y2)

 on the curve -x^2 + y^2 == 1 + d x^2 y^2, they stay on the curve, and doubling agrees
 with adding a point to itself. All of it modulo p, for every d, and free of divisions.
 */
module PointLaws {
  import opened Bits
  import opened Field
  import opened Points

  // ---- the law ----
  // As with congruence, the marks keep the polynomials out of proofs that do not need them.

  /** p is the affine point (x, y). */
  ghost predicate Affine(p: Coords, x: int, y: int) {
    Cong(p.x, x * p.z) && Cong(p.y, y * p.z) && Cong(p.t, (x * y) * p.z)
  }

  ghost predicate OnAffine(d: int, x: int, y: int) {
    forall m: bool {:trigger At(m, x, y)} :: At(m, x, y) ==> Cong(y * y - x * x, 1 + d * ((x * y) * (x * y)))
  }

  function SumX(x1: int, y1: int, x2: int, y2: int): int { x1 * y2 + x2 * y1 }

  function SumY(x1: int, y1: int, x2: int, y2: int): int { y1 * y2 + x1 * x2 }

  function Delta(d: int, x1: int, y1: int, x2: int, y2: int): int { d * ((x1 * y1) * (x2 * y2)) }

  /** (x3, y3) is the sum. */
  ghost predicate IsSum(d: int, x1: int, y1: int, x2: int, y2: int, x3: int, y3: int) {
    && Cong(x3 * (1 + Delta(d, x1, y1, x2, y2)), SumX(x1, y1, x2, y2))
    && Cong(y3 * (1 - Delta(d, x1, y1, x2, y2)), SumY(x1, y1, x2, y2))
  }

  /** The four numerators and denominators of the sum, all scaled by k. */
  ghost predicate ScaledSum(d: int, r: Coords, k: int, x1: int, y1: int, x2: int, y2: int) {
    forall m: bool {:trigger At(m, r.x, k)} :: At(m, r.x, k) ==>
      && Cong(r.x, k * SumX(x1, y1, x2, y2))
      && Cong(r.y, k * SumY(x1, y1, x2, y2))
      && Cong(r.z, k * (1 + Delta(d, x1, y1, x2, y2)))
      && Cong(r.t, k * (1 - Delta(d, x1, y1, x2, y2)))
  }

  // ---- adding ----

  /** Adding the coordinates adds the points, scaled by 2 Z1 Z2. */
  lemma SumIsScaled(d: int, p: Coords, q: Coords, x1: int, y1: int, x2: int, y2: int)
    requires Affine(p, x1, y1) && Affine(q, x2, y2)
    ensures ScaledSum(d, Sum(d, p, q), 2 * (p.z * q.z), x1, y1, x2, y2)
  {
    hide Cong, Sum;
    var p' := Coords(x1 * p.z, y1 * p.z, p.z, (x1 * y1) * p.z);
    var q' := Coords(x2 * q.z, y2 * q.z, q.z, (x2 * y2) * q.z);
    CongRefl(p.z);
    CongRefl(q.z);
    SumEquiv(d, p, p', q, q');
    SumOfScaled(d, x1, y1, p.z, x2, y2, q.z);
  }

  lemma SumEquiv(d: int, p: Coords, p': Coords, q: Coords, q': Coords)
    requires Equiv(p, p') && Equiv(q, q')
    ensures Equiv(Sum(d, p, q), Sum(d, p', q'))
  {
    hide Cong;
    CongAdd(p.y, p'.y, p.x, p'.x);
    CongAdd(q.y, q'.y, q.x, q'.x);
    CongMul(p.y - p.x, p'.y - p'.x, q.y - q.x, q'.y - q'.x);
    CongMul(p.y + p.x, p'.y + p'.x, q.y + q.x, q'.y + q'.x);
    CongMul(p.t, p'.t, q.t, q'.t);
    CongMul(p.z, p'.z, q.z, q'.z);
    CongRefl(2 * d);
    CongRefl(2);
    CongMul(p.t * q.t, p'.t * q'.t, 2 * d, 2 * d);
    CongMul(2, 2, p.z * q.z, p'.z * q'.z);
    CombineEquiv((p.y - p.x) * (q.y - q.x), (p'.y - p'.x) * (q'.y - q'.x),
                 (p.y + p.x) * (q.y + q.x), (p'.y + p'.x) * (q'.y + q'.x),
                 (p.t * q.t) * (2 * d), (p'.t * q'.t) * (2 * d), 2 * (p.z * q.z), 2 * (p'.z * q'.z));
  }

  lemma CombineEquiv(a: int, a': int, b: int, b': int, c: int, c': int, d: int, d': int)
    requires Cong(a, a') && Cong(b, b') && Cong(c, c') && Cong(d, d')
    ensures Equiv(Coords(b - a, b + a, d + c, d - c), Coords(b' - a', b' + a', d' + c', d' - c'))
  {
    hide Cong;
    CongAdd(b, b', a, a');
    CongAdd(d, d', c, c');
  }

  lemma SumOfScaled(d: int, x1: int, y1: int, z1: int, x2: int, y2: int, z2: int)
    ensures Sum(d, Coords(x1 * z1, y1 * z1, z1, (x1 * y1) * z1), Coords(x2 * z2, y2 * z2, z2, (x2 * y2) * z2))
         == Coords(2 * (z1 * z2) * SumX(x1, y1, x2, y2), 2 * (z1 * z2) * SumY(x1, y1, x2, y2),
                   2 * (z1 * z2) * (1 + Delta(d, x1, y1, x2, y2)), 2 * (z1 * z2) * (1 - Delta(d, x1, y1, x2, y2)))
  {
    OuterIdentity(x1, y1, z1, x2, y2, z2);
    InnerIdentity(x1 * y1, z1, x2 * y2, z2, d);
  }

  lemma OuterIdentity(x1: int, y1: int, z1: int, x2: int, y2: int, z2: int)
    ensures (y1 * z1 + x1 * z1) * (y2 * z2 + x2 * z2) - (y1 * z1 - x1 * z1) * (y2 * z2 - x2 * z2) == 2 * (z1 * z2) * (x1 * y2 + x2 * y1)
    ensures (y1 * z1 + x1 * z1) * (y2 * z2 + x2 * z2) + (y1 * z1 - x1 * z1) * (y2 * z2 - x2 * z2) == 2 * (z1 * z2) * (y1 * y2 + x1 * x2)
  {
  }

  lemma InnerIdentity(u: int, z1: int, w: int, z2: int, d: int)
    ensures ((u * z1) * (w * z2)) * (2 * d) == 2 * (z1 * z2) * (d * (u * w))
    ensures 2 * (z1 * z2) * (1 + d * (u * w)) == 2 * (z1 * z2) + 2 * (z1 * z2) * (d * (u * w))
    ensures 2 * (z1 * z2) * (1 - d * (u * w)) == 2 * (z1 * z2) - 2 * (z1 * z2) * (d * (u * w))
  {
  }

  /** After the last four products the coordinates are those of the sum of the points. */
  lemma FinishIsTheSum(d: int, r: Coords, k: int, x1: int, y1: int, x2: int, y2: int, x3: int, y3: int)
    requires ScaledSum(d, r, k, x1, y1, x2, y2) && IsSum(d, x1, y1, x2, y2, x3, y3)
    ensures Affine(Finish(r), x3, y3)
    ensures Cong(Finish(r).z, (k * k) * ((1 + Delta(d, x1, y1, x2, y2)) * (1 - Delta(d, x1, y1, x2, y2))))
  {
    hide Cong, Delta, SumX, SumY;
    assert At(true, r.x, k);
    var g, f := 1 + Delta(d, x1, y1, x2, y2), 1 - Delta(d, x1, y1, x2, y2);
    var s, c := SumX(x1, y1, x2, y2), SumY(x1, y1, x2, y2);
    FractionBy(r.x, r.z, k, s, g, x3);
    FractionBy(r.y, r.t, k, c, f, y3);
    CongRefl(r.t);
    CongRefl(r.z);
    CongMul(r.x, x3 * r.z, r.t, r.t);
    CongMul(r.y, y3 * r.t, r.z, r.z);
    CongMul(r.x, x3 * r.z, r.y, y3 * r.t);
    FinishIdentity(x3, y3, r.z, r.t);
    CongMul(r.z, k * g, r.t, k * f);
    SquareOut(k, g, f);
  }

  lemma FinishIdentity(x: int, y: int, z: int, t: int)
    ensures (x * z) * t == x * (z * t) && (y * t) * z == y * (z * t) && (x * z) * (y * t) == (x * y) * (z * t)
  {
  }

  lemma SquareOut(k: int, g: int, f: int)
    ensures (k * g) * (k * f) == (k * k) * (g * f)
  {
  }

  lemma FractionBy(n: int, d: int, k: int, s: int, g: int, x: int)
    requires Cong(n, k * s) && Cong(d, k * g) && Cong(x * g, s)
    ensures Cong(n, x * d)
  {
    hide Cong;
    CongRefl(k);
    CongRefl(x);
    CongMul(k, k, x * g, s);
    CongSym(k * (x * g), k * s);
    CongMul(x, x, d, k * g);
    CongSym(x * d, x * (k * g));
    assert k * (x * g) == x * (k * g);
    CongTrans(n, k * s, k * (x * g));
    CongTrans(n, x * (k * g), x * d);
  }

  // ---- doubling ----

  /** On the curve, adding a point to itself gives twice each coordinate of doubling it. */
  lemma DoublingIsAdding(d: int, p: Coords)
    requires OnCurve(d, p)
    ensures var s, r := Sum(d, p, p), Doubled(p);
            Cong(s.x, 2 * r.x) && Cong(s.y, 2 * r.y) && Cong(s.z, 2 * r.z) && Cong(s.t, 2 * r.t)
  {
    hide Cong;
    OuterDoubling(p.x, p.y);
    CongRefl(Sum(d, p, p).x);
    CongRefl(Sum(d, p, p).y);
    var w := p.y * p.y - p.x * p.x;
    var v := p.z * p.z + d * (p.t * p.t);
    CongSym(w, v);
    CongRefl(2);
    CongMul(2, 2, v, w);
    CongRefl(4 * (p.z * p.z));
    CongAdd(4 * (p.z * p.z), 4 * (p.z * p.z), 2 * v, 2 * w);
    InnerDoubling(p.z * p.z, p.t * p.t, d);
  }

  lemma OuterDoubling(x: int, y: int)
    ensures (y + x) * (y + x) - (y - x) * (y - x) == 2 * ((x + y) * (x + y) - (y * y + x * x))
    ensures (y + x) * (y + x) + (y - x) * (y - x) == 2 * (y * y + x * x)
  {
  }

  lemma InnerDoubling(zz: int, tt: int, d: int)
    ensures 2 * zz + tt * (2 * d) == 2 * (zz + d * tt)
    ensures 2 * zz - tt * (2 * d) == 4 * zz - 2 * (zz + d * tt)
  {
  }

  /** Doubling doubles the point, scaled by Z^2; T is not looked at. */
  lemma DoubledIsScaled(d: int, p: Coords, x: int, y: int)
    requires Cong(p.x, x * p.z) && Cong(p.y, y * p.z) && OnAffine(d, x, y)
    ensures ScaledSum(d, Doubled(p), p.z * p.z, x, y, x, y)
  {
    hide Cong;
    var k := p.z * p.z;
    SquaresScaled(p.x, x, p.y, y, p.z);
    var xx, yy := k * (x * x), k * (y * y);
    CongAdd(p.y * p.y, yy, p.x * p.x, xx);
    CongAdd((p.x + p.y) * (p.x + p.y), k * ((x + y) * (x + y)), p.y * p.y + p.x * p.x, yy + xx);
    DoubledOuter(k, x, y);
    var w := p.y * p.y - p.x * p.x;
    var e := 1 + Delta(d, x, y, x, y);
    assert At(true, x, y);
    CongRefl(k);
    CongMul(k, k, y * y - x * x, e);
    CongTrans(w, k * (y * y - x * x), k * e);
    CongRefl(2 * k);
    CongAdd(2 * k, 2 * k, w, k * e);
    DoubledInner(k, Delta(d, x, y, x, y));
  }

  lemma SquaresScaled(X: int, x: int, Y: int, y: int, z: int)
    requires Cong(X, x * z) && Cong(Y, y * z)
    ensures Cong(X * X, (z * z) * (x * x)) && Cong(Y * Y, (z * z) * (y * y))
    ensures Cong((X + Y) * (X + Y), (z * z) * ((x + y) * (x + y)))
  {
    hide Cong;
    CongMul(X, x * z, X, x * z);
    CongMul(Y, y * z, Y, y * z);
    CongAdd(X, x * z, Y, y * z);
    CongMul(X + Y, x * z + y * z, X + Y, x * z + y * z);
    SquareScaled(x, z);
    SquareScaled(y, z);
    SquareScaled(x + y, z);
    Distribute(x, y, z);
  }

  lemma SquareScaled(x: int, z: int)
    ensures (x * z) * (x * z) == (z * z) * (x * x)
  {
  }

  lemma DoubledOuter(k: int, x: int, y: int)
    ensures k * ((x + y) * (x + y)) - (k * (y * y) + k * (x * x)) == k * SumX(x, y, x, y)
    ensures k * (y * y) + k * (x * x) == k * SumY(x, y, x, y)
    ensures k * (y * y) - k * (x * x) == k * (y * y - x * x)
  {
  }

  lemma DoubledInner(k: int, delta: int)
    ensures 2 * k - k * (1 + delta) == k * (1 - delta)
  {
  }

  // ---- staying on the curve ----

  /** Whatever the scale, the finished coordinates are on the curve and XY == ZT. */
  lemma FinishStaysOnCurve(d: int, r: Coords, k: int, x1: int, y1: int, x2: int, y2: int)
    requires OnAffine(d, x1, y1) && OnAffine(d, x2, y2) && ScaledSum(d, r, k, x1, y1, x2, y2)
    ensures OnCurve(d, Finish(r)) && Finish(r).x * Finish(r).y == Finish(r).z * Finish(r).t
  {
    hide Cong, SumX, SumY, Related;
    var s, c, g, f := SumX(x1, y1, x2, y2), SumY(x1, y1, x2, y2), 1 + Delta(d, x1, y1, x2, y2), 1 - Delta(d, x1, y1, x2, y2);
    assert At(true, r.x, k) && At(true, x1, y1) && At(true, x2, y2);
    Swap(r.x, r.y, r.z, r.t);
    SquaredProduct(r.y, r.z, k, c, g);
    SquaredProduct(r.x, r.t, k, s, f);
    SquaredProduct(r.z, r.t, k, g, f);
    SquaredProduct(r.x, r.y, k, s, c);
    NumeratorsRelated(x1, y1, x2, y2);
    EdwardsClosed(d, s, c, y1 * y1 - x1 * x1, y2 * y2 - x2 * x2, x1 * y1, x2 * y2, y1 * y1 + x1 * x1, y2 * y2 + x2 * x2,
                  Delta(d, x1, y1, x2, y2));
    CloseUp(d, (r.y * r.z) * (r.y * r.z), (r.x * r.t) * (r.x * r.t), (r.z * r.t) * (r.z * r.t), (r.x * r.y) * (r.x * r.y),
            (k * k) * (k * k), (c * g) * (c * g), (s * f) * (s * f), (g * f) * (g * f), (s * c) * (s * c));
  }

  lemma Swap(x: int, y: int, z: int, t: int)
    ensures (x * t) * (y * z) == (z * t) * (x * y)
  {
  }

  lemma SquaredProduct(a: int, b: int, k: int, u: int, v: int)
    requires Cong(a, k * u) && Cong(b, k * v)
    ensures Cong((a * b) * (a * b), (k * k) * (k * k) * ((u * v) * (u * v)))
  {
    hide Cong;
    CongMul(a, k * u, b, k * v);
    SquareOut(k, u, v);
    CongMul(a * b, (k * k) * (u * v), a * b, (k * k) * (u * v));
    SquareOut(k * k, u * v, u * v);
  }

  lemma CloseUp(d: int, yy: int, xx: int, zz: int, tt: int, k: int, a: int, b: int, e: int, h: int)
    requires Cong(yy, k * a) && Cong(xx, k * b) && Cong(zz, k * e) && Cong(tt, k * h) && Cong(a - b, e + d * h)
    ensures Cong(yy - xx, zz + d * tt)
  {
    hide Cong;
    CongAdd(yy, k * a, xx, k * b);
    CongRefl(k);
    CongRefl(d);
    CongMul(k, k, a - b, e + d * h);
    CongMul(d, d, tt, k * h);
    CongAdd(zz, k * e, d * tt, d * (k * h));
    CongSym(zz + d * tt, k * e + d * (k * h));
    Regroup(k, a, b, e, h, d);
    CongTrans(yy - xx, k * (a - b), k * (e + d * h));
    CongTrans(yy - xx, k * (e + d * h), zz + d * tt);
  }

  lemma Regroup(k: int, a: int, b: int, e: int, h: int, d: int)
    ensures k * a - k * b == k * (a - b) && k * e + d * (k * h) == k * (e + d * h)
  {
  }

  /** How the numerators s, c of the sum relate to y^2 - x^2, xy and y^2 + x^2 of its summands. */
  predicate Related(s: int, c: int, a: int, b: int, u: int, w: int, p: int, q: int) {
    && c * c - s * s == a * b && c * c + s * s == p * q + 4 * (u * w) && s * c == u * q + w * p
    && a * a == p * p - 4 * (u * u) && b * b == q * q - 4 * (w * w)
  }

  lemma NumeratorsRelated(x1: int, y1: int, x2: int, y2: int)
    ensures Related(SumX(x1, y1, x2, y2), SumY(x1, y1, x2, y2), y1 * y1 - x1 * x1, y2 * y2 - x2 * x2, x1 * y1, x2 * y2,
                    y1 * y1 + x1 * x1, y2 * y2 + x2 * x2)
  {
    SquaresOfSums(x1, y1, x2, y2);
    ProductOfSums(x1, y1, x2, y2);
    SumAndDifference(x1, y1);
    SumAndDifference(x2, y2);
  }

  /** The curve is closed under the law: the equation for the sum, cleared of denominators. */
  lemma EdwardsClosed(d: int, s: int, c: int, a: int, b: int, u: int, w: int, p: int, q: int, delta: int)
    requires Related(s, c, a, b, u, w, p, q) && delta == d * (u * w)
    requires Cong(a, 1 + d * (u * u)) && Cong(b, 1 + d * (w * w))
    ensures var g, f := 1 + delta, 1 - delta;
            Cong((c * g) * (c * g) - (s * f) * (s * f), (g * f) * (g * f) + d * ((s * c) * (s * c)))
  {
    hide Cong, Related;
    var m, n := d * (u * u), d * (w * w);
    CurveFactor(a, b, m, n);
    CurveFactor(b, a, n, m);
    MixedDelta(d, u, w);
    CongMul(a - b * m, 1 - m * n, b - a * n, 1 - m * n);
    EdwardsIdentity(s, c, a, b, u, w, p, q, d);
    var e := d * ((s * c) * (s * c));
    CongRefl(e);
    CongAdd((a - b * m) * (b - a * n), (1 - m * n) * (1 - m * n), e, e);
    DifferenceOfSquares(delta);
  }

  /** On both curves, a - b m is 1 - m n. */
  lemma CurveFactor(a: int, b: int, m: int, n: int)
    requires Cong(a, 1 + m) && Cong(b, 1 + n)
    ensures Cong(a - b * m, 1 - m * n)
  {
    hide Cong;
    CongRefl(m);
    CongMul(b, 1 + n, m, m);
    CongAdd(a, 1 + m, b * m, (1 + n) * m);
    Distribute(1, n, m);
  }

  lemma MixedDelta(d: int, u: int, w: int)
    ensures (d * (u * u)) * (d * (w * w)) == (d * (u * w)) * (d * (u * w)) == (d * (w * w)) * (d * (u * u))
  {
  }

  lemma DifferenceOfSquares(delta: int)
    ensures (1 + delta) * (1 - delta) == 1 - delta * delta
  {
  }

  lemma SquaresOfSums(x1: int, y1: int, x2: int, y2: int)
    ensures var s, c := x1 * y2 + x2 * y1, y1 * y2 + x1 * x2;
            && c * c - s * s == (y1 * y1 - x1 * x1) * (y2 * y2 - x2 * x2)
            && c * c + s * s == (y1 * y1 + x1 * x1) * (y2 * y2 + x2 * x2) + 4 * ((x1 * y1) * (x2 * y2))
  {
    SquareOfSum(x1 * y2, x2 * y1);
    SquareOfSum(y1 * y2, x1 * x2);
    SquareOfProduct(x1, y2);
    SquareOfProduct(x2, y1);
    SquareOfProduct(y1, y2);
    SquareOfProduct(x1, x2);
    MixedProducts(x1, y1, x2, y2);
    TwoByTwo(y1 * y1, x1 * x1, y2 * y2, x2 * x2);
    SquaresCombined(x1 * y2 + x2 * y1, y1 * y2 + x1 * x2, (x1 * y1) * (x2 * y2), y1 * y1, x1 * x1, y2 * y2, x2 * x2);
  }

  lemma SquareOfSum(a: int, b: int)
    ensures (a + b) * (a + b) == a * a + 2 * (a * b) + b * b
  {
  }

  lemma MixedProducts(x1: int, y1: int, x2: int, y2: int)
    ensures (x1 * y2) * (x2 * y1) == (x1 * y1) * (x2 * y2) == (y1 * y2) * (x1 * x2)
  {
  }

  lemma TwoByTwo(a: int, b: int, c: int, d: int)
    ensures (a - b) * (c - d) == a * c - a * d - b * c + b * d && (a + b) * (c + d) == a * c + a * d + b * c + b * d
  {
  }

  lemma SquaresCombined(s: int, c: int, m: int, a: int, b: int, e: int, f: int)
    requires s * s == b * e + 2 * m + f * a && c * c == a * e + 2 * m + b * f
    ensures c * c - s * s == (a - b) * (e - f) && c * c + s * s == (a + b) * (e + f) + 4 * m
  {
    TwoByTwo(a, b, e, f);
  }

  lemma ProductOfSums(x1: int, y1: int, x2: int, y2: int)
    ensures (x1 * y2 + x2 * y1) * (y1 * y2 + x1 * x2)
         == (x1 * y1) * (y2 * y2 + x2 * x2) + (x2 * y2) * (y1 * y1 + x1 * x1)
  {
  }

  lemma SumAndDifference(x: int, y: int)
    ensures (y * y - x * x) * (y * y - x * x) == (y * y + x * x) * (y * y + x * x) - 4 * ((x * y) * (x * y))
  {
  }

  /** A polynomial identity, with nothing taken modulo p. */
  lemma EdwardsIdentity(s: int, c: int, a: int, b: int, u: int, w: int, p: int, q: int, d: int)
    requires Related(s, c, a, b, u, w, p, q)
    ensures (c * (1 + d * (u * w))) * (c * (1 + d * (u * w))) - (s * (1 - d * (u * w))) * (s * (1 - d * (u * w)))
         == (a - b * (d * (u * u))) * (b - a * (d * (w * w))) + d * ((s * c) * (s * c))
  {
    var delta := d * (u * w);
    CrossTerms(u, w, p, q, a * a, b * b);
    SquareOfProduct(c, 1 + delta);
    SquareOfProduct(s, 1 - delta);
    ExpandLeft(c * c, s * s, delta);
    ExpandRight(a, b, d, u * u, w * w);
    MixedDelta(d, u, w);
    Collect(d, c * c + s * s, u * w, (s * c) * (s * c), (a * a) * (w * w) + (b * b) * (u * u));
  }

  lemma CrossTerms(u: int, w: int, p: int, q: int, aa: int, bb: int)
    requires aa == p * p - 4 * (u * u) && bb == q * q - 4 * (w * w)
    ensures (u * q + w * p) * (u * q + w * p) == aa * (w * w) + bb * (u * u) + 2 * ((u * w) * (p * q + 4 * (u * w)))
  {
  }

  lemma SquareOfProduct(c: int, g: int)
    ensures (c * g) * (c * g) == (c * c) * (g * g)
  {
  }

  lemma ExpandLeft(cc: int, ss: int, delta: int)
    ensures cc * ((1 + delta) * (1 + delta)) - ss * ((1 - delta) * (1 - delta))
         == (cc - ss) * (1 + delta * delta) + 2 * (delta * (cc + ss))
  {
  }

  lemma ExpandRight(a: int, b: int, d: int, uu: int, ww: int)
    ensures (a - b * (d * uu)) * (b - a * (d * ww))
         == (a * b) * (1 + (d * uu) * (d * ww)) - d * ((a * a) * ww + (b * b) * uu)
  {
  }

  lemma Collect(d: int, sum: int, uw: int, sc2: int, mix: int)
    requires sc2 == mix + 2 * (uw * sum)
    ensures 2 * ((d * uw) * sum) == d * sc2 - d * mix
  {
    assert d * (2 * (uw * sum)) == 2 * ((d * uw) * sum);
  }
}
