/**
 The two scalar multiplications on limbs and bytes, for any group of affine points in
 the sense of `CurvePoints`. The digits and the order of the operations are those of
 `ScalarMult`; here every operation works on coordinates, and the T coordinate that a
 partial conversion leaves behind is carried along as it is.

 Line numbers are those of src/ed25519-donna/ed25519-donna-impl-base.h.
 */
module LimbMult {
  import opened Bits
  import opened Bytes
  import opened Digits
  import opened Groups
  import opened Scalars
  import opened Recode
  import opened Field
  import opened Points
  import opened PointLaws
  import opened BaseNiels
  import opened CurvePoints
  import ScalarMult

  // ---- s1·P1 + s2·B ----

  ghost predicate OddCached<P>(e: Affines<P>, p: P, table: seq<Pniels>) {
    forall i :: 0 <= i < |table| ==> Cached(e, table[i], Times(e.g, 2 * i + 1, p))
  }

  ghost predicate OddPlain<P>(e: Affines<P>, p: P, table: seq<Niels>) {
    forall i :: 0 <= i < |table| ==> CachedPlain(e, table[i], Times(e.g, 2 * i + 1, p))
  }

  lemma EdwardsIsAbelian<P(!new)>(e: Affines<P>)
    requires IsEdwards(e)
    ensures IsAbelian(e.g)
  {
  }

  /** Lines 211-214. */
  method OddTable<P(!new)>(ghost e: Affines<P>, p1: Extended, ghost p: P) returns (pre1: seq<Pniels>)
    requires IsEdwards(e) && Full(e, p1, p)
    ensures |pre1| == ScalarMult.S1_TABLE_SIZE && OddCached(e, p, pre1)
  {
    hide Times, IsEdwards, Full, Partial, Done, Cached, IsAbelian;
    EdwardsIsAbelian(e);
    FullIsPartial(e, p1, p);
    var t := DoublePoint(e, p1, p);
    var d1 := ToFullPoint(e, t, e.g.add(p, p));
    var first := CachePoint(e, p1, p);
    pre1 := [first];
    TimesOne(e.g, p);
    TimesAdd(e.g, 1, 1, p);
    var i: nat := 0;
    while i < ScalarMult.S1_TABLE_SIZE - 1
      invariant i <= ScalarMult.S1_TABLE_SIZE - 1 && |pre1| == i + 1 && OddCached(e, p, pre1)
    {
      TimesAdd(e.g, 2, 2 * i + 1, p);
      var next := AddToCached(e, d1, pre1[i], e.g.add(p, p), Times(e.g, 2 * i + 1, p));
      pre1 := pre1 + [next];
      i := i + 1;
    }
  }

  /** An odd digit's multiple is at index |d| / 2, with the sign of the digit. */
  lemma OddMultiple<P(!new)>(g: Group<P>, p: P, d: int)
    requires IsAbelian(g) && d % 2 == 1
    ensures Times(g, d, p) == SignedPoint(g, Times(g, 2 * (ScalarMult.Abs(d) / 2) + 1, p), d < 0)
  {
    hide Times;
    assert ScalarMult.Abs(d) == 2 * (ScalarMult.Abs(d) / 2) + 1;
    if d < 0 {
      TimesNeg(g, ScalarMult.Abs(d), p);
    }
  }

  /** Lines 223-226: the first digit, if it is not zero. */
  method AddFirst<P(!new)>(ghost e: Affines<P>, t0: P1p1, r0: Extended, pre1: seq<Pniels>, d: int, ghost p: P, ghost x: P)
      returns (t: P1p1, r: Extended)
    requires IsEdwards(e) && Done(e, t0, x)
    requires |pre1| == ScalarMult.S1_TABLE_SIZE && OddCached(e, p, pre1) && IsWindowDigit(d, 15)
    ensures Done(e, t, e.g.add(x, Times(e.g, d, p)))
  {
    hide Times, IsEdwards, Full, Done, Cached, IsAbelian;
    EdwardsIsAbelian(e);
    t, r := t0, r0;
    if d != 0 {
      var i := ScalarMult.Abs(d) / 2;
      OddMultiple(e.g, p, d);
      r := ToFullPoint(e, t, x);
      t := AddCachedPoint(e, r, pre1[i], d < 0, x, Times(e.g, 2 * i + 1, p));
    } else {
      ScalarMult.TimesNone(e.g, p, x);
    }
  }

  /** Lines 227-230: the second digit, from the table of the base point. */
  method AddSecond<P(!new)>(ghost e: Affines<P>, t0: P1p1, r0: Extended, sliding: seq<Niels>, d: int, ghost p: P, ghost x: P)
      returns (t: P1p1, r: Extended)
    requires IsEdwards(e) && Done(e, t0, x)
    requires |sliding| == ScalarMult.S2_TABLE_SIZE && OddPlain(e, p, sliding) && IsWindowDigit(d, 63)
    ensures Done(e, t, e.g.add(x, Times(e.g, d, p)))
  {
    hide Times, IsEdwards, Full, Done, CachedPlain, IsAbelian;
    EdwardsIsAbelian(e);
    t, r := t0, r0;
    if d != 0 {
      var i := ScalarMult.Abs(d) / 2;
      OddMultiple(e.g, p, d);
      r := ToFullPoint(e, t, x);
      t := AddPlainPoint(e, r, sliding[i], d < 0, x, Times(e.g, 2 * i + 1, p));
    } else {
      ScalarMult.TimesNone(e.g, p, x);
    }
  }

  /** Lines 222-231. */
  method DigitStep<P(!new)>(ghost e: Affines<P>, r0: Extended, pre1: seq<Pniels>, sliding: seq<Niels>, d1: int, d2: int,
                            ghost p: P, ghost b: P, ghost h1: int, ghost h2: int) returns (r: Extended)
    requires IsEdwards(e) && Partial(e, r0, ScalarMult.Accumulated(e.g, p, b, h1, h2))
    requires |pre1| == ScalarMult.S1_TABLE_SIZE && OddCached(e, p, pre1) && IsWindowDigit(d1, 15)
    requires |sliding| == ScalarMult.S2_TABLE_SIZE && OddPlain(e, b, sliding) && IsWindowDigit(d2, 63)
    ensures Partial(e, r, ScalarMult.Accumulated(e.g, p, b, d1 + 2 * h1, d2 + 2 * h2))
  {
    hide Times, IsEdwards, Partial, Done, OddCached, OddPlain, IsAbelian, IsWindowDigit;
    EdwardsIsAbelian(e);
    ghost var x := ScalarMult.Accumulated(e.g, p, b, h1, h2);
    ScalarMult.DoubleSum(e.g, h1, h2, p, b);
    ScalarMult.AddLeft(e.g, 2 * h1, d1, 2 * h2, p, b);
    ScalarMult.AddRight(e.g, 2 * h1 + d1, 2 * h2, d2, p, b);
    var t := DoublePoint(e, r0, x);
    var r1;
    t, r1 := AddFirst(e, t, r0, pre1, d1, p, e.g.add(x, x));
    t, r1 := AddSecond(e, t, r1, sliding, d2, b, e.g.add(e.g.add(x, x), Times(e.g, d1, p)));
    r := ToPartialPoint(e, t, r1, ScalarMult.Accumulated(e.g, p, b, 2 * h1 + d1, 2 * h2 + d2));
  }

  lemma HornerAt(s: seq<int>, i: nat)
    requires i < |s|
    ensures Horner(s, 2, i) == s[i] + 2 * Horner(s, 2, i + 1)
  {
  }

  /** Limbs of s1·P1 + s2·B, for all scalars up to 2^255. */
  method DoubleScalarMult<P(!new)>(ghost e: Affines<P>, p1: Extended, s1: Bignum, s2: Bignum, sliding: seq<Niels>,
                                   ghost p: P, ghost b: P) returns (r: Extended)
    requires IsEdwards(e) && Full(e, p1, p)
    requires Normal(s1) && Val(s1) <= TWO255 && Normal(s2) && Val(s2) <= TWO255
    requires |sliding| == ScalarMult.S2_TABLE_SIZE && OddPlain(e, b, sliding)
    ensures Partial(e, r, e.g.add(Times(e.g, Val(s1), p), Times(e.g, Val(s2), b)))
  {
    hide Times, Val, Normal, Pow, Horner, IsWindowDigit, OddCached, OddPlain, IsEdwards, Full, Partial, IsAbelian;
    EdwardsIsAbelian(e);
    ScalarMult.WindowBounds();
    var d := ScalarMult.SlidingDigits(s1, ScalarMult.S1_SWINDOWSIZE);
    var f := ScalarMult.SlidingDigits(s2, ScalarMult.S2_SWINDOWSIZE);
    var pre1 := OddTable(e, p1, p);
    r := NeutralPoint(e);
    FullIsPartial(e, r, e.g.zero);
    var i := ScalarMult.TopDigit(d, f);
    ScalarMult.HornerOfZeros(d, 2, i);
    ScalarMult.HornerOfZeros(f, 2, i);
    ScalarMult.StartsNeutral(e.g, p, b);
    while i > 0
      invariant 0 <= i <= 256
      invariant Partial(e, r, ScalarMult.Accumulated(e.g, p, b, Horner(d, 2, i), Horner(f, 2, i)))
    {
      i := i - 1;
      HornerAt(d, i);
      HornerAt(f, i);
      r := DigitStep(e, r, pre1, sliding, d[i], f[i], p, b, Horner(d, 2, i + 1), Horner(f, 2, i + 1));
    }
  }

  // ---- s·B ----

  /** The third coordinate of the entries of a row: 2xy in the first, 2dxy in the others. */
  ghost function RowFactor(pos: nat): int {
    if pos == 0 then 2 else 2 * D()
  }

  /** Row pos, entry i holds the coordinates of (i + 1)·256^pos·B. */
  ghost predicate BaseBytes<P>(e: Affines<P>, base: P, table: seq<seq<byte>>) {
    && |table| == 256 && (forall i :: 0 <= i < 256 ==> |table[i]| == 96)
    && forall pos, i :: 0 <= pos < 32 && 0 <= i < 8 ==> EntryBytes(e, base, table, pos, i)
  }

  ghost predicate EntryBytes<P>(e: Affines<P>, base: P, table: seq<seq<byte>>, pos: nat, i: nat)
    requires |table| == 256 && pos < 32 && i < 8
  {
    Packs(table[pos * 8 + i], Plain(e, Times(e.g, (i + 1) * Pow(256, pos), base)), RowFactor(pos))
  }

  /** q caches p with the factor k on its third coordinate. */
  ghost predicate Scaled<P>(e: Affines<P>, q: Niels, p: P, k: int) {
    Selected(q) && CachesTimes(q, Plain(e, p), k)
  }

  lemma CachesTimesEquiv(q: Niels, a: Coords, b: Coords, k: int)
    requires CachesTimes(q, a, k) && Cong(a.x, b.x) && Cong(a.y, b.y) && Cong(a.t, b.t) && b.z == 1
    ensures CachesTimes(q, b, k)
  {
    hide Cong, Value;
    ThenSub(Value(q.ysubx), a.y, b.y, a.x, b.x);
    ThenAdd(Value(q.xaddy), a.y, b.y, a.x, b.x);
    CongRefl(k);
    ThenMul(Value(q.t2d), k, k, a.t, b.t);
  }

  /** The coordinates of the negated point, or of the point. */
  lemma SignedPlain<P(!new)>(e: Affines<P>, p: P, minus: bool)
    requires IsEdwards(e)
    ensures var a, b := Signed(Plain(e, p), minus), Plain(e, SignedPoint(e.g, p, minus));
            Cong(a.x, b.x) && Cong(a.y, b.y) && Cong(a.t, b.t)
  {
    hide Cong, IsEdwards, OnAffine;
    NegatedPoint(e, p);
    CongRefl(e.x(p));
    CongRefl(e.y(p));
    CongRefl(e.x(p) * e.y(p));
    if minus {
      var q := e.g.neg(p);
      CongSym(e.x(q), 0 - e.x(p));
      CongSym(e.y(q), e.y(p));
      CongMul(0 - e.x(p), e.x(q), e.y(p), e.y(q));
      NegatedProducts(e.x(p), e.y(p), 1);
    }
  }

  /** The neutral entry is that of zero times the base point. */
  lemma NeutralIsZero<P(!new)>(e: Affines<P>, k: int)
    requires IsEdwards(e)
    ensures Packs(NeutralEntry(), Plain(e, e.g.zero), k)
  {
    hide Cong, LE, NeutralEntry, IsAbelian, Adds, Negates;
    NeutralPacks(k);
    var x, y := e.x(e.g.zero), e.y(e.g.zero);
    CongSym(x, 0);
    CongSym(y, 1);
    CongMul(0, x, 1, y);
    PacksEquiv(NeutralEntry(), Coords(0, 1, 1, 0), Plain(e, e.g.zero), k);
  }

  lemma PacksEquiv(b: seq<byte>, a: Coords, c: Coords, k: int)
    requires Packs(b, a, k) && Cong(a.x, c.x) && Cong(a.y, c.y) && Cong(a.t, c.t) && c.z == 1
    ensures Packs(b, c, k)
  {
    hide Cong, LE;
    ThenSub(LE(b[..32]) % TWO255, a.y, c.y, a.x, c.x);
    ThenAdd(LE(b[32..64]) % TWO255, a.y, c.y, a.x, c.x);
    CongRefl(k);
    ThenMul(LE(b[64..]) % TWO255, k, k, a.t, c.t);
  }

  /** The entry for |b| in row pos holds |b|·256^pos·B. */
  lemma ChosenBytes<P(!new)>(e: Affines<P>, base: P, table: seq<seq<byte>>, pos: nat, u: nat)
    requires IsEdwards(e) && BaseBytes(e, base, table) && pos < 32 && u <= 8
    ensures Packs(Entry(table, pos, u), Plain(e, Times(e.g, u * Pow(256, pos), base)), RowFactor(pos))
  {
    hide IsEdwards, Packs, Pow, NeutralEntry;
    if u == 0 {
      assert u * Pow(256, pos) == 0;
      NeutralIsZero(e, RowFactor(pos));
    } else {
      assert EntryBytes(e, base, table, pos, u - 1);
    }
  }

  /** Lines 239-257: the entry of b·256^pos·B. */
  method Choose<P(!new)>(ghost e: Affines<P>, table: seq<seq<byte>>, pos: nat, b: int, ghost base: P) returns (t: Niels)
    requires IsEdwards(e) && BaseBytes(e, base, table) && pos < 32 && -8 <= b <= 8
    ensures Scaled(e, t, Times(e.g, b * Pow(256, pos), base), RowFactor(pos))
  {
    hide Times, Pow, IsEdwards, Packs, CachesTimes, Signed, Entry, RowFactor, IsAbelian, EntryBytes;
    EdwardsIsAbelian(e);
    ghost var u := ScalarMult.Abs(b);
    ghost var q := Times(e.g, u * Pow(256, pos), base);
    ChosenBytes(e, base, table, pos, u);
    t := ChooseEntry(table, pos, b, Plain(e, q), RowFactor(pos));
    SignedPlain(e, q, b < 0);
    CachesTimesEquiv(t, Signed(Plain(e, q), b < 0), Plain(e, SignedPoint(e.g, q, b < 0)), RowFactor(pos));
    SignedMultiple(e.g, b, Pow(256, pos), base);
  }

  lemma SignedMultiple<P(!new)>(g: Group<P>, b: int, n: nat, p: P)
    requires IsAbelian(g)
    ensures SignedPoint(g, Times(g, ScalarMult.Abs(b) * n, p), b < 0) == Times(g, b * n, p)
  {
    hide Times;
    if b < 0 {
      MulDifference(0, b, n);
      TimesNeg(g, (0 - b) * n, p);
    }
  }

  lemma ScaledIsPlain<P>(e: Affines<P>, t: Niels, p: P)
    requires Scaled(e, t, p, 2 * D())
    ensures CachedPlain(e, t, p)
  {
    hide Cong, Value, D;
  }

  /** Lines 271-274 and 282-285: the digits from `from` on, every other one. */
  method AddEveryOther<P(!new)>(ghost e: Affines<P>, table: seq<seq<byte>>, b: seq<int>, from: nat, r0: Extended, ghost base: P,
                                ghost x: P) returns (r: Extended)
    requires IsEdwards(e) && BaseBytes(e, base, table) && Full(e, r0, x)
    requires |b| == 64 && 2 <= from <= 64 && forall k :: 0 <= k < 64 ==> -8 <= b[k] <= 8
    ensures Full(e, r, e.g.add(x, Times(e.g, ScalarMult.EveryOther(b, from), base)))
  {
    hide Times, Pow, BaseBytes, IsEdwards, Full, Scaled, CachedPlain, IsAbelian;
    EdwardsIsAbelian(e);
    r := r0;
    var i: nat := from;
    ghost var sum := 0;
    ScalarMult.TimesNone(e.g, base, x);
    while i < 64
      invariant from <= i <= 65
      invariant sum + ScalarMult.EveryOther(b, i) == ScalarMult.EveryOther(b, from)
      invariant Full(e, r, e.g.add(x, Times(e.g, sum, base)))
    {
      var t := Choose(e, table, i / 2, b[i], base);
      ghost var term := b[i] * Pow(256, i / 2);
      ScaledIsPlain(e, t, Times(e.g, term, base));
      TimesAdd(e.g, sum, term, base);
      Associate(e.g, x, Times(e.g, sum, base), Times(e.g, term, base));
      r := AddPlainInPlace(e, r, t, e.g.add(x, Times(e.g, sum, base)), Times(e.g, term, base));
      sum := sum + term;
      i := i + 2;
    }
  }

  /** Lines 275-278: four doublings, T only after the last. */
  method SixteenFold<P(!new)>(ghost e: Affines<P>, r0: Extended, ghost n: int, ghost base: P) returns (r: Extended)
    requires IsEdwards(e) && Full(e, r0, Times(e.g, n, base))
    ensures Full(e, r, Times(e.g, 16 * n, base))
  {
    hide Times, IsEdwards, Full, Partial, Done, IsAbelian;
    EdwardsIsAbelian(e);
    ScalarMult.SixteenTimes(e.g, n, base);
    ghost var x1 := Times(e.g, n, base);
    ghost var x2 := e.g.add(x1, x1);
    ghost var x4 := e.g.add(x2, x2);
    ghost var x8 := e.g.add(x4, x4);
    FullIsPartial(e, r0, x1);
    var t := DoublePoint(e, r0, x1);
    r := ToPartialPoint(e, t, r0, x2);
    t := DoublePoint(e, r, x2);
    r := ToPartialPoint(e, t, r, x4);
    t := DoublePoint(e, r, x4);
    r := ToPartialPoint(e, t, r, x8);
    t := DoublePoint(e, r, x8);
    r := ToFullPoint(e, t, e.g.add(x8, x8));
  }

  /** Lines 265-270: the first odd digit, from its entry with 2xy. */
  method StartMultiple<P(!new)>(ghost e: Affines<P>, table: seq<seq<byte>>, b: int, ghost base: P) returns (r: Extended)
    requires IsEdwards(e) && BaseBytes(e, base, table) && -8 <= b <= 8
    ensures Full(e, r, Times(e.g, b, base))
  {
    hide Times, IsEdwards, BaseBytes, CachesTimes, Affine, Value, Invertible, Cong;
    ScalarMult.UnitPower(b);
    var t := Choose(e, table, 0, b, base);
    ghost var c := Plain(e, Times(e.g, b, base));
    CongRefl(c.t);
    OneAndTwo();
    r := StartPoint(t, c);
  }

  /** Lines 279-281: the first even digit, its entry multiplied by d. */
  method AddFirstEven<P(!new)>(ghost e: Affines<P>, table: seq<seq<byte>>, b: int, r0: Extended, ghost base: P, ghost x: P)
      returns (r: Extended)
    requires IsEdwards(e) && BaseBytes(e, base, table) && -8 <= b <= 8 && Full(e, r0, x)
    ensures Full(e, r, e.g.add(x, Times(e.g, b, base)))
  {
    hide Times, IsEdwards, BaseBytes, CachesTimes, CachesAffine, Full, D;
    ScalarMult.UnitPower(b);
    var t := Choose(e, table, 0, b, base);
    t := ScaleByD(t, Plain(e, Times(e.g, b, base)));
    r := AddPlainInPlace(e, r0, t, x, Times(e.g, b, base));
  }

  /** Limbs of s·B for every s below 2^255. */
  method ScalarMultBase<P(!new)>(ghost e: Affines<P>, table: seq<seq<byte>>, s: Bignum, ghost base: P) returns (r: Extended)
    requires IsEdwards(e) && BaseBytes(e, base, table)
    requires Normal(s) && Val(s) < TWO255
    ensures Full(e, r, Times(e.g, Val(s), base))
  {
    hide Times, Pow, BaseBytes, SeqVal, Val, Normal, ScalarMult.EveryOther, IsEdwards, Full, IsAbelian;
    EdwardsIsAbelian(e);
    var b := ScalarMult.Window4(s);
    ScalarMult.OddAndEvenDigits(b);
    ScalarMult.EveryOtherStarts(b);
    ghost var odd, even := ScalarMult.EveryOther(b, 1), ScalarMult.EveryOther(b, 2);
    r := StartMultiple(e, table, b[1], base);
    r := AddEveryOther(e, table, b, 3, r, base, Times(e.g, b[1], base));
    TimesAdd(e.g, b[1], ScalarMult.EveryOther(b, 3), base);
    r := SixteenFold(e, r, odd, base);
    r := AddFirstEven(e, table, b[0], r, base, Times(e.g, 16 * odd, base));
    TimesAdd(e.g, 16 * odd, b[0], base);
    r := AddEveryOther(e, table, b, 2, r, base, Times(e.g, 16 * odd + b[0], base));
    TimesAdd(e.g, 16 * odd + b[0], even, base);
  }
}
