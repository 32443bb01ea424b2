/**
 The two scalar multiplications of signing and verifying, over any abelian group.

 A point in memory is its group element together with what the next operation relies
 on: whether the T coordinate belongs to it (a partial conversion leaves T stale), and
 whether a table entry's third coordinate carries the curve constant d (the eight
 entries of the first row of the base table do not).

 Line numbers are those of src/ed25519-donna/ed25519-donna-impl-base.h.
 */
module ScalarMult {
  import opened Bits
  import opened Digits
  import opened Groups
  import opened Scalars
  import opened Recode

  datatype Extended<P> = Extended(value: P, hasT: bool)   // ge25519: x, y, z and t
  datatype Completed<P> = Completed(value: P)              // ge25519_p1p1
  datatype Cached<P> = Cached(value: P, scaled: bool)      // ge25519_niels, ge25519_pniels

  const S1_SWINDOWSIZE: nat := 5
  const S2_SWINDOWSIZE: nat := 7
  const S1_TABLE_SIZE: nat := 8
  const S2_TABLE_SIZE: nat := 32

  // ---- point operations ----

  /** Reads x, y and z only. */
  function DoubleP1p1<P>(g: Group<P>, p: Extended<P>): Completed<P> {
    Completed(g.add(p.value, p.value))
  }

  function ToPartial<P>(p: Completed<P>): Extended<P> {
    Extended(p.value, false)
  }

  function ToFull<P>(p: Completed<P>): Extended<P> {
    Extended(p.value, true)
  }

  /** Adds the cached point, or subtracts it with the sign bit set. Reads t. */
  function CachedAddP1p1<P>(g: Group<P>, p: Extended<P>, q: Cached<P>, signbit: nat): Completed<P>
    requires p.hasT && q.scaled && signbit <= 1
  {
    Completed(g.add(p.value, if signbit == 0 then q.value else g.neg(q.value)))
  }

  function FullToPniels<P>(p: Extended<P>): Cached<P>
    requires p.hasT
  {
    Cached(p.value, true)
  }

  function PnielsAdd<P>(g: Group<P>, p: Extended<P>, q: Cached<P>): Cached<P>
    requires p.hasT && q.scaled
  {
    Cached(g.add(p.value, q.value), true)
  }

  function NielsAdd2<P>(g: Group<P>, r: Extended<P>, q: Cached<P>): Extended<P>
    requires r.hasT && q.scaled
  {
    Extended(g.add(r.value, q.value), true)
  }

  function Neutral<P>(g: Group<P>): Extended<P> {
    Extended(g.zero, true)
  }

  function SignBit(d: int): nat {
    if d < 0 then 1 else 0
  }

  function Abs(d: int): nat {
    if d < 0 then -d else d
  }

  // ---- the table of odd multiples ----

  ghost predicate OddMultiples<P>(g: Group<P>, p: P, table: seq<Cached<P>>) {
    forall i :: 0 <= i < |table| ==> table[i].scaled && table[i].value == Times(g, 2 * i + 1, p)
  }

  /** Lines 211-214. */
  method OddTable<P(!new)>(g: Group<P>, p1: Extended<P>) returns (pre1: seq<Cached<P>>)
    requires IsAbelian(g) && p1.hasT
    ensures |pre1| == S1_TABLE_SIZE && OddMultiples(g, p1.value, pre1)
  {
    hide Times;
    var d1 := ToFull(DoubleP1p1(g, p1));
    pre1 := [FullToPniels(p1)];
    TimesOne(g, p1.value);
    TimesAdd(g, 1, 1, p1.value);
    var i: nat := 0;
    while i < S1_TABLE_SIZE - 1
      invariant i <= S1_TABLE_SIZE - 1 && |pre1| == i + 1 && OddMultiples(g, p1.value, pre1)
    {
      TimesAdd(g, 2, 2 * i + 1, p1.value);
      pre1 := pre1 + [PnielsAdd(g, d1, pre1[i])];
      i := i + 1;
    }
  }

  /** An odd digit finds its multiple at index |d| / 2, and the sign bit does the rest. */
  lemma OddDigit<P(!new)>(g: Group<P>, p: P, table: seq<Cached<P>>, d: int)
    requires IsAbelian(g) && OddMultiples(g, p, table) && d % 2 == 1 && Abs(d) < 2 * |table|
    ensures Abs(d) / 2 < |table| && table[Abs(d) / 2].scaled
    ensures var q := table[Abs(d) / 2].value;
            Times(g, d, p) == if SignBit(d) == 0 then q else g.neg(q)
  {
    hide Times;
    var i := Abs(d) / 2;
    assert Abs(d) == 2 * i + 1;
    if d < 0 {
      TimesNeg(g, Abs(d), p);
    }
  }

  // ---- s1·P1 + s2·B ----

  /** (2 h1)·P + (2 h2)·Q */
  lemma DoubleSum<P(!new)>(g: Group<P>, h1: int, h2: int, p: P, q: P)
    requires IsAbelian(g)
    ensures var x := g.add(Times(g, h1, p), Times(g, h2, q));
            g.add(x, x) == g.add(Times(g, 2 * h1, p), Times(g, 2 * h2, q))
  {
    hide Times;
    TimesAdd(g, h1, h1, p);
    TimesAdd(g, h2, h2, q);
    Interchange(g, Times(g, h1, p), Times(g, h2, q), Times(g, h1, p), Times(g, h2, q));
  }

  lemma AddLeft<P(!new)>(g: Group<P>, h1: int, d: int, h2: int, p: P, q: P)
    requires IsAbelian(g)
    ensures g.add(g.add(Times(g, h1, p), Times(g, h2, q)), Times(g, d, p))
         == g.add(Times(g, h1 + d, p), Times(g, h2, q))
  {
    hide Times;
    TimesAdd(g, h1, d, p);
    SwapLast(g, Times(g, h1, p), Times(g, h2, q), Times(g, d, p));
  }

  lemma AddRight<P(!new)>(g: Group<P>, h1: int, h2: int, d: int, p: P, q: P)
    requires IsAbelian(g)
    ensures g.add(g.add(Times(g, h1, p), Times(g, h2, q)), Times(g, d, q))
         == g.add(Times(g, h1, p), Times(g, h2 + d, q))
  {
    hide Times;
    TimesAdd(g, h2, d, q);
    Associate(g, Times(g, h1, p), Times(g, h2, q), Times(g, d, q));
  }

  ghost function Accumulated<P>(g: Group<P>, p: P, q: P, h1: int, h2: int): P {
    g.add(Times(g, h1, p), Times(g, h2, q))
  }

  /** Lines 222-231: double, and add the digits that are not zero. */
  method DigitStep<P(!new)>(g: Group<P>, r: Extended<P>, p1: P, base: P, pre1: seq<Cached<P>>, sliding: seq<Cached<P>>,
                            d1: int, d2: int, ghost h1: int, ghost h2: int) returns (r': Extended<P>)
    requires IsAbelian(g)
    requires |pre1| == S1_TABLE_SIZE && OddMultiples(g, p1, pre1) && IsWindowDigit(d1, 15)
    requires |sliding| == S2_TABLE_SIZE && OddMultiples(g, base, sliding) && IsWindowDigit(d2, 63)
    requires r.value == Accumulated(g, p1, base, h1, h2)
    ensures r'.value == Accumulated(g, p1, base, d1 + 2 * h1, d2 + 2 * h2)
  {
    hide Times;
    DoubleSum(g, h1, h2, p1, base);
    var t := DoubleP1p1(g, r);
    r' := r;
    if d1 != 0 {
      OddDigit(g, p1, pre1, d1);
      AddLeft(g, 2 * h1, d1, 2 * h2, p1, base);
      r' := ToFull(t);
      t := CachedAddP1p1(g, r', pre1[Abs(d1) / 2], SignBit(d1));
    }
    if d2 != 0 {
      OddDigit(g, base, sliding, d2);
      AddRight(g, 2 * h1 + d1, 2 * h2, d2, p1, base);
      r' := ToFull(t);
      t := CachedAddP1p1(g, r', sliding[Abs(d2) / 2], SignBit(d2));
    }
    r' := ToPartial(t);
  }

  lemma {:induction false} HornerOfZeros(s: seq<int>, b: nat, i: nat)
    requires forall k :: i <= k < |s| ==> s[k] == 0
    ensures Horner(s, b, i) == 0
    decreases |s| - i
  {
    if i < |s| {
      HornerOfZeros(s, b, i + 1);
    }
  }

  lemma WindowBounds()
    ensures Pow(2, 4) == 16 && Pow(2, 6) == 64
  {
  }

  method SlidingDigits(s: Bignum, w: nat) returns (digits: seq<int>)
    requires Normal(s) && Val(s) <= TWO255 && 2 <= w <= 8
    ensures |digits| == 256 && Horner(digits, 2, 0) == Val(s)
    ensures forall k :: 0 <= k < 256 ==> IsWindowDigit(digits[k], Pow(2, w - 1) - 1)
  {
    hide Val, SeqVal, Pow;
    var slide := new int[256];
    ContractSlidingWindow(slide, s, w);
    digits := slide[..];
    HornerIsValue(digits, 2);
  }

  /** s1·P1 + s2·B for all scalars up to 2^255, with `sliding` the table of odd multiples of B. */
  method DoubleScalarMultVartime<P(!new)>(g: Group<P>, p1: Extended<P>, s1: Bignum, s2: Bignum, base: P,
                                          sliding: seq<Cached<P>>) returns (r: Extended<P>)
    requires IsAbelian(g) && p1.hasT
    requires Normal(s1) && Val(s1) <= TWO255 && Normal(s2) && Val(s2) <= TWO255
    requires |sliding| == S2_TABLE_SIZE && OddMultiples(g, base, sliding)
    ensures r.value == g.add(Times(g, Val(s1), p1.value), Times(g, Val(s2), base))
  {
    hide Times, Val, Pow, OddMultiples;
    WindowBounds();
    var a := SlidingDigits(s1, S1_SWINDOWSIZE);
    var b := SlidingDigits(s2, S2_SWINDOWSIZE);
    var pre1 := OddTable(g, p1);
    r := Neutral(g);
    var i := TopDigit(a, b);
    HornerOfZeros(a, 2, i);
    HornerOfZeros(b, 2, i);
    StartsNeutral(g, p1.value, base);
    while i > 0
      invariant 0 <= i <= 256
      invariant r.value == Accumulated(g, p1.value, base, Horner(a, 2, i), Horner(b, 2, i))
    {
      i := i - 1;
      r := DigitStep(g, r, p1.value, base, pre1, sliding, a[i], b[i], Horner(a, 2, i + 1), Horner(b, 2, i + 1));
    }
  }

  lemma StartsNeutral<P(!new)>(g: Group<P>, p: P, q: P)
    requires IsAbelian(g)
    ensures Accumulated(g, p, q, 0, 0) == g.zero
  {
    Unit(g, g.zero);
  }

  /** Lines 218-220: one past the highest place where either digit is nonzero. */
  method TopDigit(a: seq<int>, b: seq<int>) returns (i: nat)
    requires |a| == 256 && |b| == 256
    ensures i <= 256 && forall k :: i <= k < 256 ==> a[k] == 0 && b[k] == 0
  {
    i := 256;
    while i > 0 && a[i - 1] == 0 && b[i - 1] == 0
      invariant i <= 256 && forall k :: i <= k < 256 ==> a[k] == 0 && b[k] == 0
    {
      i := i - 1;
    }
  }

  // ---- s·B from the table of 256 ----

  /** Row pos, entry i of the table is (i + 1)·256^pos·B; the entries of row 0 are not scaled by d. */
  ghost predicate BaseTable<P>(g: Group<P>, base: P, table: seq<Cached<P>>) {
    |table| == 256 && forall pos, i :: 0 <= pos < 32 && 0 <= i < 8 ==> TableEntry(g, base, table, pos, i)
  }

  ghost predicate TableEntry<P>(g: Group<P>, base: P, table: seq<Cached<P>>, pos: nat, i: nat)
    requires |table| == 256 && pos < 32 && i < 8
  {
    table[pos * 8 + i] == Cached(Times(g, (i + 1) * Pow(256, pos), base), pos != 0)
  }

  function Wrap32(x: int): nat {
    x % TWO32
  }

  /** `((b ^ c) - 1) >> 31` in 32 bits. */
  function WindowbEqual(b: nat, c: nat): nat {
    Wrap32(Xor(b, c) - 1) / 0x8000_0000
  }

  lemma WindowbEqualIs(b: nat, c: nat)
    requires b < 16 && c < 16
    ensures WindowbEqual(b, c) == if b == c then 1 else 0
  {
    hide Xor;
    assert Pow2(4) == 16;
    XorBound(b, c, 4);
    XorZero(b, c);
    if b == c {
      ModUnique(-1, TWO32, -1, TWO32 - 1);
    } else {
      ModUnique(Xor(b, c) - 1, TWO32, 0, Xor(b, c) - 1);
    }
  }

  /** `(b + mask) ^ mask` with mask all ones for negative b: the absolute value. */
  function WindowAbs(b: int): nat {
    var mask := if b < 0 then TWO32 - 1 else 0;
    Xor(Wrap32(b + mask), mask)
  }

  lemma WindowAbsIs(b: int)
    requires -8 <= b <= 8
    ensures WindowAbs(b) == Abs(b)
  {
    hide Xor, Pow2;
    if b < 0 {
      ModUnique(b + TWO32 - 1, TWO32, 0, b + TWO32 - 1);
      Pow2Values();
      XorOnes(b + TWO32 - 1, 32);
    } else {
      ModUnique(b, TWO32, 0, b);
      XorWithZero(b);
    }
  }

  lemma XorWithZero(b: nat)
    ensures Xor(b, 0) == b
  {
  }

  /** Lines 239-257: entry |b| of row pos, chosen without branching, negated for negative b (`BaseNiels.ChooseEntry`). */
  method ChooseNiels<P(!new)>(g: Group<P>, base: P, table: seq<Cached<P>>, pos: nat, b: int) returns (t: Cached<P>)
    requires IsAbelian(g) && BaseTable(g, base, table) && pos < 32 && -8 <= b <= 8
    ensures t == Cached(Times(g, b * Pow(256, pos), base), pos != 0)
  {
    hide Times, Pow, WindowbEqual;
    WindowAbsIs(b);
    var sign := SignBit(b);
    var u := WindowAbs(b);
    t := Cached(g.zero, pos != 0);
    var i: nat := 0;
    while i < 8
      invariant i <= 8
      invariant t == if 1 <= u <= i then table[pos * 8 + (u - 1)] else Cached(g.zero, pos != 0)
    {
      WindowbEqualIs(u, i + 1);
      if WindowbEqual(u, i + 1) == 1 {
        t := table[pos * 8 + i];
      }
      i := i + 1;
    }
    Chosen(g, base, table, pos, u);
    ghost var p := Pow(256, pos);
    if sign == 1 {
      TimesNeg(g, u * p, base);
      t := Cached(g.neg(t.value), t.scaled);
    }
    assert b * p == if b < 0 then -(u * p) else u * p;
  }

  lemma Chosen<P(!new)>(g: Group<P>, base: P, table: seq<Cached<P>>, pos: nat, u: nat)
    requires IsAbelian(g) && BaseTable(g, base, table) && pos < 32 && u <= 8
    ensures (if 1 <= u then table[pos * 8 + (u - 1)] else Cached(g.zero, pos != 0))
         == Cached(Times(g, u * Pow(256, pos), base), pos != 0)
  {
    if u >= 1 {
      assert TableEntry(g, base, table, pos, u - 1);
    } else {
      assert u * Pow(256, pos) == 0;
    }
  }

  /** Σ over the digits i, i + 2, ... of b[i]·256^(i / 2). */
  function EveryOther(b: seq<int>, i: nat): int
    decreases |b| - i
  {
    if i >= |b| then 0 else b[i] * Pow(256, i / 2) + EveryOther(b, i + 2)
  }

  lemma {:induction false} PowSquare(n: nat)
    ensures Pow(16, 2 * n) == Pow(256, n) && Pow(16, 2 * n + 1) == 16 * Pow(256, n)
  {
    if n != 0 {
      PowSquare(n - 1);
      assert 2 * n == 2 * (n - 1) + 1 + 1;
    }
  }

  /** The odd digits times 16 and the even digits make up the number. */
  lemma {:induction false} OddAndEven(b: seq<int>, n: nat)
    requires |b| == 64 && n <= 32
    ensures SeqVal(b, 16) == SeqVal(b[..2 * n], 16) + 16 * EveryOther(b, 2 * n + 1) + EveryOther(b, 2 * n)
    decreases 32 - n
  {
    hide SeqVal, Pow;
    if n == 32 {
      assert b[..64] == b;
    } else {
      OddAndEven(b, n + 1);
      SeqValTake(b, 16, 2 * n);
      SeqValTake(b, 16, 2 * n + 1);
      PowSquare(n);
      assert (2 * n + 1) / 2 == n;
      Reassociate(b[2 * n + 1], 16, Pow(256, n));
      Reassociate(16, b[2 * n + 1], Pow(256, n));
    }
  }

  lemma OddAndEvenDigits(b: seq<int>)
    requires |b| == 64
    ensures SeqVal(b, 16) == 16 * EveryOther(b, 1) + EveryOther(b, 0)
  {
    OddAndEven(b, 0);
    assert b[..0] == [];
  }

  /** Lines 271-274 and 282-285: the digits from `from` on, every other one, added to r. */
  method AddEveryOther<P(!new)>(g: Group<P>, base: P, table: seq<Cached<P>>, b: seq<int>, from: nat, r0: Extended<P>)
      returns (r: Extended<P>)
    requires IsAbelian(g) && BaseTable(g, base, table) && r0.hasT
    requires |b| == 64 && 2 <= from <= 64 && forall k :: 0 <= k < 64 ==> -8 <= b[k] <= 8
    ensures r.hasT && r.value == g.add(r0.value, Times(g, EveryOther(b, from), base))
  {
    hide Times, Pow, BaseTable;
    r := r0;
    var i: nat := from;
    ghost var sum := 0;
    TimesNone(g, base, r.value);
    while i < 64
      invariant from <= i <= 65 && r.hasT
      invariant sum + EveryOther(b, i) == EveryOther(b, from)
      invariant r.value == g.add(r0.value, Times(g, sum, base))
    {
      var t := ChooseNiels(g, base, table, i / 2, b[i]);
      ghost var term := b[i] * Pow(256, i / 2);
      TimesAdd(g, sum, term, base);
      Associate(g, r0.value, Times(g, sum, base), Times(g, term, base));
      r := NielsAdd2(g, r, t);
      sum := sum + term;
      i := i + 2;
    }
  }

  lemma TimesNone<P(!new)>(g: Group<P>, base: P, p: P)
    requires IsAbelian(g)
    ensures g.add(p, Times(g, 0, base)) == p
  {
    Unit(g, p);
  }

  lemma SixteenTimes<P(!new)>(g: Group<P>, n: int, p: P)
    requires IsAbelian(g)
    ensures var x1 := Times(g, n, p);
            var x2 := g.add(x1, x1);
            var x4 := g.add(x2, x2);
            var x8 := g.add(x4, x4);
            g.add(x8, x8) == Times(g, 16 * n, p)
  {
    hide Times;
    TimesAdd(g, n, n, p);
    TimesAdd(g, 2 * n, 2 * n, p);
    TimesAdd(g, 4 * n, 4 * n, p);
    TimesAdd(g, 8 * n, 8 * n, p);
  }

  /** s·B for every s below 2^255. */
  method ScalarMultBaseNiels<P(!new)>(g: Group<P>, base: P, table: seq<Cached<P>>, s: Bignum) returns (r: Extended<P>)
    requires IsAbelian(g) && BaseTable(g, base, table)
    requires Normal(s) && Val(s) < TWO255
    ensures r.hasT && r.value == Times(g, Val(s), base)
  {
    hide Times, Pow, BaseTable, SeqVal, Val, EveryOther;
    var b := Window4(s);
    OddAndEvenDigits(b);
    EveryOtherStarts(b);
    var t := ChooseNiels(g, base, table, 0, b[1]);
    r := FromUnscaled(t);
    r := AddEveryOther(g, base, table, b, 3, r);
    TimesAdd(g, b[1], EveryOther(b, 3), base);
    SixteenTimes(g, EveryOther(b, 1), base);
    r := ToPartial(DoubleP1p1(g, r));
    r := ToPartial(DoubleP1p1(g, r));
    r := ToPartial(DoubleP1p1(g, r));
    r := ToFull(DoubleP1p1(g, r));
    t := ChooseNiels(g, base, table, 0, b[0]);
    t := TimesD(t);
    TimesAdd(g, 16 * EveryOther(b, 1), b[0], base);
    r := NielsAdd2(g, r, t);
    TimesAdd(g, 16 * EveryOther(b, 1) + b[0], EveryOther(b, 2), base);
    r := AddEveryOther(g, base, table, b, 2, r);
  }

  /** Lines 266-270: with z = 2, the unscaled third coordinate 2xy is T (`BaseNiels.StartPoint`). */
  function FromUnscaled<P>(t: Cached<P>): Extended<P>
    requires !t.scaled
  {
    Extended(t.value, true)
  }

  /** Line 280: the third coordinate gets its factor d (`BaseNiels.ScaleByD`). */
  function TimesD<P>(t: Cached<P>): Cached<P>
    requires !t.scaled
  {
    Cached(t.value, true)
  }

  lemma UnitPower(b: int)
    ensures b * Pow(256, 0) == b
  {
    assert Pow(256, 0) == 1;
  }

  lemma EveryOtherStarts(b: seq<int>)
    requires |b| == 64
    ensures EveryOther(b, 1) == b[1] + EveryOther(b, 3) && EveryOther(b, 0) == b[0] + EveryOther(b, 2)
    ensures b[1] * Pow(256, 0) == b[1] && b[0] * Pow(256, 0) == b[0]
  {
    assert Pow(256, 0) == 1;
  }

  method Window4(s: Bignum) returns (b: seq<int>)
    requires Normal(s) && Val(s) < TWO255
    ensures |b| == 64 && SeqVal(b, 16) == Val(s) && forall k :: 0 <= k < 64 ==> -8 <= b[k] <= 8
  {
    hide SeqVal;
    var r := new int[64];
    ContractWindow4(r, s);
    b := r[..];
  }
}
