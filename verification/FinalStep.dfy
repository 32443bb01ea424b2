/**
 The last step of the batch multiplication: the one scalar that is left times its
 point, by double-and-add over limbs 3..0. Scalars 0 and 1 are handled apart. From 2
 up the accumulator starts at the point itself and the leading bit is then processed
 as well, so that a power of two is added to the scalar.

 Line numbers are those of src/ed25519-donna/ed25519-donna-batchverify.h.
 */
module FinalStep {
  import opened Bits
  import opened Options
  import opened Groups
  import opened Scalars

  const TOP_BIT: nat := 0x80_0000_0000_0000   // 2^55
  const LIMB128BITS: nat := 3

  function BitLength(t: nat): nat {
    if t == 0 then 0 else 1 + BitLength(t / 2)
  }

  /**
   The multiple of the point that comes out, if any. Limb 4 is never looked at; a
   scalar that is nonzero only there sends the search for the top limb below limb 0.
   */
  function FinalCoefficient(s: nat): Option<nat> {
    var t := s % B4;
    if s <= 1 then Some(s)
    else if t == 0 then None
    else Some(t + Pow2(BitLength(t)))
  }

  /** Limbs l..3 as a number. */
  function High(a: Bignum, l: nat): nat
    decreases 4 - l
  {
    if l >= 4 then 0 else a[l] + LIMB * High(a, l + 1)
  }

  lemma HighIsLow224(a: Bignum)
    requires Normal(a)
    ensures High(a, 0) == Val(a) % B4
  {
    assert High(a, 3) == a[3];
    assert High(a, 2) == a[2] + LIMB * a[3];
    assert High(a, 1) == a[1] + LIMB * High(a, 2);
    assert High(a, 0) == a[0] + LIMB * High(a, 1);
    assert Val(a) == a[4] * B4 + High(a, 0);
    ModUnique(Val(a), B4, a[4], High(a, 0));
  }

  lemma {:induction false} HighZero(a: Bignum, l: nat)
    requires forall i :: l <= i < 4 ==> a[i] == 0
    ensures High(a, l) == 0
    decreases 4 - l
  {
    if l < 4 {
      HighZero(a, l + 1);
    }
  }

  /** The size of a number is fixed by the power of two just above it. */
  lemma {:induction false} BitLengthIs(t: nat, n: nat)
    requires n >= 1 && Pow2(n - 1) <= t < Pow2(n)
    ensures BitLength(t) == n
  {
    if n == 1 {
      assert t == 1;
      assert BitLength(0) == 0;
    } else {
      assert Pow2(n) == 2 * Pow2(n - 1) && Pow2(n - 1) == 2 * Pow2(n - 2);
      BitLengthIs(t / 2, n - 1);
    }
  }

  lemma {:induction false} HighBounds(a: Bignum, l: nat, top: nat, f: nat)
    requires Normal(a) && l <= top < 4
    requires High(a, top + 1) == 0 && Pow2(f) <= a[top] < Pow2(f + 1)
    ensures Pow2(56 * (top - l) + f) <= High(a, l) < Pow2(56 * (top - l) + f + 1)
    decreases top - l
  {
    hide Pow2;
    if l < top {
      HighBounds(a, l + 1, top, f);
      ScaleByLimb(56 * (top - l - 1) + f);
      ScaleByLimb(56 * (top - l - 1) + f + 1);
    }
  }

  lemma ScaleByLimb(k: nat)
    ensures Pow2(k + 56) == LIMB * Pow2(k)
  {
    hide Pow2;
    Pow2Values();
    Pow2Add(56, k);
  }

  /** One bit of a limb comes off the top. */
  lemma NextBit(x: nat, f: nat)
    ensures x / Pow2(f) == 2 * (x / Pow2(f + 1)) + x / Pow2(f) % 2
  {
    DivDiv(x, Pow2(f), 2);
    assert Pow2(f + 1) == Pow2(f) * 2;
  }

  /** What has been read of limbs 3..0 when bit f of limb l is next. */
  ghost function Prefix(a: Bignum, l: nat, f: nat): int
    requires l < 4 && f <= 55
  {
    High(a, l + 1) * Pow2(55 - f) + a[l] / Pow2(f + 1)
  }

  lemma PrefixWithinLimb(a: Bignum, l: nat, f: nat)
    requires l < 4 && 1 <= f <= 55
    ensures Prefix(a, l, f - 1) == 2 * Prefix(a, l, f) + a[l] / Pow2(f) % 2
  {
    hide High;
    NextBit(a[l], f);
    DoublePower(High(a, l + 1), 55 - f);
    assert f - 1 + 1 == f && 55 - (f - 1) == 55 - f + 1;
  }

  lemma PrefixEndsLimb(a: Bignum, l: nat)
    requires l < 4
    ensures High(a, l) == 2 * Prefix(a, l, 0) + a[l] / Pow2(0) % 2
  {
    NextBit(a[l], 0);
    DoublePower(High(a, l + 1), 55);
    Pow2Values();
    assert a[l] / Pow2(0) == a[l];
  }

  lemma PrefixEntersLimb(a: Bignum, l: nat)
    requires Normal(a) && l < 4
    ensures Prefix(a, l, 55) == High(a, l + 1)
  {
    hide High, Pow2;
    Pow2Values();
    Pow2Small();
    ModUnique(a[l], LIMB, 0, a[l]);
  }

  lemma DoublePower(h: nat, k: nat)
    ensures h * Pow2(k + 1) == 2 * (h * Pow2(k))
  {
    assert Pow2(k + 1) == 2 * Pow2(k);
    Reassociate(h, 2, Pow2(k));
    Reassociate(2, h, Pow2(k));
  }

  /** Lines 91-92: the highest nonzero limb of limbs 3..0, if there is one. */
  method TopLimb(scalar: Bignum) returns (limb: Option<nat>)
    ensures limb.Some? ==> limb.value <= LIMB128BITS && scalar[limb.value] != 0 && High(scalar, limb.value + 1) == 0
    ensures limb.None? ==> High(scalar, 0) == 0
  {
    var l: nat := LIMB128BITS;
    while scalar[l] == 0
      invariant l <= LIMB128BITS
      invariant forall i :: l < i < 4 ==> scalar[i] == 0
      decreases l
    {
      if l == 0 {
        HighZero(scalar, 0);
        return None;
      }
      l := l - 1;
    }
    HighZero(scalar, l + 1);
    return Some(l);
  }

  /** Lines 93-95: the highest set bit of a limb. */
  method TopFlag(x: nat) returns (flag: nat, ghost f: nat)
    requires 0 < x < LIMB
    ensures f <= 55 && flag == Pow2(f) && Pow2(f) <= x < Pow2(f + 1)
  {
    flag, f := TOP_BIT, 55;
    Pow2Values();
    assert Pow2(56) == 2 * Pow2(55);
    while And(x, flag) == 0
      invariant f <= 55 && flag == Pow2(f) && x < Pow2(f + 1)
      decreases f
    {
      BitClear(x, f);
      flag, f := flag / 2, f - 1;
    }
    AndBit(x, f);
    if x < Pow2(f) {
      ModUnique(x, Pow2(f), 0, x);
    }
  }

  lemma BitClear(x: nat, f: nat)
    requires 0 < x < Pow2(f + 1) && And(x, Pow2(f)) == 0
    ensures f >= 1 && x < Pow2(f) && Pow2(f) / 2 == Pow2(f - 1)
  {
    AndBit(x, f);
    if x >= Pow2(f) {
      ModUnique(x, Pow2(f), 1, x - Pow2(f));
    }
    assert Pow2(0) == 1;
  }

  lemma DoubleAndAdd<P(!new)>(g: Group<P>, m: int, bit: nat, point: P, r: P)
    requires IsAbelian(g) && r == Times(g, m, point) && bit <= 1
    ensures g.add(r, r) == Times(g, 2 * m, point)
    ensures bit == 1 ==> g.add(g.add(r, r), point) == Times(g, 2 * m + 1, point)
  {
    TimesAdd(g, m, m, point);
    TimesSucc(g, 2 * m, point);
  }

  /** Lines 96-106: double and add from the given bit down to bit 0 of limb 0. */
  method Ladder<P(!new)>(g: Group<P>, point: P, scalar: Bignum, limb0: nat, flag0: nat, ghost f0: nat) returns (r: P)
    requires IsAbelian(g) && Normal(scalar)
    requires limb0 <= LIMB128BITS && f0 <= 55 && flag0 == Pow2(f0)
    requires Prefix(scalar, limb0, f0) == 0
    ensures r == Times(g, Pow2(56 * limb0 + f0 + 1) + High(scalar, 0), point)
  {
    hide High, Pow2, Prefix, Times;
    var limb: nat, flag: nat := limb0, flag0;
    ghost var f: nat, n: nat := f0, 0;
    r := point;
    ghost var m: int := 1;
    TimesOne(g, point);
    PowerZero();
    while true
      invariant limb <= LIMB128BITS && f <= 55 && flag == Pow2(f)
      invariant n + 56 * limb + f == 56 * limb0 + f0
      invariant m == Pow2(n) + Prefix(scalar, limb, f) && r == Times(g, m, point)
      decreases limb, f
    {
      ghost var bit := scalar[limb] / Pow2(f) % 2;
      AndBit(scalar[limb], f);
      DoubleAndAdd(g, m, bit, point, r);
      DoublePower(1, n);
      r := g.add(r, r);
      if And(scalar[limb], flag) != 0 {
        r := g.add(r, point);
      }
      m, n := 2 * m + bit, n + 1;
      HalvePower(f);
      flag := flag / 2;
      if flag == 0 {
        PrefixEndsLimb(scalar, limb);
        if limb == 0 {
          return;
        }
        PrefixEntersLimb(scalar, limb - 1);
        limb := limb - 1;
        flag, f := TOP_BIT, 55;
      } else {
        PrefixWithinLimb(scalar, limb, f);
        f := f - 1;
      }
    }
  }

  lemma PowerZero()
    ensures Pow2(0) == 1 && Pow2(55) == TOP_BIT
  {
    Pow2Values();
    assert Pow2(56) == 2 * Pow2(55);
  }

  lemma HalvePower(f: nat)
    ensures Pow2(f) / 2 == (if f == 0 then 0 else Pow2(f - 1))
    ensures Pow2(f) / 2 == 0 <==> f == 0
  {
  }

  /** Lines 76-107. */
  method MultiScalarMultFinal<P(!new)>(g: Group<P>, point: P, scalar: Bignum) returns (r: Option<P>)
    requires IsAbelian(g) && Normal(scalar)
    ensures var c := FinalCoefficient(Val(scalar));
            r == if c.None? then None else Some(Times(g, c.value, point))
  {
    hide High, Pow2, Val, BitLength, IsOneBatch, IsZeroBatch;
    ZeroOneTests(scalar);
    HighIsLow224(scalar);
    if IsOneBatch(scalar) {
      TimesOne(g, point);
      return Some(point);
    } else if IsZeroBatch(scalar) {
      return Some(g.zero);
    }
    var limb := TopLimb(scalar);
    if limb.None? {
      return None;
    }
    var flag, f := TopFlag(scalar[limb.value]);
    FirstPrefix(scalar, limb.value, f);
    var p := Ladder(g, point, scalar, limb.value, flag, f);
    return Some(p);
  }

  lemma FirstPrefix(a: Bignum, l: nat, f: nat)
    requires Normal(a) && l < 4 && f <= 55 && High(a, l + 1) == 0 && Pow2(f) <= a[l] < Pow2(f + 1)
    ensures Prefix(a, l, f) == 0
    ensures High(a, 0) != 0 && BitLength(High(a, 0)) == 56 * l + f + 1
  {
    hide High, Pow2, Normal;
    ModUnique(a[l], Pow2(f + 1), 0, a[l]);
    HighBounds(a, 0, l, f);
    BitLengthIs(High(a, 0), 56 * l + f + 1);
  }
}
