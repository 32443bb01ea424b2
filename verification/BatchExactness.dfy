/**
 When the batch multiplication returns the linear combination it is called for, and
 when its test for the neutral element is right, which is more often.
 */
module BatchExactness {
  import opened Bits
  import opened Options
  import opened Groups
  import opened Scalars
  import opened Divisors
  import opened FinalStep
  import opened BosCoster
  import opened Coefficients
  import Modm

  const TWO223: nat := 0x80_0000_0000_0000 * B3

  // ---- the final step keeps its scalar exactly for these ----

  predicate CoefficientKept(d: nat) {
    d <= 1 || 3 * TWO223 <= d < 4 * TWO223
  }

  lemma {:induction false} BitLengthBounds(t: nat)
    requires t >= 1
    ensures BitLength(t) >= 1 && Pow2(BitLength(t) - 1) <= t < Pow2(BitLength(t))
  {
    if t == 1 {
      assert BitLength(0) == 0;
      assert Pow2(0) == 1 && Pow2(1) == 2;
    } else {
      BitLengthBounds(t / 2);
    }
  }

  lemma Pow224()
    ensures Pow2(224) == B4 && Pow2(223) == TWO223 && B4 == 2 * TWO223
  {
    hide Pow2;
    Pow2Values();
    Pow2Add(56, 56);
    Pow2Add(112, 56);
    Pow2Add(168, 56);
    PowerZero();
    Pow2Add(168, 55);
  }

  /** The power of two that is added to a t below 2^224. */
  lemma AddedPower(t: nat)
    requires 1 <= t < B4
    ensures Pow2(BitLength(t)) <= B4
    ensures Pow2(BitLength(t)) == B4 <==> t >= TWO223
  {
    hide Pow2, BitLength;
    BitLengthBounds(t);
    Pow224();
    if t >= TWO223 {
      LengthAtLeast(t, 223);
      LengthAtMost(t, 224);
    } else {
      LengthAtMost(t, 223);
      Pow2Monotone(BitLength(t), 223);
    }
  }

  lemma LengthAtMost(t: nat, n: nat)
    requires 1 <= t < Pow2(n)
    ensures BitLength(t) <= n
  {
    hide Pow2, BitLength;
    BitLengthBounds(t);
    if BitLength(t) > n {
      Pow2Monotone(n, BitLength(t) - 1);
    }
  }

  lemma LengthAtLeast(t: nat, n: nat)
    requires t >= Pow2(n)
    ensures BitLength(t) > n
  {
    hide Pow2, BitLength;
    BitLengthBounds(t);
    if BitLength(t) <= n {
      Pow2Monotone(BitLength(t), n);
    }
  }

  lemma FinalCoefficientKept(d: nat)
    ensures FinalCoefficient(d) == Some(d) <==> CoefficientKept(d)
  {
    hide Pow2, BitLength;
    var t, k := d % B4, d / B4;
    assert d == k * B4 + t;
    if d >= 2 && t != 0 {
      AddedPower(t);
      BitLengthBounds(t);
    }
  }

  // ---- exactness ----

  /** The condition, on the scalars alone, under which the result is the combination. */
  ghost predicate Exact(s: seq<nat>) {
    && (forall i :: Covered(s) <= i < |s| ==> s[i] == 0)
    && CoefficientKept(Gcd(s[..Covered(s)]))
  }

  /** The result is the whole combination, at all integer points. */
  ghost predicate AlwaysWhole(s: seq<nat>) {
    forall p: seq<int> :: |p| == |s| ==> Result(INTEGERS, s, p) == Some(LinearCombination(INTEGERS, s, p, |s|))
  }

  /** The covered part of the combination is the gcd times the point that was left. */
  lemma CoveredPart<P(!new)>(g: Group<P>, s: seq<nat>, p: seq<P>, m: nat)
    requires IsAbelian(g) && m <= |s| == |p|
    ensures var d := Gcd(s[..m]); LinearCombination(g, s, p, m) == Times(g, d, Root(g, s, p, m, d))
  {
    hide LinearCombination, Times;
    var d := Gcd(s[..m]);
    forall i | 0 <= i < m ensures s[i] == d * Quotients(s, d)[i] {
      EntryIsMultiple(s[..m], i);
    }
    CombinationScaled(g, d, Quotients(s, d), s, p, m);
  }

  lemma EntryIsMultiple(s: seq<nat>, i: nat)
    requires i < |s|
    ensures Gcd(s) == 0 ==> s[i] == 0
    ensures Gcd(s) >= 1 ==> s[i] == Gcd(s) * (s[i] / Gcd(s))
  {
    hide Gcd;
    if s[i] >= 1 {
      GcdAtMostEntry(s, i);
    }
    var d := Gcd(s);
    if d >= 1 {
      ModUnique(d, d, 1, 0);
      GcdDivisors(d, s);
      assert Divides(d, s[i]);
    }
  }

  /** Under the condition the result is the combination, in every abelian group. */
  lemma ExactIsWhole<P(!new)>(g: Group<P>, s: seq<nat>, p: seq<P>)
    requires IsAbelian(g) && |p| == |s| && Exact(s)
    ensures Result(g, s, p) == Some(LinearCombination(g, s, p, |s|))
  {
    hide Covered, Gcd, LinearCombination, Times, Root;
    FinalCoefficientKept(Gcd(s[..Covered(s)]));
    CoveredPart(g, s, p, Covered(s));
    ZeroTail(g, s, p, Covered(s), |s|);
  }

  /** The result at the unit points. */
  lemma ResultAtUnit(s: seq<nat>, j: nat)
    requires j < |s|
    ensures var m := Covered(s);
            var d := Gcd(s[..m]);
            var c := FinalCoefficient(d);
            Result(INTEGERS, s, UnitAt(|s|, j))
            == if c.None? then None else Some(if j < m then c.value * Quotients(s, d)[j] else 0)
    ensures LinearCombination(INTEGERS, s, UnitAt(|s|, j), |s|) == s[j]
  {
    hide Covered, Gcd, LinearCombination, Times, FinalCoefficient;
    var d := Gcd(s[..Covered(s)]);
    var c := FinalCoefficient(d);
    CombinationAtUnit(Quotients(s, d), j, Covered(s));
    CombinationAtUnit(s, j, |s|);
    if c.Some? {
      TimesInteger(c.value, Root(INTEGERS, s, UnitAt(|s|, j), Covered(s), d));
    }
  }

  /** An uncovered nonzero scalar is lost: the result at its unit point is 0. */
  lemma LostScalar(s: seq<nat>, j: nat)
    requires Covered(s) <= j < |s| && s[j] != 0
    ensures !AlwaysWhole(s)
  {
    hide Covered, Gcd, LinearCombination, Result, FinalCoefficient;
    ResultAtUnit(s, j);
    assert |UnitAt(|s|, j)| == |s|;
  }

  /** A gcd whose coefficient is not kept spoils the result at some unit point. */
  lemma SpoiledCoefficient(s: seq<nat>)
    requires !CoefficientKept(Gcd(s[..Covered(s)]))
    ensures !AlwaysWhole(s)
  {
    hide Covered, LinearCombination, FinalCoefficient, Gcd, Result;
    var m := Covered(s);
    var d := Gcd(s[..m]);
    var j := NonzeroEntry(s[..m]);
    EntryIsMultiple(s[..m], j);
    FinalCoefficientKept(d);
    ResultAtUnit(s, j);
    var c, q := FinalCoefficient(d), s[j] / d;
    if c.Some? {
      DistinctMultiples(c.value, d, q);
    }
    assert |UnitAt(|s|, j)| == |s|;
  }

  lemma DistinctMultiples(c: int, d: int, q: int)
    requires c != d && q != 0
    ensures c * q != d * q
  {
    assert c * q - d * q == (c - d) * q;
  }

  lemma {:induction false} NonzeroEntry(s: seq<nat>) returns (j: nat)
    requires Gcd(s) != 0
    ensures j < |s| && s[j] != 0
  {
    if s[|s| - 1] != 0 {
      j := |s| - 1;
    } else {
      j := NonzeroEntry(s[..|s| - 1]);
    }
  }

  /**
   The multiplication returns the whole combination at all points just when the
   scalars satisfy the condition.
   */
  lemma ExactIffWhole(s: seq<nat>)
    ensures AlwaysWhole(s) <==> Exact(s)
  {
    hide Covered, Gcd, LinearCombination, CoefficientKept, Result;
    if Exact(s) {
      IntegersAreAbelian();
      forall p: seq<int> | |p| == |s| ensures Result(INTEGERS, s, p) == Some(LinearCombination(INTEGERS, s, p, |s|)) {
        ExactIsWhole(INTEGERS, s, p);
      }
    } else if forall i :: Covered(s) <= i < |s| ==> s[i] == 0 {
      SpoiledCoefficient(s);
    } else {
      var j :| Covered(s) <= j < |s| && s[j] != 0;
      LostScalar(s, j);
    }
  }

  // ---- an example ----

  const TWOS: seq<nat> := [2, 2, 2, 2, 2, 2, 2, 2, 2]

  lemma {:induction false} GcdOfTwos(n: nat)
    requires 1 <= n <= 9
    ensures Gcd(TWOS[..n]) == 2
  {
    if n == 1 {
      assert TWOS[..1][..0] == [];
      assert Gcd([]) == 0;
      assert Gcd2(0, 2) == Gcd2(2, 0);
    } else {
      GcdOfTwos(n - 1);
      assert TWOS[..n][..n - 1] == TWOS[..n - 1];
      assert Gcd2(2, 2) == Gcd2(2, 0);
    }
  }

  lemma TwosAreCovered()
    ensures Covered(TWOS) == 9
  {
    hide Gcd, Or;
    InitialSizeIsOdd(9);
    var n := InitialSize(9);
    assert TWOS[..n][0] != 0 && TWOS[..n][1] != 0;
    GcdOfTwos(n);
    assert Extends(TWOS[..n]);
  }

  /** Nine scalars 2, all points 0 but the first, which is 1: the combination is 2 and the result is 6. */
  lemma SpoiledExample()
    ensures Result(INTEGERS, TWOS, UnitAt(9, 0)) == Some(6)
    ensures LinearCombination(INTEGERS, TWOS, UnitAt(9, 0), 9) == 2
  {
    hide Gcd, Covered, LinearCombination, Result;
    TwosAreCovered();
    GcdOfTwos(9);
    assert BitLength(2) == 2 && Pow2(2) == 4;
    assert FinalCoefficient(2) == Some(6);
    ResultAtUnit(TWOS, 0);
  }

  // ---- the decision ----

  /**
   In the group of the curve, of order 8 L with L prime, a multiple of a point by a
   positive number below L is neutral only if eight times the point is.
   */
  ghost predicate CofactorEight<P(!new)>(g: Group<P>) {
    forall k: nat, q: P :: 0 < k < Modm.L && Times(g, k, q) == g.zero ==> Times(g, 8, q) == g.zero
  }

  /** The neutral test on the result answers for the whole combination. */
  ghost predicate Decides<P>(g: Group<P>, s: seq<nat>, p: seq<P>)
    requires |s| == |p|
  {
    var r := Result(g, s, p);
    r.Some? && (r.value == g.zero <==> LinearCombination(g, s, p, |s|) == g.zero)
  }

  ghost predicate AlwaysDecides<P(!new)>(g: Group<P>, s: seq<nat>) {
    forall p: seq<P> :: |p| == |s| ==> Decides(g, s, p)
  }

  /** Every scalar is covered or zero, and the final step finds a limb to start from. */
  ghost predicate Decidable(s: seq<nat>) {
    (forall i :: Covered(s) <= i < |s| ==> s[i] == 0) && FinalCoefficient(Gcd(s[..Covered(s)])).Some?
  }

  /** For a point killed by 8, multiples depend on the number modulo 8. */
  lemma SmallResidues<P(!new)>(g: Group<P>, q: P)
    requires IsAbelian(g) && Times(g, 8, q) == g.zero
    ensures Times(g, 1, q) == g.zero <==> Times(g, 3, q) == g.zero
    ensures Times(g, 2, q) == g.zero <==> Times(g, 6, q) == g.zero
    ensures Times(g, 3, q) == g.zero <==> Times(g, 7, q) == g.zero
  {
    hide Times;
    TimesZero(g, 3);
    TimesTimes(g, 3, 1, q);
    TimesTimes(g, 3, 3, q);
    TimesTimes(g, 3, 2, q);
    TimesTimes(g, 3, 6, q);
    TimesMod(g, 9, 8, q);
    TimesMod(g, 18, 8, q);
    TimesTimes(g, 7, 1, q);
    TimesTimes(g, 7, 7, q);
    TimesZero(g, 7);
    TimesMod(g, 49, 8, q);
  }

  lemma {:induction false} EightDivides(n: nat)
    requires n >= 3
    ensures Pow2(n) % 8 == 0
  {
    if n == 3 {
      assert Pow2(3) == 8;
    } else {
      EightDivides(n - 1);
    }
  }

  /** The coefficient of the final step against its scalar, modulo 8. */
  lemma CoefficientModuloEight(d: nat)
    requires d >= 2 && d % B4 != 0
    ensures var c := FinalCoefficient(d).value;
            0 < c < Modm.L && (c % 8 == d % 8 || (d % 8 == 1 && c == 3) || (d % 8 == 2 && c == 6) || (d % 8 == 3 && c == 7))
  {
    hide Pow2, BitLength;
    var t := d % B4;
    LowBitsOf(d);
    AddedPower(t);
    SumModuloEight(t);
  }

  lemma SumModuloEight(t: nat)
    requires t >= 1
    ensures var c := t + Pow2(BitLength(t));
            c % 8 == t % 8 || (t == 1 && c == 3) || (t == 2 && c == 6) || (t == 3 && c == 7)
  {
    hide Pow2, BitLength;
    SmallPowers();
    if t >= 4 {
      LengthAtLeast(t, 2);
      EightDivides(BitLength(t));
      EightMore(t, Pow2(BitLength(t)));
    }
  }

  lemma EightMore(t: nat, p: nat)
    requires p % 8 == 0
    ensures (t + p) % 8 == t % 8
  {
  }

  lemma SmallPowers()
    ensures Pow2(2) == 4 && Pow2(BitLength(1)) == 2 && Pow2(BitLength(2)) == 4 && Pow2(BitLength(3)) == 4
  {
    assert BitLength(1) == 1 && BitLength(2) == 2 && BitLength(3) == 2;
    assert Pow2(1) == 2 && Pow2(2) == 4;
  }

  lemma LowBitsOf(d: nat)
    ensures d % 8 == d % B4 % 8
  {
    var k, t := d / B4, d % B4;
    assert d == k * B4 + t;
    ModUnique(d, 8, k * (B4 / 8) + t / 8, t % 8);
  }

  /** The wrong coefficient kills the same points as the right one. */
  lemma SameKernel<P(!new)>(g: Group<P>, d: nat, q: P)
    requires IsAbelian(g) && CofactorEight(g) && d < Modm.L && FinalCoefficient(d).Some?
    ensures Times(g, FinalCoefficient(d).value, q) == g.zero <==> Times(g, d, q) == g.zero
  {
    hide Times, Pow2, BitLength;
    var c := FinalCoefficient(d).value;
    if d >= 2 {
      CoefficientModuloEight(d);
      if Times(g, c, q) == g.zero || Times(g, d, q) == g.zero {
        assert Times(g, 8, q) == g.zero;
        TimesMod(g, c, 8, q);
        TimesMod(g, d, 8, q);
        SmallResidues(g, q);
      }
    }
  }

  /** At one set of points the decision is right if every scalar is covered or zero. */
  lemma DecidableDecides<P(!new)>(g: Group<P>, s: seq<nat>, p: seq<P>)
    requires IsAbelian(g) && CofactorEight(g) && |p| == |s| && (forall i :: 0 <= i < |s| ==> s[i] < Modm.L) && Decidable(s)
    ensures Decides(g, s, p)
  {
    hide Covered, Gcd, LinearCombination, Times, Root, FinalCoefficient;
    var m := Covered(s);
    var d := Gcd(s[..m]);
    GcdBelow(s[..m], Modm.L);
    CoveredPart(g, s, p, m);
    ZeroTail(g, s, p, m, |s|);
    SameKernel(g, d, Root(g, s, p, m, d));
  }

  lemma GcdBelow(s: seq<nat>, bound: nat)
    requires bound >= 1 && forall i :: 0 <= i < |s| ==> s[i] < bound
    ensures Gcd(s) < bound
  {
    hide Gcd;
    if Gcd(s) != 0 {
      var j := NonzeroEntry(s);
      GcdAtMostEntry(s, j);
    }
  }

  function PointAt<P>(g: Group<P>, n: nat, j: nat, b: P): (p: seq<P>)
    ensures |p| == n
  {
    seq(n, i => if i == j then b else g.zero)
  }

  lemma {:induction false} CombinationAtPoint<P(!new)>(g: Group<P>, s: seq<int>, j: nat, b: P, n: nat)
    requires IsAbelian(g) && n <= |s|
    ensures LinearCombination(g, s, PointAt(g, |s|, j, b), n) == if j < n then Times(g, s[j], b) else g.zero
  {
    if n != 0 {
      CombinationAtPoint(g, s, j, b, n - 1);
      TimesZero(g, s[n - 1]);
      Unit(g, g.zero);
      Unit(g, LinearCombination(g, s, PointAt(g, |s|, j, b), n - 1));
      Unit(g, Times(g, s[n - 1], b));
    }
  }

  /** An uncovered nonzero scalar at a point outside the small subgroup is overlooked. */
  lemma Overlooked<P(!new)>(g: Group<P>, s: seq<nat>, b: P, j: nat)
    requires IsAbelian(g) && CofactorEight(g) && Times(g, 8, b) != g.zero
    requires Covered(s) <= j < |s| && 0 < s[j] < Modm.L
    ensures !AlwaysDecides(g, s)
  {
    hide Covered, Gcd, LinearCombination, Times, FinalCoefficient;
    var p := PointAt(g, |s|, j, b);
    var d := Gcd(s[..Covered(s)]);
    CombinationAtPoint(g, s, j, b, |s|);
    CombinationAtPoint(g, Quotients(s, d), j, b, Covered(s));
    if FinalCoefficient(d).Some? {
      TimesZero(g, FinalCoefficient(d).value);
    }
    assert !Decides(g, s, p);
  }

  /**
   For scalars below L, in the group of the curve: the neutral test is right at all
   points if and only if every scalar is covered or zero and the final step returns.
   */
  lemma DecisionIff<P(!new)>(g: Group<P>, s: seq<nat>, b: P)
    requires IsAbelian(g) && CofactorEight(g) && Times(g, 8, b) != g.zero
    requires forall i :: 0 <= i < |s| ==> s[i] < Modm.L
    ensures AlwaysDecides(g, s) <==> Decidable(s)
  {
    hide Covered, Gcd, LinearCombination, Times, FinalCoefficient, Root;
    if Decidable(s) {
      forall p: seq<P> | |p| == |s| ensures Decides(g, s, p) {
        DecidableDecides(g, s, p);
      }
    } else if FinalCoefficient(Gcd(s[..Covered(s)])).None? {
      var p := PointAt(g, |s|, 0, b);
      assert !Decides(g, s, p);
    } else {
      var j :| Covered(s) <= j < |s| && s[j] != 0;
      Overlooked(g, s, b, j);
    }
  }

  const LONE: seq<nat> := [0, 1, 0, 0, 0, 1, 0, 0, 0]

  lemma LoneIsNotCovered()
    ensures Covered(LONE) == 5 && Gcd(LONE[..5]) == 1
  {
    hide Or;
    InitialSizeIsOdd(9);
    OrOne(5);
    var first := LONE[..5];
    assert !TwoNonzero(first);
    SingleGcd(first, 1);
  }

  /**
   One nonzero scalar in each half, and a point at the second only: the result is the
   neutral element and the combination is not.
   */
  lemma OverlookedExample()
    ensures Result(INTEGERS, LONE, UnitAt(9, 5)) == Some(0)
    ensures LinearCombination(INTEGERS, LONE, UnitAt(9, 5), 9) == 1 && !Decides(INTEGERS, LONE, UnitAt(9, 5))
  {
    hide Gcd, Covered, LinearCombination, Result;
    LoneIsNotCovered();
    assert FinalCoefficient(1) == Some(1);
    ResultAtUnit(LONE, 5);
  }

  /** Once the second half has been taken in, that is always so. */
  lemma ExtendedIsDecidable(s: seq<nat>)
    requires InitialSize(|s|) <= |s| && Extends(s[..InitialSize(|s|)])
    ensures Covered(s) == |s| && Decidable(s)
  {
    hide Gcd, BitLength, Pow2, InitialSize;
    assert s[..|s|] == s;
    PositiveGcd(s[..InitialSize(|s|)]);
    GcdOfMore(s, InitialSize(|s|));
    ModUnique(Gcd(s), B4, 0, Gcd(s));
  }

  lemma NeutralDecision<P(!new)>(g: Group<P>, s: seq<nat>, p: seq<P>)
    requires IsAbelian(g) && CofactorEight(g) && |p| == |s| && forall i :: 0 <= i < |s| ==> s[i] < Modm.L
    requires InitialSize(|s|) <= |s| && Extends(s[..InitialSize(|s|)])
    ensures Decides(g, s, p)
  {
    hide Decides, Decidable, Extends, InitialSize;
    ExtendedIsDecidable(s);
    DecidableDecides(g, s, p);
  }

  lemma {:induction false} GcdOfMore(s: seq<nat>, m: nat)
    requires m <= |s| && Gcd(s[..m]) >= 1
    ensures 1 <= Gcd(s) <= Gcd(s[..m])
  {
    var e, d := Gcd(s), Gcd(s[..m]);
    var j := NonzeroEntry(s[..m]);
    GcdAtMostEntry(s, j);
    ModUnique(e, e, 1, 0);
    GcdDivisors(e, s);
    assert DividesAll(e, s[..m]);
    GcdDivisors(e, s[..m]);
    DivisorAtMost(e, d);
  }

  lemma PositiveGcd(s: seq<nat>)
    requires TwoNonzero(s)
    ensures Gcd(s) >= 1
  {
    var i, j :| 0 <= i < |s| && 0 <= j < |s| && i != j && s[i] != 0 && s[j] != 0;
    GcdAtMostEntry(s, i);
  }

  /** The assumption on the group can be met: the integers meet it, with a point that 8 does not kill. */
  lemma IntegersHaveCofactor()
    ensures CofactorEight(INTEGERS) && Times(INTEGERS, 8, 1) != INTEGERS.zero
  {
    hide Times;
    TimesInteger(8, 1);
    forall k: nat, q: int | 0 < k < Modm.L && Times(INTEGERS, k, q) == INTEGERS.zero ensures Times(INTEGERS, 8, q) == INTEGERS.zero {
      TimesInteger(k, q);
      TimesInteger(8, q);
      NoZeroDivisors(k, q);
    }
  }

  lemma NoZeroDivisors(k: int, q: int)
    requires k != 0 && k * q == 0
    ensures q == 0
  {
  }
}
