/**
 What a batch tests: that Σ r_i·(S_i·B - h_i·A_i - R_i) is neutral, for keys in the
 subgroup of order L. Honest signatures always come out valid; batch and single
 verification differ where a signature satisfies the group equation and single
 verification asks for more.
 */
module BatchMeaning {
  import opened Bits
  import opened Options
  import opened Bytes
  import opened Groups
  import opened Modm
  import opened ModmBytes
  import opened ScalarMult
  import opened BatchExactness
  import opened Sha512
  import opened Ed25519
  import opened BatchVerify

  // ---- the combination ----

  lemma {:induction false} CombinationOfParts<P(!new)>(g: Group<P>, s: seq<int>, p: seq<P>, t: seq<int>, q: seq<P>, m: nat)
    requires IsAbelian(g) && |s| == |p| && |t| == |q| && m <= |t|
    ensures LinearCombination(g, s + t, p + q, |s| + m) == g.add(LinearCombination(g, s, p, |s|), LinearCombination(g, t, q, m))
  {
    if m == 0 {
      SameCombination(g, s + t, p + q, s, p, |s|);
      Unit(g, LinearCombination(g, s, p, |s|));
    } else {
      CombinationOfParts(g, s, p, t, q, m - 1);
      assert (s + t)[|s| + m - 1] == t[m - 1] && (p + q)[|s| + m - 1] == q[m - 1];
      Associate(g, LinearCombination(g, s, p, |s|), LinearCombination(g, t, q, m - 1), Times(g, t[m - 1], q[m - 1]));
    }
  }

  /** The decoded key and R, both negated. */
  function NegKey<P>(c: Curve<P>, it: Item): P
    requires c.unpackNegative(it.pk).Some?
  {
    c.unpackNegative(it.pk).value
  }

  function NegR<P>(c: Curve<P>, it: Item): P
    requires |it.rs| == 64 && c.unpackNegative(it.rs[..32]).Some?
  {
    c.unpackNegative(it.rs[..32]).value
  }

  predicate ItemDecodes<P>(c: Curve<P>, it: Item)
    requires |it.rs| == 64
  {
    c.unpackNegative(it.pk).Some? && c.unpackNegative(it.rs[..32]).Some?
  }

  /** S·B - h·A - R */
  function Residual<P>(c: Curve<P>, f: Compression, it: Item): P
    requires |it.rs| == 64 && ItemDecodes(c, it)
  {
    c.g.add(c.g.add(Times(c.g, SOf(it), c.base), Times(c.g, HOf(f, it), NegKey(c, it))), NegR(c, it))
  }

  /** The scalar of the key. */
  function KeyScalar(f: Compression, it: Item, r: nat): nat
    requires |it.rs| == 64
  {
    HOf(f, it) * r % L
  }

  /** The part of the combination that belongs to one signature. */
  function Term<P>(c: Curve<P>, f: Compression, it: Item, r: nat): P
    requires |it.rs| == 64 && ItemDecodes(c, it)
  {
    c.g.add(c.g.add(Times(c.g, SOf(it) * r, c.base), Times(c.g, KeyScalar(f, it, r), NegKey(c, it))), Times(c.g, r, NegR(c, it)))
  }

  function Terms<P>(c: Curve<P>, f: Compression, items: seq<Item>, random: seq<seq<byte>>, n: nat): P
    requires WellFormed(items, random) && Decodes(c, items) && n <= |items|
  {
    if n == 0 then c.g.zero
    else c.g.add(Terms(c, f, items, random, n - 1), Term(c, f, items[n - 1], LE(random[n - 1])))
  }

  /** Σ r_i·(S_i·B - h_i·A_i - R_i) */
  function Residuals<P>(c: Curve<P>, f: Compression, items: seq<Item>, random: seq<seq<byte>>, n: nat): P
    requires WellFormed(items, random) && Decodes(c, items) && n <= |items|
  {
    if n == 0 then c.g.zero
    else c.g.add(Residuals(c, f, items, random, n - 1), Times(c.g, LE(random[n - 1]), Residual(c, f, items[n - 1])))
  }

  /** Keys in the subgroup of order L. */
  ghost predicate KeysInSubgroup<P>(c: Curve<P>, items: seq<Item>)
    requires (forall i :: 0 <= i < |items| ==> |items[i].rs| == 64) && Decodes(c, items)
  {
    forall i :: 0 <= i < |items| ==> Times(c.g, L, NegKey(c, items[i])) == c.g.zero
  }

  lemma TermIsMultiple<P(!new)>(c: Curve<P>, f: Compression, it: Item, r: nat)
    requires IsAbelian(c.g) && |it.rs| == 64 && ItemDecodes(c, it) && Times(c.g, L, NegKey(c, it)) == c.g.zero
    ensures Term(c, f, it, r) == Times(c.g, r, Residual(c, f, it))
  {
    hide Times, SOf, HOf;
    var s, h, b, a, o := SOf(it), HOf(f, it), c.base, NegKey(c, it), NegR(c, it);
    TimesOfSum(c.g, r, c.g.add(Times(c.g, s, b), Times(c.g, h, a)), o);
    TimesOfSum(c.g, r, Times(c.g, s, b), Times(c.g, h, a));
    TimesTimes(c.g, r, s, b);
    TimesTimes(c.g, r, h, a);
    TimesMod(c.g, h * r, L, a);
    assert r * s == s * r && r * h == h * r;
  }

  function KeyScalars(f: Compression, items: seq<Item>, random: seq<seq<byte>>): (s: seq<int>)
    requires WellFormed(items, random)
    ensures |s| == |items|
  {
    seq(|items|, i requires 0 <= i < |items| => KeyScalar(f, items[i], LE(random[i])))
  }

  function RandomScalars(random: seq<seq<byte>>): (s: seq<int>)
    ensures |s| == |random|
  {
    seq(|random|, i requires 0 <= i < |random| => LE(random[i]))
  }

  function NegKeys<P>(c: Curve<P>, items: seq<Item>): (p: seq<P>)
    requires (forall i :: 0 <= i < |items| ==> |items[i].rs| == 64) && Decodes(c, items)
    ensures |p| == |items|
  {
    seq(|items|, i requires 0 <= i < |items| => NegKey(c, items[i]))
  }

  function NegRs<P>(c: Curve<P>, items: seq<Item>): (p: seq<P>)
    requires (forall i :: 0 <= i < |items| ==> |items[i].rs| == 64) && Decodes(c, items)
    ensures |p| == |items|
  {
    seq(|items|, i requires 0 <= i < |items| => NegR(c, items[i]))
  }

  /** One more term on each of the three sums. */
  lemma OneMoreTerm<P(!new)>(c: Curve<P>, f: Compression, it: Item, r: nat, w: nat, keys: P, rest: P, sum: P)
    requires IsAbelian(c.g) && |it.rs| == 64 && ItemDecodes(c, it)
    requires c.g.add(c.g.add(Times(c.g, w, c.base), keys), rest) == sum
    ensures c.g.add(c.g.add(Times(c.g, w + SOf(it) * r, c.base),
                            c.g.add(keys, Times(c.g, KeyScalar(f, it, r), NegKey(c, it)))),
                    c.g.add(rest, Times(c.g, r, NegR(c, it))))
         == c.g.add(sum, Term(c, f, it, r))
  {
    hide Times, SOf, KeyScalar, IsAbelian;
    TimesAdd(c.g, w, SOf(it) * r, c.base);
    SixSums(c.g, Times(c.g, w, c.base), keys, rest,
            Times(c.g, SOf(it) * r, c.base), Times(c.g, KeyScalar(f, it, r), NegKey(c, it)), Times(c.g, r, NegR(c, it)));
  }

  lemma CombinationStep<P>(g: Group<P>, s: seq<int>, p: seq<P>, n: nat)
    requires n <= |s| == |p|
    ensures LinearCombination(g, s, p, n)
         == if n == 0 then g.zero else g.add(LinearCombination(g, s, p, n - 1), Times(g, s[n - 1], p[n - 1]))
  {
  }

  lemma WeightedStep(items: seq<Item>, random: seq<seq<byte>>, n: nat)
    requires WellFormed(items, random) && n <= |items|
    ensures Weighted(items, random, n)
         == if n == 0 then 0 else Weighted(items, random, n - 1) + SOf(items[n - 1]) * LE(random[n - 1])
  {
  }

  /** The three sums together are the sum of the terms. */
  lemma {:induction false} SumsTogether<P(!new)>(c: Curve<P>, f: Compression, items: seq<Item>, random: seq<seq<byte>>, n: nat)
    requires IsAbelian(c.g) && WellFormed(items, random) && Decodes(c, items) && n <= |items|
    ensures c.g.add(c.g.add(Times(c.g, Weighted(items, random, n), c.base),
                            LinearCombination(c.g, KeyScalars(f, items, random), NegKeys(c, items), n)),
                    LinearCombination(c.g, RandomScalars(random), NegRs(c, items), n))
         == Terms(c, f, items, random, n)
  {
    hide Times, SOf, IsAbelian, Term, LE, KeyScalar, LinearCombination, Weighted;
    CombinationStep(c.g, KeyScalars(f, items, random), NegKeys(c, items), n);
    CombinationStep(c.g, RandomScalars(random), NegRs(c, items), n);
    WeightedStep(items, random, n);
    if n == 0 {
      NoTimes(c.g, c.base);
      Unit(c.g, c.g.zero);
    } else {
      SumsTogether(c, f, items, random, n - 1);
      OneMoreTerm(c, f, items[n - 1], LE(random[n - 1]), Weighted(items, random, n - 1),
                  LinearCombination(c.g, KeyScalars(f, items, random), NegKeys(c, items), n - 1),
                  LinearCombination(c.g, RandomScalars(random), NegRs(c, items), n - 1),
                  Terms(c, f, items, random, n - 1));
    }
  }

  lemma NoTimes<P>(g: Group<P>, p: P)
    ensures Times(g, 0, p) == g.zero
  {
  }

  lemma SixSums<P(!new)>(g: Group<P>, a: P, b: P, d: P, x: P, y: P, z: P)
    requires IsAbelian(g)
    ensures g.add(g.add(g.add(a, x), g.add(b, y)), g.add(d, z)) == g.add(g.add(g.add(a, b), d), g.add(g.add(x, y), z))
  {
    Interchange(g, a, x, b, y);
    Interchange(g, g.add(a, b), g.add(x, y), d, z);
  }

  /** What is handed to the multiplication. */
  lemma CombinationIs<P(!new)>(c: Curve<P>, f: Compression, items: seq<Item>, random: seq<seq<byte>>)
    requires IsAbelian(c.g) && Times(c.g, L, c.base) == c.g.zero && WellFormed(items, random) && Decodes(c, items)
    ensures LinearCombination(c.g, ScalarsOf(f, items, random), PointsOf(c, items), 2 * |items| + 1)
         == Terms(c, f, items, random, |items|)
  {
    hide Times, LinearCombination, Terms, Weighted, IsAbelian;
    var n := |items|;
    var w := Weighted(items, random, n);
    var ks, rs, ps, qs := KeyScalars(f, items, random), RandomScalars(random), NegKeys(c, items), NegRs(c, items);
    assert ScalarsOf(f, items, random) == ([w % L] + ks) + rs && PointsOf(c, items) == ([c.base] + ps) + qs;
    CombinationOfParts(c.g, [w % L] + ks, [c.base] + ps, rs, qs, n);
    CombinationOfParts(c.g, [w % L], [c.base], ks, ps, n);
    FirstTerm(c.g, w % L, c.base);
    TimesMod(c.g, w, L, c.base);
    SumsTogether(c, f, items, random, n);
  }

  /** With keys in the subgroup of order L, the terms are multiples of the residuals. */
  lemma {:induction false} TermsAreResiduals<P(!new)>(c: Curve<P>, f: Compression, items: seq<Item>, random: seq<seq<byte>>, n: nat)
    requires IsAbelian(c.g) && WellFormed(items, random) && Decodes(c, items) && KeysInSubgroup(c, items) && n <= |items|
    ensures Terms(c, f, items, random, n) == Residuals(c, f, items, random, n)
  {
    hide IsAbelian, Term, Residual, Times, LE;
    if n != 0 {
      TermsAreResiduals(c, f, items, random, n - 1);
      TermIsMultiple(c, f, items[n - 1], LE(random[n - 1]));
    }
  }

  lemma FirstTerm<P(!new)>(g: Group<P>, s: int, p: P)
    requires IsAbelian(g)
    ensures LinearCombination(g, [s], [p], 1) == Times(g, s, p)
  {
    Unit(g, Times(g, s, p));
    assert LinearCombination(g, [s], [p], 0) == g.zero;
  }

  lemma {:induction false} NoResidue<P(!new)>(c: Curve<P>, f: Compression, items: seq<Item>, random: seq<seq<byte>>, n: nat)
    requires IsAbelian(c.g) && WellFormed(items, random) && Decodes(c, items) && n <= |items|
    requires forall i :: 0 <= i < |items| ==> Residual(c, f, items[i]) == c.g.zero
    ensures Residuals(c, f, items, random, n) == c.g.zero
  {
    hide IsAbelian, Times, Residual, LE;
    if n != 0 {
      NoResidue(c, f, items, random, n - 1);
      TimesZero(c.g, LE(random[n - 1]));
      Unit(c.g, c.g.zero);
    }
  }

  // ---- when a batch passes ----

  lemma ScalarsBelowL(f: Compression, items: seq<Item>, random: seq<seq<byte>>)
    requires WellFormed(items, random)
    ensures forall i :: 0 <= i < 2 * |items| + 1 ==> ScalarsOf(f, items, random)[i] < L
  {
    hide LE, HOf, Weighted;
    var s, n := ScalarsOf(f, items, random), |items|;
    forall i | 0 <= i < 2 * n + 1 ensures s[i] < L {
      if i > n {
        RandomIsSmall(random[i - n - 1]);
      }
    }
  }

  /**
   For scalars for which the neutral test is right, a batch passes exactly when the sum
   of its terms is neutral; with keys in the subgroup that is the weighted sum of the
   residuals.
   */
  lemma PassesIff<P(!new)>(c: Curve<P>, f: Compression, items: seq<Item>, random: seq<seq<byte>>)
    requires IsCurve(c) && CofactorEight(c.g) && WellFormed(items, random) && Decodes(c, items)
    requires Decidable(ScalarsOf(f, items, random))
    ensures Passes(c, f, items, random) <==> Terms(c, f, items, random, |items|) == c.g.zero
    ensures KeysInSubgroup(c, items) ==>
              (Passes(c, f, items, random) <==> Residuals(c, f, items, random, |items|) == c.g.zero)
  {
    hide Times, LinearCombination, Terms, Residuals, KeysInSubgroup, Decidable, ScalarsOf, PointsOf, CofactorEight;
    CurveIsAbelian(c);
    CombinationIs(c, f, items, random);
    ScalarsBelowL(f, items, random);
    DecidableDecides(c.g, ScalarsOf(f, items, random), PointsOf(c, items));
    if KeysInSubgroup(c, items) {
      TermsAreResiduals(c, f, items, random, |items|);
    }
  }

  // ---- what the random scalars are for ----

  /** Random scalars that differ at signature j only. */
  predicate DifferAt(random: seq<seq<byte>>, random': seq<seq<byte>>, j: nat)
    requires |random| == |random'| && j < |random|
  {
    LE(random[j]) != LE(random'[j]) && forall i :: 0 <= i < |random| && i != j ==> random[i] == random'[i]
  }

  lemma ResidualsStep<P>(c: Curve<P>, f: Compression, items: seq<Item>, random: seq<seq<byte>>, n: nat)
    requires WellFormed(items, random) && Decodes(c, items) && n <= |items|
    ensures Residuals(c, f, items, random, n)
         == if n == 0 then c.g.zero
            else c.g.add(Residuals(c, f, items, random, n - 1), Times(c.g, LE(random[n - 1]), Residual(c, f, items[n - 1])))
  {
  }

  lemma {:induction false} SumsDiffer<P(!new)>(c: Curve<P>, f: Compression, items: seq<Item>, random: seq<seq<byte>>,
                                               random': seq<seq<byte>>, j: nat, n: nat)
    requires IsAbelian(c.g) && WellFormed(items, random) && WellFormed(items, random') && Decodes(c, items)
    requires j < |items| && n <= |items| && DifferAt(random, random', j)
    ensures n <= j ==> Residuals(c, f, items, random, n) == Residuals(c, f, items, random', n)
    ensures var d := Times(c.g, LE(random[j]) - LE(random'[j]), Residual(c, f, items[j]));
            n > j ==> Residuals(c, f, items, random, n) == c.g.add(Residuals(c, f, items, random', n), d)
  {
    hide IsAbelian, Times, Residual, Residuals, LE;
    ResidualsStep(c, f, items, random, n);
    ResidualsStep(c, f, items, random', n);
    if n != 0 {
      SumsDiffer(c, f, items, random, random', j, n - 1);
      var q, x := Residual(c, f, items[n - 1]), Residuals(c, f, items, random', n - 1);
      if n - 1 == j {
        Difference(c.g, x, LE(random[j]), LE(random'[j]), q);
      } else if n - 1 > j {
        Behind(c.g, x, Times(c.g, LE(random[j]) - LE(random'[j]), Residual(c, f, items[j])), Times(c.g, LE(random[n - 1]), q));
      }
    }
  }

  lemma Difference<P(!new)>(g: Group<P>, x: P, r: int, r': int, q: P)
    requires IsAbelian(g)
    ensures g.add(x, Times(g, r, q)) == g.add(g.add(x, Times(g, r', q)), Times(g, r - r', q))
  {
    hide Times;
    TimesAdd(g, r', r - r', q);
    Associate(g, x, Times(g, r', q), Times(g, r - r', q));
  }

  lemma Behind<P(!new)>(g: Group<P>, x: P, d: P, t: P)
    requires IsAbelian(g)
    ensures g.add(g.add(x, d), t) == g.add(g.add(x, t), d)
  {
    Associate(g, x, d, t);
    Commute(g, d, t);
    Associate(g, x, t, d);
  }

  lemma KilledByEight<P(!new)>(g: Group<P>, k: int, q: P)
    requires IsAbelian(g) && CofactorEight(g) && k != 0 && 0 - L < k < L && Times(g, k, q) == g.zero
    ensures Times(g, 8, q) == g.zero
  {
    hide Times;
    if k < 0 {
      TimesNeg(g, k, q);
      Inverse(g, g.zero);
      Unit(g, g.neg(g.zero));
      var m: nat := 0 - k;
      assert Times(g, m, q) == g.zero;
    } else {
      var m: nat := k;
      assert Times(g, m, q) == g.zero;
    }
  }

  /**
   With all else fixed, at most one value of its random scalar lets a batch pass with a
   signature whose residual is not killed by 8.
   */
  lemma AtMostOneScalar<P(!new)>(c: Curve<P>, f: Compression, items: seq<Item>, random: seq<seq<byte>>,
                                 random': seq<seq<byte>>, j: nat)
    requires IsCurve(c) && CofactorEight(c.g) && WellFormed(items, random) && WellFormed(items, random')
    requires Decodes(c, items) && KeysInSubgroup(c, items) && j < |items| && DifferAt(random, random', j)
    requires Decidable(ScalarsOf(f, items, random)) && Decidable(ScalarsOf(f, items, random'))
    requires Passes(c, f, items, random) && Passes(c, f, items, random')
    ensures Times(c.g, 8, Residual(c, f, items[j])) == c.g.zero
  {
    hide Times, Residual, Residuals, Terms, KeysInSubgroup, Decidable, ScalarsOf, Passes, CofactorEight, LE, IsAbelian;
    CurveIsAbelian(c);
    PassesIff(c, f, items, random);
    PassesIff(c, f, items, random');
    SumsDiffer(c, f, items, random, random', j, |items|);
    var k, q := LE(random[j]) - LE(random'[j]), Residual(c, f, items[j]);
    Unit(c.g, Times(c.g, k, q));
    RandomIsSmall(random[j]);
    RandomIsSmall(random'[j]);
    KilledByEight(c.g, k, q);
  }

  // ---- batch and single verification ----

  /** Decoding undoes encoding, up to the sign, on all points. */
  ghost predicate DecodesAll<P(!new)>(c: Curve<P>) {
    forall p :: c.unpackNegative(c.pack(p)) == Some(c.g.neg(p))
  }

  /** R is the encoding of the point it decodes to. */
  predicate CanonicalR<P(==)>(c: Curve<P>, it: Item)
    requires |it.rs| == 64 && ItemDecodes(c, it)
  {
    c.pack(c.g.neg(NegR(c, it))) == it.rs[..32]
  }

  /** h·(-A) + S·B, whose encoding single verification compares with R. */
  function CheckR<P>(c: Curve<P>, f: Compression, it: Item): P
    requires |it.rs| == 64 && ItemDecodes(c, it)
  {
    c.g.add(Times(c.g, HOf(f, it), NegKey(c, it)), Times(c.g, SOf(it), c.base))
  }

  lemma ResidualIff<P(!new)>(c: Curve<P>, f: Compression, it: Item)
    requires IsAbelian(c.g) && |it.rs| == 64 && ItemDecodes(c, it)
    ensures Residual(c, f, it) == c.g.zero <==> CheckR(c, f, it) == c.g.neg(NegR(c, it))
  {
    hide Times, SOf, HOf, NegKey, NegR;
    var x, y, o := Times(c.g, SOf(it), c.base), Times(c.g, HOf(f, it), NegKey(c, it)), NegR(c, it);
    Commute(c.g, x, y);
    Inverse(c.g, o);
    NeutralSum(c.g, CheckR(c, f, it), o);
  }

  lemma NeutralSum<P(!new)>(g: Group<P>, x: P, y: P)
    requires IsAbelian(g)
    ensures g.add(x, y) == g.zero <==> x == g.neg(y)
  {
    Inverse(g, y);
    Cancel(g, x, y);
    Unit(g, g.neg(y));
    Commute(g, g.zero, g.neg(y));
  }

  /**
   Single verification asks for three things: a neutral residual, an R in canonical
   form, and S below 2^253. The batch asks for the first only.
   */
  lemma SingleIff<P(!new)>(c: Curve<P>, f: Compression, it: Item)
    requires IsAbelian(c.g) && DecodesAll(c) && |it.rs| == 64 && ItemDecodes(c, it)
    ensures Accepted(c, f, it) <==> Residual(c, f, it) == c.g.zero && CanonicalR(c, it) && LE(it.rs[32..]) < Pow2(253)
  {
    hide IsAbelian, Times, Digest, LE, Pow2, And, Residual;
    TopBitsIff(it.rs[32..]);
    assert it.rs[32..][31] == it.rs[63];
    ResidualIff(c, f, it);
    var q := CheckR(c, f, it);
    assert c.unpackNegative(c.pack(q)) == Some(c.g.neg(q));
    DoubleNeg(c.g, q);
  }

  lemma DoubleNeg<P(!new)>(g: Group<P>, x: P)
    requires IsAbelian(g)
    ensures g.neg(g.neg(x)) == x
  {
    Inverse(g, x);
    NeutralSum(g, x, g.neg(x));
  }

  /** Where the residuals are neutral the batch passes, and single verification may still refuse. */
  lemma BatchIgnores<P(!new)>(c: Curve<P>, f: Compression, items: seq<Item>, random: seq<seq<byte>>, i: nat)
    requires IsCurve(c) && DecodesAll(c) && CofactorEight(c.g) && WellFormed(items, random) && Decodes(c, items)
    requires KeysInSubgroup(c, items) && Decidable(ScalarsOf(f, items, random)) && i < |items|
    requires forall k :: 0 <= k < |items| ==> Residual(c, f, items[k]) == c.g.zero
    ensures Passes(c, f, items, random)
    ensures Accepted(c, f, items[i]) <==> CanonicalR(c, items[i]) && LE(items[i].rs[32..]) < Pow2(253)
  {
    hide Times, Residual, Residuals, Terms, KeysInSubgroup, Decidable, ScalarsOf, Passes, Accepted, CofactorEight;
    hide LE, Pow2, CanonicalR;
    CurveIsAbelian(c);
    PassesIff(c, f, items, random);
    NoResidue(c, f, items, random, |items|);
    SingleIff(c, f, items[i]);
  }

  // ---- honest signatures ----

  ghost predicate Honest<P>(c: Curve<P>, f: Compression, it: Item) {
    exists sk :: it.pk == PublicKeyOf(c, f, sk) && it.rs == SignatureOf(c, f, it.m, sk, it.pk)
  }

  /** The key and R of an honest signature decode, its residual is neutral, and it is accepted. */
  lemma HonestItem<P(!new)>(c: Curve<P>, f: Compression, it: Item)
    requires IsCurve(c) && Honest(c, f, it)
    ensures |it.rs| == 64 && LE(it.rs[32..]) < L && Accepted(c, f, it) && ItemDecodes(c, it)
    ensures Residual(c, f, it) == c.g.zero && Times(c.g, L, NegKey(c, it)) == c.g.zero
  {
    hide Times, Digest, LE, ToLE, ExpandedKey, BaseTable, OddMultiples, IsAbelian, Residual, Accepts;
    var sk :| it.pk == PublicKeyOf(c, f, sk) && it.rs == SignatureOf(c, f, it.m, sk, it.pk);
    SignaturesAreAccepted(c, f, it.m, sk);
    var a, r := SecretScalar(f, sk), Nonce(f, it.m, sk);
    assert DecodesNegative(c, a) && DecodesNegative(c, r);
    var R := c.pack(Times(c.g, r, c.base));
    var h := Challenge(f, R, it.pk, it.m);
    var s := (h * a + r) % L;
    assert it.rs[..32] == R && it.rs[32..] == ToLE(s, 32);
    ScalarBytes(s);
    ModUnique(s, L, 0, s);
    VerificationEquation(c.g, c.base, h, a, r);
    ResidualIff(c, f, it);
    DoubleNeg(c.g, Times(c.g, r, c.base));
    NegMultipleInSubgroup(c, a);
  }

  lemma NegMultipleInSubgroup<P(!new)>(c: Curve<P>, a: nat)
    requires IsAbelian(c.g) && Times(c.g, L, c.base) == c.g.zero
    ensures Times(c.g, L, c.g.neg(Times(c.g, a, c.base))) == c.g.zero
  {
    hide Times;
    TimesOfNeg(c.g, L, Times(c.g, a, c.base));
    TimesTimes(c.g, L, a, c.base);
    TimesTimes(c.g, a, L, c.base);
    assert L * a == a * L;
    TimesZero(c.g, a);
    NeutralSum(c.g, c.g.zero, c.g.zero);
    Unit(c.g, c.g.zero);
  }

  /** Whatever the random scalars, every honest signature is found valid. */
  lemma HonestAreValid<P(!new)>(c: Curve<P>, f: Compression, items: seq<Item>, random: seq<seq<byte>>, valid: seq<int>)
    requires IsCurve(c) && WellFormed(items, random) && |valid| == |items| && Verdicts(c, f, items, random, valid)
    requires forall i :: 0 <= i < |items| ==> Honest(c, f, items[i])
    ensures 0 !in valid
  {
    hide IsCurve, Honest, Accepted, Passes;
    forall i | 0 <= i < |items| ensures valid[i] == 1 {
      HonestItem(c, f, items[i]);
    }
  }

  /** A batch of honest signatures passes, where the neutral test is right for its scalars. */
  lemma HonestPass<P(!new)>(c: Curve<P>, f: Compression, items: seq<Item>, random: seq<seq<byte>>)
    requires IsCurve(c) && CofactorEight(c.g) && WellFormed(items, random)
    requires (forall i :: 0 <= i < |items| ==> Honest(c, f, items[i])) && Decidable(ScalarsOf(f, items, random))
    ensures Passes(c, f, items, random)
  {
    hide Times, Residual, Residuals, Terms, Decidable, ScalarsOf, Passes, Accepted, CofactorEight, Honest;
    CurveIsAbelian(c);
    forall i | 0 <= i < |items|
      ensures ItemDecodes(c, items[i]) && Residual(c, f, items[i]) == c.g.zero && Times(c.g, L, NegKey(c, items[i])) == c.g.zero
    {
      HonestItem(c, f, items[i]);
    }
    PassesIff(c, f, items, random);
    NoResidue(c, f, items, random, |items|);
  }

  /** An honest signature with 2 L added to S: the residual stays neutral, but alone it is refused. */
  lemma LargeScalar<P(!new)>(c: Curve<P>, f: Compression, it: Item) returns (t: Item)
    requires IsCurve(c) && Honest(c, f, it)
    ensures t.m == it.m && t.pk == it.pk && |t.rs| == |it.rs| == 64 && t.rs[..32] == it.rs[..32]
    ensures LE(t.rs[32..]) == LE(it.rs[32..]) + 2 * L
    ensures ItemDecodes(c, t) && Residual(c, f, t) == c.g.zero && Accepted(c, f, it) && !Accepted(c, f, t)
  {
    hide IsCurve, Times, Digest, LE, ToLE, Pow2, And;
    HonestItem(c, f, it);
    var x := LE(it.rs[32..]);
    TwiceL(x);
    ToLEValue(x + 2 * L, 32);
    t := Item(it.m, it.pk, it.rs[..32] + ToLE(x + 2 * L, 32));
    assert t.rs[..32] == it.rs[..32] && t.rs[32..] == ToLE(x + 2 * L, 32) && t.rs[32..][31] == t.rs[63];
    TopBitsIff(t.rs[32..]);
  }

  lemma TwiceL(x: nat)
    requires x < L
    ensures Pow2(253) <= x + 2 * L < Pow2(256) && (x + 2 * L) % L == x % L
  {
    hide Pow2;
    Pow248();
    Pow2Five();
    Pow2Add(248, 5);
    Pow2Add(248, 8);
    Pow2Values();
    ModUnique(x, L, 0, x);
    ModUnique(x + 2 * L, L, 2, x);
  }
}
