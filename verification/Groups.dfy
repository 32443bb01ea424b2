/**
 Abelian groups, in the generality the curve code needs.

 Points of the curve are used only through addition and negation, so a group is a
 record of its operations and every theorem about scalar multiplication holds in
 every record that satisfies `IsAbelian`. The laws are instantiated by the small
 lemmas below, through the `At...` marks, and nowhere else.
 */
module Groups {

  datatype Group<!P> = Group(zero: P, add: (P, P) -> P, neg: P -> P)

  predicate At1<P>(x: P) { true }
  predicate At2<P>(x: P, y: P) { true }
  predicate At3<P>(x: P, y: P, z: P) { true }

  ghost predicate IsAbelian<P(!new)>(g: Group<P>) {
    && (forall x: P {:trigger At1(x)} :: At1(x) ==> g.add(x, g.zero) == x && g.add(x, g.neg(x)) == g.zero)
    && (forall x: P, y: P {:trigger At2(x, y)} :: At2(x, y) ==> g.add(x, y) == g.add(y, x))
    && (forall x: P, y: P, z: P {:trigger At3(x, y, z)} ::
          At3(x, y, z) ==> g.add(g.add(x, y), z) == g.add(x, g.add(y, z)))
  }

  /** n·p for every integer n, by repeated addition. */
  function Times<P>(g: Group<P>, n: int, p: P): P
    decreases if n < 0 then -n else n
  {
    if n == 0 then g.zero
    else if n > 0 then g.add(Times(g, n - 1, p), p)
    else g.add(Times(g, n + 1, p), g.neg(p))
  }

  /** Σ s[i]·p[i], over the first n entries. */
  function LinearCombination<P>(g: Group<P>, s: seq<int>, p: seq<P>, n: nat): P
    requires n <= |s| && n <= |p|
  {
    if n == 0 then g.zero
    else g.add(LinearCombination(g, s, p, n - 1), Times(g, s[n - 1], p[n - 1]))
  }

  // ---- the laws, one instance at a time ----

  lemma Unit<P(!new)>(g: Group<P>, x: P)
    requires IsAbelian(g)
    ensures g.add(x, g.zero) == x && g.add(g.zero, x) == x
  {
    assert At1(x) && At2(x, g.zero);
  }

  lemma Inverse<P(!new)>(g: Group<P>, x: P)
    requires IsAbelian(g)
    ensures g.add(x, g.neg(x)) == g.zero && g.add(g.neg(x), x) == g.zero
  {
    assert At1(x) && At2(x, g.neg(x));
  }

  lemma Commute<P(!new)>(g: Group<P>, x: P, y: P)
    requires IsAbelian(g)
    ensures g.add(x, y) == g.add(y, x)
  {
    assert At2(x, y);
  }

  lemma Associate<P(!new)>(g: Group<P>, x: P, y: P, z: P)
    requires IsAbelian(g)
    ensures g.add(g.add(x, y), z) == g.add(x, g.add(y, z))
  {
    assert At3(x, y, z);
  }

  /** (w + x) + (y + z) == (w + y) + (x + z) */
  lemma Interchange<P(!new)>(g: Group<P>, w: P, x: P, y: P, z: P)
    requires IsAbelian(g)
    ensures g.add(g.add(w, x), g.add(y, z)) == g.add(g.add(w, y), g.add(x, z))
  {
    Associate(g, w, x, g.add(y, z));
    Associate(g, x, y, z);
    Commute(g, x, y);
    Associate(g, y, x, z);
    Associate(g, w, y, g.add(x, z));
  }

  /** (x + y) + z == (x + z) + y */
  lemma SwapLast<P(!new)>(g: Group<P>, x: P, y: P, z: P)
    requires IsAbelian(g)
    ensures g.add(g.add(x, y), z) == g.add(g.add(x, z), y)
  {
    Associate(g, x, y, z);
    Commute(g, y, z);
    Associate(g, x, z, y);
  }

  lemma Cancel<P(!new)>(g: Group<P>, x: P, y: P)
    requires IsAbelian(g)
    ensures g.add(g.add(x, y), g.neg(y)) == x && g.add(g.add(x, g.neg(y)), y) == x
  {
    Associate(g, x, y, g.neg(y));
    Associate(g, x, g.neg(y), y);
    Inverse(g, y);
    Unit(g, x);
  }

  /** A solution of x + y == 0 is the negative. */
  lemma NegUnique<P(!new)>(g: Group<P>, x: P, y: P)
    requires IsAbelian(g)
    requires g.add(x, y) == g.zero
    ensures y == g.neg(x)
  {
    Commute(g, x, y);
    Cancel(g, y, x);
    Unit(g, g.neg(x));
  }

  // ---- scalar multiplication ----

  lemma TimesOne<P(!new)>(g: Group<P>, p: P)
    requires IsAbelian(g)
    ensures Times(g, 1, p) == p
  {
    Unit(g, p);
    assert Times(g, 0, p) == g.zero;
  }

  lemma {:induction false} TimesSucc<P(!new)>(g: Group<P>, n: int, p: P)
    requires IsAbelian(g)
    ensures Times(g, n + 1, p) == g.add(Times(g, n, p), p)
  {
    if n < 0 {
      Cancel(g, Times(g, n + 1, p), p);
    }
  }

  lemma TimesPred<P(!new)>(g: Group<P>, n: int, p: P)
    requires IsAbelian(g)
    ensures Times(g, n - 1, p) == g.add(Times(g, n, p), g.neg(p))
  {
    TimesSucc(g, n - 1, p);
    Cancel(g, Times(g, n - 1, p), p);
  }

  lemma {:induction false} TimesAdd<P(!new)>(g: Group<P>, m: int, n: int, p: P)
    requires IsAbelian(g)
    ensures Times(g, m + n, p) == g.add(Times(g, m, p), Times(g, n, p))
    decreases if n < 0 then -n else n
  {
    if n == 0 {
      Unit(g, Times(g, m, p));
    } else if n > 0 {
      TimesAdd(g, m, n - 1, p);
      TimesSucc(g, m + n - 1, p);
      Associate(g, Times(g, m, p), Times(g, n - 1, p), p);
    } else {
      TimesAdd(g, m, n + 1, p);
      TimesPred(g, m + n + 1, p);
      Associate(g, Times(g, m, p), Times(g, n + 1, p), g.neg(p));
    }
  }

  lemma TimesNeg<P(!new)>(g: Group<P>, n: int, p: P)
    requires IsAbelian(g)
    ensures Times(g, -n, p) == g.neg(Times(g, n, p))
  {
    TimesAdd(g, n, -n, p);
    assert Times(g, 0, p) == g.zero;
    NegUnique(g, Times(g, n, p), Times(g, -n, p));
  }

  lemma {:induction false} TimesTimes<P(!new)>(g: Group<P>, m: int, n: int, p: P)
    requires IsAbelian(g)
    ensures Times(g, m * n, p) == Times(g, m, Times(g, n, p))
    decreases if m < 0 then -m else m
  {
    var q := Times(g, n, p);
    if m == 0 {
      assert m * n == 0;
    } else if m > 0 {
      TimesTimes(g, m - 1, n, p);
      assert m * n == (m - 1) * n + n;
      TimesAdd(g, (m - 1) * n, n, p);
    } else {
      TimesTimes(g, m + 1, n, p);
      assert m * n == (m + 1) * n + -n;
      TimesAdd(g, (m + 1) * n, -n, p);
      TimesNeg(g, n, p);
    }
  }

  lemma NegAdd<P(!new)>(g: Group<P>, x: P, y: P)
    requires IsAbelian(g)
    ensures g.neg(g.add(x, y)) == g.add(g.neg(x), g.neg(y))
  {
    Interchange(g, x, y, g.neg(x), g.neg(y));
    Inverse(g, x);
    Inverse(g, y);
    Unit(g, g.zero);
    NegUnique(g, g.add(x, y), g.add(g.neg(x), g.neg(y)));
  }

  lemma {:induction false} TimesOfSum<P(!new)>(g: Group<P>, n: int, x: P, y: P)
    requires IsAbelian(g)
    ensures Times(g, n, g.add(x, y)) == g.add(Times(g, n, x), Times(g, n, y))
    decreases if n < 0 then -n else n
  {
    if n == 0 {
      Unit(g, g.zero);
    } else if n > 0 {
      TimesOfSum(g, n - 1, x, y);
      Interchange(g, Times(g, n - 1, x), Times(g, n - 1, y), x, y);
    } else {
      TimesOfSum(g, n + 1, x, y);
      NegAdd(g, x, y);
      Interchange(g, Times(g, n + 1, x), Times(g, n + 1, y), g.neg(x), g.neg(y));
    }
  }

  lemma {:induction false} TimesZero<P(!new)>(g: Group<P>, n: int)
    requires IsAbelian(g)
    ensures Times(g, n, g.zero) == g.zero
    decreases if n < 0 then -n else n
  {
    if n > 0 {
      TimesZero(g, n - 1);
      Unit(g, g.zero);
    } else if n < 0 {
      TimesZero(g, n + 1);
      Inverse(g, g.zero);
      Unit(g, g.neg(g.zero));
    }
  }

  lemma TimesOfNeg<P(!new)>(g: Group<P>, n: int, p: P)
    requires IsAbelian(g)
    ensures Times(g, n, g.neg(p)) == g.neg(Times(g, n, p))
  {
    TimesOfSum(g, n, p, g.neg(p));
    Inverse(g, p);
    TimesZero(g, n);
    NegUnique(g, Times(g, n, p), Times(g, n, g.neg(p)));
  }

  /** Multiples of an element of order dividing `order` depend only on the residue. */
  lemma TimesMod<P(!new)>(g: Group<P>, n: int, order: nat, p: P)
    requires IsAbelian(g) && order >= 1
    requires Times(g, order, p) == g.zero
    ensures Times(g, n % order, p) == Times(g, n, p)
  {
    var q := n / order;
    assert n == q * order + n % order;
    TimesAdd(g, q * order, n % order, p);
    TimesTimes(g, q, order, p);
    TimesZero(g, q);
    Unit(g, Times(g, n % order, p));
  }

  // ---- the integers, the group in which a coefficient can be read back ----

  const INTEGERS: Group<int> := Group(0, (x: int, y: int) => x + y, (x: int) => -x)

  lemma IntegersAreAbelian()
    ensures IsAbelian(INTEGERS)
  {
  }

  lemma {:induction false} TimesInteger(n: int, p: int)
    ensures Times(INTEGERS, n, p) == n * p
    decreases if n < 0 then -n else n
  {
    if n > 0 {
      TimesInteger(n - 1, p);
      assert (n - 1) * p + p == n * p;
    } else if n < 0 {
      TimesInteger(n + 1, p);
      assert (n + 1) * p - p == n * p;
    }
  }

  // ---- linear combinations ----

  lemma {:induction false} SameCombination<P>(g: Group<P>, s: seq<int>, p: seq<P>, s': seq<int>, p': seq<P>, n: nat)
    requires n <= |s| && n <= |p| && n <= |s'| && n <= |p'|
    requires forall i :: 0 <= i < n ==> s[i] == s'[i] && p[i] == p'[i]
    ensures LinearCombination(g, s, p, n) == LinearCombination(g, s', p', n)
  {
    if n != 0 {
      SameCombination(g, s, p, s', p', n - 1);
    }
  }

  /** Changing one term changes the combination by the difference of the terms. */
  lemma {:induction false} ReplaceTerm<P(!new)>(g: Group<P>, s: seq<int>, p: seq<P>, n: nat, i: nat, c: int, q: P)
    requires IsAbelian(g)
    requires i < n <= |s| && n <= |p|
    ensures g.add(LinearCombination(g, s[i := c], p[i := q], n), Times(g, s[i], p[i]))
         == g.add(LinearCombination(g, s, p, n), Times(g, c, q))
  {
    var s', p' := s[i := c], p[i := q];
    var rest := LinearCombination(g, s, p, n - 1);
    if i == n - 1 {
      SameCombination(g, s', p', s, p, n - 1);
      SwapLast(g, rest, Times(g, c, q), Times(g, s[i], p[i]));
    } else {
      ReplaceTerm(g, s, p, n - 1, i, c, q);
      var last := Times(g, s[n - 1], p[n - 1]);
      SwapLast(g, LinearCombination(g, s', p', n - 1), last, Times(g, s[i], p[i]));
      SwapLast(g, rest, last, Times(g, c, q));
    }
  }

  /** When every coefficient but one is zero the combination is that one term. */
  lemma {:induction false} SingleTerm<P(!new)>(g: Group<P>, s: seq<int>, p: seq<P>, n: nat, i: nat)
    requires IsAbelian(g)
    requires i < n <= |s| && n <= |p|
    requires forall j :: 0 <= j < n && j != i ==> s[j] == 0
    ensures LinearCombination(g, s, p, n) == Times(g, s[i], p[i])
  {
    if i == n - 1 {
      AllZero(g, s, p, n - 1);
      Unit(g, Times(g, s[i], p[i]));
    } else {
      SingleTerm(g, s, p, n - 1, i);
      assert Times(g, s[n - 1], p[n - 1]) == g.zero;
      Unit(g, Times(g, s[i], p[i]));
    }
  }

  lemma {:induction false} AllZero<P(!new)>(g: Group<P>, s: seq<int>, p: seq<P>, n: nat)
    requires IsAbelian(g)
    requires n <= |s| && n <= |p|
    requires forall j :: 0 <= j < n ==> s[j] == 0
    ensures LinearCombination(g, s, p, n) == g.zero
  {
    if n != 0 {
      AllZero(g, s, p, n - 1);
      Unit(g, g.zero);
    }
  }
}
