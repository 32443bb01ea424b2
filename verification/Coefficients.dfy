/**
 The points of a batch as integer combinations of the points it started with. Every
 round of the multiplication changes one scalar and one point; the matrix K of
 coefficients follows, and so says what each point has become, in any abelian group.
 */
module Coefficients {
  import opened Bits
  import opened Groups

  function UnitAt(n: nat, j: nat): (u: seq<int>)
    ensures |u| == n
  {
    seq(n, i => if i == j then 1 else 0)
  }

  function Identity(n: nat): (k: seq<seq<int>>)
    ensures |k| == n
  {
    seq(n, i requires 0 <= i < n => UnitAt(n, i))
  }

  predicate Square(k: seq<seq<int>>) {
    forall i :: 0 <= i < |k| ==> |k[i]| == |k|
  }

  function Column(k: seq<seq<int>>, j: nat): (c: seq<int>)
    requires Square(k) && j < |k|
    ensures |c| == |k|
  {
    seq(|k|, i requires 0 <= i < |k| => k[i][j])
  }

  function AddRows(x: seq<int>, y: seq<int>): (z: seq<int>)
    requires |x| == |y|
    ensures |z| == |x|
  {
    seq(|x|, j requires 0 <= j < |x| => x[j] + y[j])
  }

  // ---- combinations ----

  lemma {:induction false} ZeroTail<P(!new)>(g: Group<P>, s: seq<int>, p: seq<P>, m: nat, n: nat)
    requires IsAbelian(g) && m <= n <= |s| && n <= |p|
    requires forall i :: m <= i < n ==> s[i] == 0
    ensures LinearCombination(g, s, p, n) == LinearCombination(g, s, p, m)
    decreases n
  {
    if m < n {
      ZeroTail(g, s, p, m, n - 1);
      assert Times(g, s[n - 1], p[n - 1]) == g.zero;
      Unit(g, LinearCombination(g, s, p, m));
    }
  }

  lemma UnitPicks<P(!new)>(g: Group<P>, p: seq<P>, i: nat)
    requires IsAbelian(g) && i < |p|
    ensures LinearCombination(g, UnitAt(|p|, i), p, |p|) == p[i]
  {
    SingleTerm(g, UnitAt(|p|, i), p, |p|, i);
    TimesOne(g, p[i]);
  }

  lemma {:induction false} CombinationAtUnit(s: seq<int>, j: nat, n: nat)
    requires n <= |s|
    ensures LinearCombination(INTEGERS, s, UnitAt(|s|, j), n) == if j < n then s[j] else 0
  {
    if n != 0 {
      CombinationAtUnit(s, j, n - 1);
      TimesInteger(s[n - 1], UnitAt(|s|, j)[n - 1]);
    }
  }

  lemma {:induction false} CombinationOfSum<P(!new)>(g: Group<P>, x: seq<int>, y: seq<int>, p: seq<P>, n: nat)
    requires IsAbelian(g) && |x| == |y| && n <= |x| && n <= |p|
    ensures LinearCombination(g, AddRows(x, y), p, n) == g.add(LinearCombination(g, x, p, n), LinearCombination(g, y, p, n))
  {
    if n == 0 {
      Unit(g, g.zero);
    } else {
      CombinationOfSum(g, x, y, p, n - 1);
      TimesAdd(g, x[n - 1], y[n - 1], p[n - 1]);
      Interchange(g, LinearCombination(g, x, p, n - 1), LinearCombination(g, y, p, n - 1),
                  Times(g, x[n - 1], p[n - 1]), Times(g, y[n - 1], p[n - 1]));
    }
  }

  lemma {:induction false} CombinationScaled<P(!new)>(g: Group<P>, d: int, x: seq<int>, y: seq<int>, p: seq<P>, n: nat)
    requires IsAbelian(g) && n <= |x| && n <= |y| && n <= |p|
    requires forall i :: 0 <= i < n ==> y[i] == d * x[i]
    ensures LinearCombination(g, y, p, n) == Times(g, d, LinearCombination(g, x, p, n))
  {
    if n == 0 {
      TimesZero(g, d);
    } else {
      CombinationScaled(g, d, x, y, p, n - 1);
      TimesTimes(g, d, x[n - 1], p[n - 1]);
      TimesOfSum(g, d, LinearCombination(g, x, p, n - 1), Times(g, x[n - 1], p[n - 1]));
    }
  }

  /** A sum of integer products of which one at most is not zero. */
  lemma {:induction false} OneProduct(v: seq<int>, c: seq<int>, n: nat, r: nat)
    requires n <= |v| && n <= |c|
    requires forall i :: 0 <= i < n && i != r ==> v[i] == 0 || c[i] == 0
    ensures LinearCombination(INTEGERS, v, c, n) == if r < n then v[r] * c[r] else 0
  {
    if n != 0 {
      OneProduct(v, c, n - 1, r);
      TimesInteger(v[n - 1], c[n - 1]);
    }
  }

  // ---- one round ----

  /** a·A + b·B == (a - b)·A + b·(B + A) */
  lemma RoundKeepsCombination<P(!new)>(g: Group<P>, v: seq<nat>, p: seq<P>, n: nat, a: nat, b: nat)
    requires IsAbelian(g)
    requires a < n && b < n && n <= |v| && n <= |p| && a != b && v[b] <= v[a]
    ensures LinearCombination(g, v[a := v[a] - v[b]], p[b := g.add(p[b], p[a])], n) == LinearCombination(g, v, p, n)
  {
    var x, y := v[a], v[b];
    var v' := v[a := x - y];
    var p' := p[b := g.add(p[b], p[a])];
    assert v'[b := y] == v' && p[a := p[a]] == p;
    ReplaceTerm(g, v, p, n, a, x - y, p[a]);
    ReplaceTerm(g, v', p, n, b, y, g.add(p[b], p[a]));
    var before, mid, after := LinearCombination(g, v, p, n), LinearCombination(g, v', p, n),
                              LinearCombination(g, v', p', n);
    // mid + x·A == before + (x - y)·A and after + y·B == mid + y·(B + A)
    TimesOfSum(g, y, p[b], p[a]);
    TimesAdd(g, x - y, y, p[a]);
    var xA, dA, yA, yB := Times(g, x, p[a]), Times(g, x - y, p[a]), Times(g, y, p[a]), Times(g, y, p[b]);
    RoundAlgebra(g, before, mid, after, xA, dA, yA, yB);
  }

  lemma RoundAlgebra<P(!new)>(g: Group<P>, before: P, mid: P, after: P, xA: P, dA: P, yA: P, yB: P)
    requires IsAbelian(g)
    requires g.add(mid, xA) == g.add(before, dA)
    requires xA == g.add(dA, yA)
    requires g.add(after, yB) == g.add(mid, g.add(yB, yA))
    ensures after == before
  {
    Commute(g, yB, yA);
    Associate(g, mid, yA, yB);
    Cancel(g, after, yB);
    Cancel(g, g.add(mid, yA), yB);
    assert after == g.add(mid, yA);
    Commute(g, dA, yA);
    Associate(g, mid, yA, dA);
    Cancel(g, g.add(mid, yA), dA);
    Cancel(g, before, dA);
  }

  // ---- the matrix ----

  /** K has a unit row for every entry that has not been in the heap, and nothing of those in the other rows. */
  predicate Untouched(K: seq<seq<int>>, n: nat)
    requires Square(K)
  {
    && (forall i :: n <= i < |K| ==> K[i] == UnitAt(|K|, i))
    && (forall i, j :: 0 <= i < n <= j < |K| && i < |K| ==> K[i][j] == 0)
  }

  ghost predicate Rows<P>(g: Group<P>, K: seq<seq<int>>, p0: seq<P>, p: seq<P>)
    requires Square(K) && |K| == |p0| == |p|
  {
    forall i :: 0 <= i < |p| ==> p[i] == LinearCombination(g, K[i], p0, |p0|)
  }

  ghost predicate Columns(K: seq<seq<int>>, s0: seq<nat>, v: seq<nat>)
    requires Square(K) && |K| == |s0| == |v|
  {
    forall j :: 0 <= j < |K| ==> LinearCombination(INTEGERS, v, Column(K, j), |K|) == s0[j]
  }

  /** Point i is the combination of the points p0 by row i, and the scalars v weigh the rows to the scalars s0. */
  ghost predicate Spans<P>(g: Group<P>, K: seq<seq<int>>, s0: seq<nat>, p0: seq<P>, v: seq<nat>, p: seq<P>, n: nat) {
    && Square(K) && |K| == |s0| == |p0| == |v| == |p|
    && Untouched(K, n) && Rows(g, K, p0, p) && Columns(K, s0, v)
  }

  lemma SpansStart<P(!new)>(g: Group<P>, s0: seq<nat>, p0: seq<P>, n: nat)
    requires IsAbelian(g) && |s0| == |p0|
    ensures Spans(g, Identity(|s0|), s0, p0, s0, p0, n)
  {
    var K := Identity(|s0|);
    forall i | 0 <= i < |p0| ensures p0[i] == LinearCombination(g, K[i], p0, |p0|) {
      UnitPicks(g, p0, i);
    }
    forall j | 0 <= j < |K| ensures LinearCombination(INTEGERS, s0, Column(K, j), |K|) == s0[j] {
      assert Column(K, j) == UnitAt(|s0|, j);
      CombinationAtUnit(s0, j, |s0|);
    }
  }

  lemma SpansMore<P>(g: Group<P>, K: seq<seq<int>>, s0: seq<nat>, p0: seq<P>, v: seq<nat>, p: seq<P>, m: nat, n: nat)
    requires Spans(g, K, s0, p0, v, p, m) && m <= n
    ensures Spans(g, K, s0, p0, v, p, n)
  {
    hide Rows, Columns;
  }

  lemma SpansRound<P(!new)>(g: Group<P>, K: seq<seq<int>>, s0: seq<nat>, p0: seq<P>, v: seq<nat>, p: seq<P>, n: nat, a: nat, b: nat)
    requires IsAbelian(g) && Spans(g, K, s0, p0, v, p, n)
    requires a < n && b < n && n <= |v| && a != b && v[b] <= v[a]
    ensures Spans(g, K[b := AddRows(K[b], K[a])], s0, p0, v[a := v[a] - v[b]], p[b := g.add(p[b], p[a])], n)
  {
    hide LinearCombination;
    var K' := K[b := AddRows(K[b], K[a])];
    CombinationOfSum(g, K[b], K[a], p0, |p0|);
    forall j | 0 <= j < |K| ensures LinearCombination(INTEGERS, v[a := v[a] - v[b]], Column(K', j), |K|) == s0[j] {
      assert Column(K', j) == Column(K, j)[b := INTEGERS.add(Column(K, j)[b], Column(K, j)[a])];
      IntegersAreAbelian();
      RoundKeepsCombination(INTEGERS, v, Column(K, j), |K|, a, b);
    }
    assert Square(K') && Untouched(K', n);
  }

  /** Each entry divided by d. */
  function Quotients(s: seq<nat>, d: nat): (q: seq<int>)
    ensures |q| == |s|
  {
    seq(|s|, i requires 0 <= i < |s| => if d == 0 then 0 else s[i] / d)
  }

  /** When one scalar d is left, its point is the combination with all coefficients divided by d. */
  lemma SpansRoot<P(!new)>(g: Group<P>, K: seq<seq<int>>, s0: seq<nat>, p0: seq<P>, v: seq<nat>, p: seq<P>, n: nat, r: nat)
    requires IsAbelian(g) && Spans(g, K, s0, p0, v, p, n) && r < n <= |v| && v[r] >= 1
    requires forall i :: 0 <= i < n && i != r ==> v[i] == 0
    ensures p[r] == LinearCombination(g, Quotients(s0, v[r]), p0, n)
  {
    hide LinearCombination;
    var d, q := v[r], Quotients(s0, v[r]);
    forall j | 0 <= j < n ensures K[r][j] == q[j] {
      RootColumn(K, s0, v, n, r, j);
      ModUnique(s0[j], d, K[r][j], 0);
    }
    ZeroTail(g, K[r], p0, n, |p0|);
    SameCombination(g, K[r], p0, q, p0, n);
  }

  lemma RootColumn(K: seq<seq<int>>, s0: seq<nat>, v: seq<nat>, n: nat, r: nat, j: nat)
    requires Square(K) && |K| == |s0| == |v| && Untouched(K, n) && Columns(K, s0, v)
    requires r < n <= |v| && j < n && forall i :: 0 <= i < n && i != r ==> v[i] == 0
    ensures s0[j] == K[r][j] * v[r]
  {
    hide LinearCombination;
    forall i | 0 <= i < |K| && i != r ensures v[i] == 0 || Column(K, j)[i] == 0 {
    }
    OneProduct(v, Column(K, j), |K|, r);
  }
}
