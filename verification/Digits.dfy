/** Numbers written in signed digits, lowest first. */
module Digits {
  import opened Bits

  function Pow(b: nat, n: nat): nat {
    if n == 0 then 1 else b * Pow(b, n - 1)
  }

  /** Σ s[k]·b^k */
  function SeqVal(s: seq<int>, b: nat): int {
    if s == [] then 0 else SeqVal(s[..|s| - 1], b) + s[|s| - 1] * Pow(b, |s| - 1)
  }

  /** The digits from i up, read from the top: what a double-and-add loop accumulates. */
  function Horner(s: seq<int>, b: nat, i: nat): int
    decreases |s| - i
  {
    if i >= |s| then 0 else s[i] + b * Horner(s, b, i + 1)
  }

  lemma {:induction false} PowPositive(b: nat, n: nat)
    requires b >= 1
    ensures Pow(b, n) >= 1
  {
    if n != 0 {
      PowPositive(b, n - 1);
      MulStrict(0, b, Pow(b, n - 1));
    }
  }

  lemma {:induction false} PowIsPow2(n: nat)
    ensures Pow(2, n) == Pow2(n)
  {
    if n != 0 {
      PowIsPow2(n - 1);
    }
  }

  lemma {:induction false} PowAdd(b: nat, m: nat, n: nat)
    ensures Pow(b, m + n) == Pow(b, m) * Pow(b, n)
  {
    if m != 0 {
      PowAdd(b, m - 1, n);
      Reassociate(b, Pow(b, m - 1), Pow(b, n));
    }
  }

  lemma SeqValAppend(s: seq<int>, b: nat, d: int)
    ensures SeqVal(s + [d], b) == SeqVal(s, b) + d * Pow(b, |s|)
  {
    assert (s + [d])[..|s|] == s;
  }

  /** The value of a prefix, one digit longer. */
  lemma SeqValTake(s: seq<int>, b: nat, i: nat)
    requires i < |s|
    ensures SeqVal(s[..i + 1], b) == SeqVal(s[..i], b) + s[i] * Pow(b, i)
  {
    assert s[..i + 1] == s[..i] + [s[i]];
    SeqValAppend(s[..i], b, s[i]);
  }

  lemma {:induction false} SeqValUpdate(s: seq<int>, b: nat, i: nat, d: int)
    requires i < |s|
    ensures SeqVal(s[i := d], b) == SeqVal(s, b) + (d - s[i]) * Pow(b, i)
  {
    var n := |s| - 1;
    if i == n {
      assert s[i := d][..n] == s[..n];
      Distribute(d - s[i], s[i], Pow(b, i));
    } else {
      assert s[i := d][..n] == s[..n][i := d];
      SeqValUpdate(s[..n], b, i, d);
    }
  }

  lemma {:induction false} SplitAt(s: seq<int>, b: nat, i: nat)
    requires i <= |s|
    ensures SeqVal(s, b) == SeqVal(s[..i], b) + Pow(b, i) * Horner(s, b, i)
    decreases |s| - i
  {
    hide SeqVal;
    if i == |s| {
      assert s[..i] == s;
    } else {
      SplitAt(s, b, i + 1);
      SeqValTake(s, b, i);
      HornerStep(Pow(b, i), b, s[i], Horner(s, b, i + 1));
    }
  }

  lemma HornerStep(p: int, b: int, d: int, h: int)
    ensures p * (d + b * h) == d * p + (b * p) * h
  {
    Distribute(d, b * h, p);
    Reassociate(b, p, h);
    Reassociate(b, h, p);
  }

  lemma HornerIsValue(s: seq<int>, b: nat)
    ensures Horner(s, b, 0) == SeqVal(s, b)
  {
    SplitAt(s, b, 0);
    assert s[..0] == [];
  }

  /** Zeros from i up add nothing. */
  lemma {:induction false} ZerosFrom(s: seq<int>, b: nat, i: nat, n: nat)
    requires i <= n <= |s| && forall k :: i <= k < n ==> s[k] == 0
    ensures SeqVal(s[..n], b) == SeqVal(s[..i], b)
    decreases n
  {
    hide SeqVal;
    if i < n {
      ZerosFrom(s, b, i, n - 1);
      SeqValTake(s, b, n - 1);
    }
  }

  /** Ones from i up: 2^n - 2^i. */
  lemma {:induction false} OnesFrom(s: seq<int>, i: nat, n: nat)
    requires i <= n <= |s| && forall k :: i <= k < n ==> s[k] == 1
    ensures SeqVal(s[..n], 2) == SeqVal(s[..i], 2) + Pow(2, n) - Pow(2, i)
    decreases n
  {
    hide SeqVal;
    if i < n {
      OnesFrom(s, i, n - 1);
      SeqValTake(s, 2, n - 1);
    }
  }

  /** Non-negative digits from i up do not lower the value. */
  lemma {:induction false} NonNegativeFrom(s: seq<int>, b: nat, i: nat, n: nat)
    requires i <= n <= |s| && forall k :: i <= k < n ==> s[k] >= 0
    ensures SeqVal(s[..i], b) <= SeqVal(s[..n], b)
    decreases n
  {
    hide SeqVal;
    if i < n {
      NonNegativeFrom(s, b, i, n - 1);
      SeqValTake(s, b, n - 1);
      assert s[n - 1] * Pow(b, n - 1) >= 0;
    }
  }
}
