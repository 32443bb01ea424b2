/**
 Greatest common divisors of the scalars: what repeated subtraction leaves behind.
 */
module Divisors {
  import opened Bits

  predicate Divides(d: nat, x: nat)
    requires d >= 1
  {
    x % d == 0
  }

  ghost predicate DividesAll(d: nat, s: seq<nat>)
    requires d >= 1
  {
    forall i :: 0 <= i < |s| ==> Divides(d, s[i])
  }

  function Gcd2(a: nat, b: nat): nat
    decreases b
  {
    if b == 0 then a else Gcd2(b, a % b)
  }

  function Gcd(s: seq<nat>): nat {
    if s == [] then 0 else Gcd2(Gcd(s[..|s| - 1]), s[|s| - 1])
  }

  // ---- divisibility ----

  lemma DividesMultiple(d: nat, x: nat, k: nat)
    requires d >= 1 && x == k * d
    ensures Divides(d, x)
  {
    ModUnique(x, d, k, 0);
  }

  lemma DividesSum(d: nat, x: nat, y: nat)
    requires d >= 1 && Divides(d, x)
    ensures Divides(d, x + y) <==> Divides(d, y)
  {
    var k, q, r := x / d, y / d, y % d;
    assert x == k * d && y == q * d + r;
    assert x + y == (k + q) * d + r;
    ModUnique(x + y, d, k + q, r);
  }

  lemma DividesProduct(d: nat, k: nat, y: nat)
    requires d >= 1 && Divides(d, y)
    ensures Divides(d, k * y)
  {
    var q := y / d;
    assert y == q * d;
    assert k * y == (k * q) * d;
    DividesMultiple(d, k * y, k * q);
  }

  lemma DividesRemainder(d: nat, a: nat, b: nat)
    requires d >= 1 && b >= 1 && Divides(d, b)
    ensures Divides(d, a) <==> Divides(d, a % b)
  {
    var k := a / b;
    assert a == k * b + a % b;
    DividesProduct(d, k, b);
    DividesSum(d, k * b, a % b);
  }

  /** The divisors of the gcd are the common divisors. */
  lemma {:induction false} Gcd2Divisors(d: nat, a: nat, b: nat)
    requires d >= 1
    ensures Divides(d, Gcd2(a, b)) <==> Divides(d, a) && Divides(d, b)
    decreases b
  {
    if b == 0 {
      assert 0 % d == 0;
    } else {
      Gcd2Divisors(d, b, a % b);
      if Divides(d, b) {
        DividesRemainder(d, a, b);
      }
    }
  }

  lemma {:induction false} GcdDivisors(d: nat, s: seq<nat>)
    requires d >= 1
    ensures Divides(d, Gcd(s)) <==> DividesAll(d, s)
  {
    if s == [] {
      assert 0 % d == 0;
    } else {
      var t := s[..|s| - 1];
      GcdDivisors(d, t);
      Gcd2Divisors(d, Gcd(t), s[|s| - 1]);
    }
  }

  lemma DivisorAtMost(d: nat, x: nat)
    requires d >= 1 && x >= 1 && Divides(d, x)
    ensures d <= x
  {
    var k := x / d;
    assert x == k * d;
    if k >= 1 {
      MulStrict(0, k, d);
    }
  }

  /** A number is determined by its divisors. */
  lemma SameDivisors(x: nat, y: nat)
    requires forall d :: d >= 1 ==> (Divides(d, x) <==> Divides(d, y))
    ensures x == y
  {
    ModUnique(0, x + 1, 0, 0);
    ModUnique(0, y + 1, 0, 0);
    if x >= 1 {
      ModUnique(x, x, 1, 0);
      assert Divides(x, y);
    }
    if y >= 1 {
      ModUnique(y, y, 1, 0);
      assert Divides(y, x);
    }
    if x >= 1 && y >= 1 {
      DivisorAtMost(x, y);
      DivisorAtMost(y, x);
    } else if x >= 1 {
      assert Divides(x + 1, y);
      assert Divides(x + 1, x);
      DivisorAtMost(x + 1, x);
    } else if y >= 1 {
      assert Divides(y + 1, x);
      assert Divides(y + 1, y);
      DivisorAtMost(y + 1, y);
    }
  }

  /** Subtracting one entry from another keeps the common divisors. */
  lemma SubtractKeepsDivisors(d: nat, s: seq<nat>, a: nat, b: nat)
    requires d >= 1 && a < |s| && b < |s| && a != b && s[b] <= s[a]
    ensures DividesAll(d, s[a := s[a] - s[b]]) <==> DividesAll(d, s)
  {
    var t := s[a := s[a] - s[b]];
    if DividesAll(d, s) || DividesAll(d, t) {
      assert Divides(d, s[b]) by {
        assert t[b] == s[b];
      }
      DividesSum(d, s[b], s[a] - s[b]);
      assert t[a] == s[a] - s[b];
      forall i | 0 <= i < |s|
        ensures Divides(d, s[i]) && Divides(d, t[i])
      {
        if i != a {
          assert t[i] == s[i];
        }
      }
    }
  }

  lemma {:induction false} SingleGcd(s: seq<nat>, i: nat)
    requires i < |s|
    requires forall j :: 0 <= j < |s| && j != i ==> s[j] == 0
    ensures Gcd(s) == s[i]
  {
    forall d: nat | d >= 1
      ensures Divides(d, Gcd(s)) <==> Divides(d, s[i])
    {
      GcdDivisors(d, s);
      assert 0 % d == 0;
    }
    SameDivisors(Gcd(s), s[i]);
  }

  lemma GcdSubtract(s: seq<nat>, a: nat, b: nat)
    requires a < |s| && b < |s| && a != b && s[b] <= s[a]
    ensures Gcd(s[a := s[a] - s[b]]) == Gcd(s)
  {
    var t := s[a := s[a] - s[b]];
    forall d: nat | d >= 1
      ensures Divides(d, Gcd(t)) <==> Divides(d, Gcd(s))
    {
      GcdDivisors(d, s);
      GcdDivisors(d, t);
      SubtractKeepsDivisors(d, s, a, b);
    }
    SameDivisors(Gcd(t), Gcd(s));
  }

  lemma GcdAtMostEntry(s: seq<nat>, i: nat)
    requires i < |s| && s[i] >= 1
    ensures 1 <= Gcd(s) <= s[i]
  {
    if Gcd(s) == 0 {
      ModUnique(0, s[i] + 1, 0, 0);
      GcdDivisors(s[i] + 1, s);
      DivisorAtMost(s[i] + 1, s[i]);
      assert false;
    }
    ModUnique(Gcd(s), Gcd(s), 1, 0);
    GcdDivisors(Gcd(s), s);
    DivisorAtMost(Gcd(s), s[i]);
  }
}
