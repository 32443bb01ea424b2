/**
 Bitwise operations of the C sources, read on natural numbers.

 A right shift `x >> k` is `x / 2^k`, a left shift in a 64-bit word is
 `x * 2^k % 2^64`, and a mask of k low ones is `% 2^k`. The operators that are
 not arithmetic (`&`, `|`, `^`) are defined bit by bit, and the lemmas say when
 they agree with arithmetic.
 */
module Bits {

  const W64: nat := 0x1_0000_0000_0000_0000
  const TWO8: nat := 0x100
  const TWO16: nat := 0x1_0000
  const TWO24: nat := 0x100_0000
  const TWO32: nat := 0x1_0000_0000
  const TWO40: nat := 0x100_0000_0000
  const TWO48: nat := 0x1_0000_0000_0000
  const TWO255: nat := 0x8000_0000_0000_0000_0000_0000_0000_0000_0000_0000_0000_0000_0000_0000_0000_0000

  /** Machine words: a sum that is stored in one is shown not to wrap. */
  type u64 = x: nat | x < 0x1_0000_0000_0000_0000
  type u128 = x: nat | x < 0x1_0000_0000_0000_0000_0000_0000_0000_0000

  function Min(a: nat, b: nat): nat {
    if a < b then a else b
  }

  function Max(a: nat, b: nat): nat {
    if a < b then b else a
  }

  function Pow2(k: nat): (r: nat)
    ensures r >= 1
  {
    if k == 0 then 1 else 2 * Pow2(k - 1)
  }

  /** Reduction of any integer to a 64-bit word: what unsigned arithmetic keeps. */
  function Wrap64(x: int): (r: nat)
    ensures r < W64
  {
    x % W64
  }

  function And(a: nat, b: nat): nat
    decreases a, b
  {
    if a == 0 || b == 0 then 0
    else 2 * And(a / 2, b / 2) + (if a % 2 == 1 && b % 2 == 1 then 1 else 0)
  }

  function Or(a: nat, b: nat): nat
    decreases a, b
  {
    if a == 0 then b
    else if b == 0 then a
    else 2 * Or(a / 2, b / 2) + (if a % 2 == 1 || b % 2 == 1 then 1 else 0)
  }

  function Xor(a: nat, b: nat): nat
    decreases a, b
  {
    if a == 0 then b
    else if b == 0 then a
    else 2 * Xor(a / 2, b / 2) + (if a % 2 != b % 2 then 1 else 0)
  }

  lemma {:induction false} Pow2Add(m: nat, n: nat)
    ensures Pow2(m + n) == Pow2(m) * Pow2(n)
  {
    if m != 0 {
      Pow2Add(m - 1, n);
      assert 2 * (Pow2(m - 1) * Pow2(n)) == (2 * Pow2(m - 1)) * Pow2(n);
    }
  }

  lemma {:induction false} Pow2Monotone(m: nat, n: nat)
    requires m <= n
    ensures Pow2(m) <= Pow2(n)
  {
    if m < n {
      Pow2Monotone(m, n - 1);
    }
  }

  /** Writing the high half of a word over a clear low half: `|` is `+`. */
  lemma {:induction false} OrDisjoint(a: nat, b: nat, k: nat)
    requires a < Pow2(k)
    ensures Or(a, b * Pow2(k)) == a + b * Pow2(k)
  {
    if k != 0 && a != 0 && b != 0 {
      var h := b * Pow2(k - 1);
      assert b * Pow2(k) == 2 * h;
      assert (2 * h) / 2 == h && (2 * h) % 2 == 0;
      OrDisjoint(a / 2, b, k - 1);
    }
  }

  /** The same for `^`. */
  lemma {:induction false} XorDisjoint(a: nat, b: nat, k: nat)
    requires a < Pow2(k)
    ensures Xor(a, b * Pow2(k)) == a + b * Pow2(k)
  {
    if k != 0 && a != 0 && b != 0 {
      var h := b * Pow2(k - 1);
      assert b * Pow2(k) == 2 * h;
      assert (2 * h) / 2 == h && (2 * h) % 2 == 0;
      XorDisjoint(a / 2, b, k - 1);
    }
  }

  lemma {:induction false} OrZero(a: nat, b: nat)
    ensures Or(a, b) == 0 <==> a == 0 && b == 0
  {
    if a != 0 && b != 0 {
      OrZero(a / 2, b / 2);
    }
  }

  lemma {:induction false} OrBound(a: nat, b: nat, k: nat)
    requires a < Pow2(k) && b < Pow2(k)
    ensures Or(a, b) < Pow2(k)
  {
    if a != 0 && b != 0 {
      OrBound(a / 2, b / 2, k - 1);
    }
  }

  lemma {:induction false} OrCommutes(a: nat, b: nat)
    ensures Or(a, b) == Or(b, a)
  {
    if a != 0 && b != 0 {
      OrCommutes(a / 2, b / 2);
    }
  }

  lemma OrOne(a: nat)
    ensures Or(a, 1) == (if a % 2 == 0 then a + 1 else a)
  {
    assert 1 / 2 == 0;
    assert Or(a / 2, 0) == a / 2;
  }

  /** A mask of k ones keeps the low k bits. */
  lemma {:induction false} AndMask(a: nat, k: nat)
    ensures And(a, Pow2(k) - 1) == a % Pow2(k)
  {
    if k == 0 {
      assert a % 1 == 0;
    } else {
      AndMask(a / 2, k - 1);
      AndMaskStep(a, Pow2(k - 1));
      HalfMod(a, Pow2(k - 1));
    }
  }

  lemma AndMaskStep(a: nat, m: nat)
    requires m >= 1
    ensures And(a, 2 * m - 1) == 2 * And(a / 2, m - 1) + a % 2
  {
    assert (2 * m - 1) / 2 == m - 1 && (2 * m - 1) % 2 == 1;
  }

  lemma HalfMod(a: nat, m: nat)
    requires m >= 1
    ensures a % (2 * m) == 2 * (a / 2 % m) + a % 2
  {
    var h := a / 2;
    var q, r := h / m, h % m;
    assert h == q * m + r;
    assert a == 2 * h + a % 2;
    assert a == q * (2 * m) + (2 * r + a % 2) by {
      assert 2 * (q * m) == q * (2 * m);
    }
    ModUnique(a, 2 * m, q, 2 * r + a % 2);
  }

  lemma ModUnique(a: int, m: nat, q: int, r: int)
    requires m >= 1 && 0 <= r < m && a == q * m + r
    ensures a % m == r && a / m == q
  {
    var q', r' := a / m, a % m;
    assert a == q' * m + r';
    MulDifference(q, q', m);
    SmallMultiple(q - q', m);
  }

  lemma MulDifference(x: int, y: int, z: int)
    ensures (x - y) * z == x * z - y * z
  {
  }

  lemma SmallMultiple(d: int, m: nat)
    requires -1 * m < d * m < m
    ensures d == 0
  {
    if d >= 1 {
      MulStrict(0, d, m);
    } else if d <= -1 {
      MulStrict(0, 0 - d, m);
      MulDifference(0, d, m);
    }
  }

  function Shl(b: nat, k: nat): nat {
    if k == 0 then b else 2 * Shl(b, k - 1)
  }

  function Shr(a: nat, k: nat): nat {
    if k == 0 then a else Shr(a / 2, k - 1)
  }

  lemma {:induction false} ShlIsMul(b: nat, k: nat)
    ensures Shl(b, k) == b * Pow2(k)
  {
    if k != 0 {
      ShlIsMul(b, k - 1);
      assert 2 * (b * Pow2(k - 1)) == b * (2 * Pow2(k - 1));
    }
  }

  lemma {:induction false} ShrIsDiv(a: nat, k: nat)
    ensures Shr(a, k) == a / Pow2(k)
  {
    if k == 0 {
      assert a / 1 == a;
    } else {
      ShrIsDiv(a / 2, k - 1);
      DivDiv(a, 2, Pow2(k - 1));
    }
  }

  /** A mask shifted left by k looks only at the bits from k up. */
  lemma {:induction false} AndShiftedMask(a: nat, m: nat, k: nat)
    ensures And(a, Shl(m, k)) == Shl(And(Shr(a, k), m), k)
  {
    if k != 0 {
      AndShiftedMask(a / 2, m, k - 1);
      AndDouble(a, Shl(m, k - 1));
    }
  }

  lemma AndDouble(a: nat, b: nat)
    ensures And(a, 2 * b) == 2 * And(a / 2, b)
  {
    assert (2 * b) / 2 == b && (2 * b) % 2 == 0;
  }

  lemma MulStrict(x: nat, y: nat, p: nat)
    requires x < y
    ensures x * p + p <= y * p
  {
    var d := y - x - 1;
    assert y * p == x * p + p + d * p;
    assert d * p >= 0;
  }

  lemma QuotientBelow(x: nat, p: nat, r: nat)
    requires p >= 1 && x < p * r
    ensures 0 <= x / p < r
  {
    var k := x / p;
    assert x == k * p + x % p;
    if k >= r {
      MulStrict(r, k + 1, p);
      Distribute(k, 1, p);
    }
  }

  lemma Distribute(x: int, y: int, z: int)
    ensures (x + y) * z == x * z + y * z
  {
  }

  lemma Reassociate(x: int, y: int, z: int)
    ensures (x * y) * z == x * (y * z) == x * (z * y)
  {
  }

  lemma DivDiv(a: nat, m: nat, n: nat)
    requires m >= 1 && n >= 1
    ensures m * n >= 1
    ensures a / (m * n) == a / m / n
  {
    var q, r := a / m, a % m;
    var q2, r2 := q / n, q % n;
    MulStrict(0, m, n);
    assert a == q * m + r && q == q2 * n + r2;
    Distribute(q2 * n, r2, m);
    Reassociate(q2, n, m);
    MulStrict(r2, n, m);
    assert m * n == n * m;
    ModUnique(a, m * n, q2, r2 * m + r);
  }

  /** Testing one bit. */
  lemma AndBit(a: nat, k: nat)
    ensures And(a, Pow2(k)) != 0 <==> a / Pow2(k) % 2 == 1
  {
    AndShiftedMask(a, 1, k);
    ShrIsDiv(a, k);
    ShlIsMul(1, k);
    var h := Shr(a, k);
    assert 1 / 2 == 0;
    assert And(h, 1) == (if h % 2 == 1 then 1 else 0);
    ShlIsMul(And(h, 1), k);
  }

  lemma {:induction false} AndOnes(a: nat, k: nat)
    requires a < Pow2(k)
    ensures And(Pow2(k) - 1, a) == a
  {
    if k != 0 && a != 0 {
      AndOnes(a / 2, k - 1);
    }
  }

  /** `x ^ (x ^ y)` is y: the branch-free select of the sources. */
  lemma {:induction false} XorCancel(a: nat, b: nat)
    ensures Xor(a, Xor(a, b)) == b
  {
    if a != 0 && b != 0 {
      XorCancel(a / 2, b / 2);
      var x := Xor(a / 2, b / 2);
      var bit := if a % 2 != b % 2 then 1 else 0;
      assert Xor(a, b) == 2 * x + bit;
      assert (2 * x + bit) / 2 == x && (2 * x + bit) % 2 == bit;
      if 2 * x + bit == 0 {
        assert x == 0;
      }
    } else if b == 0 && a != 0 {
      XorSelf(a);
    }
  }

  lemma {:induction false} XorSelf(a: nat)
    ensures Xor(a, a) == 0
  {
    if a != 0 {
      XorSelf(a / 2);
    }
  }

  lemma {:induction false} XorCommutes(a: nat, b: nat)
    ensures Xor(a, b) == Xor(b, a)
  {
    if a != 0 && b != 0 {
      XorCommutes(a / 2, b / 2);
    }
  }

  lemma {:induction false} XorZero(a: nat, b: nat)
    ensures Xor(a, b) == 0 <==> a == b
  {
    if a != 0 && b != 0 {
      XorZero(a / 2, b / 2);
    }
  }

  lemma {:induction false} XorOnes(a: nat, k: nat)
    requires a < Pow2(k)
    ensures Xor(a, Pow2(k) - 1) == Pow2(k) - 1 - a
  {
    if k != 0 && a != 0 {
      var m := Pow2(k - 1);
      assert (2 * m - 1) / 2 == m - 1 && (2 * m - 1) % 2 == 1;
      XorOnes(a / 2, k - 1);
    }
  }

  lemma {:induction false} XorBound(a: nat, b: nat, k: nat)
    requires a < Pow2(k) && b < Pow2(k)
    ensures Xor(a, b) < Pow2(k)
  {
    if a != 0 && b != 0 {
      XorBound(a / 2, b / 2, k - 1);
    }
  }

  lemma Pow2Small()
    ensures Pow2(0) == 1 && Pow2(1) == 2 && Pow2(2) == 4 && Pow2(3) == 8 && Pow2(4) == 16 && Pow2(5) == 32
  {
  }

  lemma Pow2Values()
    ensures Pow2(8) == 0x100
    ensures Pow2(16) == 0x1_0000
    ensures Pow2(24) == 0x100_0000
    ensures Pow2(32) == 0x1_0000_0000
    ensures Pow2(40) == 0x100_0000_0000
    ensures Pow2(48) == 0x1_0000_0000_0000
    ensures Pow2(56) == 0x100_0000_0000_0000
    ensures Pow2(64) == W64
  {
    hide Pow2;
    Pow2Small();
    EightBitsMore(0);
    EightBitsMore(8);
    EightBitsMore(16);
    EightBitsMore(24);
    EightBitsMore(32);
    EightBitsMore(40);
    EightBitsMore(48);
    EightBitsMore(56);
  }

  lemma EightBitsMore(k: nat)
    ensures Pow2(k + 8) == 0x100 * Pow2(k)
  {
    assert Pow2(8) == 0x100;
    hide Pow2;
    Pow2Add(8, k);
  }
}
