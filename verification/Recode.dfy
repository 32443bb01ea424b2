/**
 Recoding of scalars into signed digits for table-driven multiplication: 64 digits in
 radix 16 between -8 and 8, and 256 sparse odd digits of a sliding window.

 Line numbers are those of src/ed25519-donna/modm-donna-64bit.h.
 */
module Recode {
  import opened Bits
  import opened Digits
  import opened Scalars


  // ---- spreading the limbs ----

  /** The inner loop of both recoders: `*out++ = v % base; v /= base`. */
  method FillLimb(r: array<int>, start: nat, v0: nat, count: nat, base: nat)
    requires start + count <= r.Length && base >= 2 && v0 < Pow(base, count)
    modifies r
    ensures r[..start] == old(r[..start]) && forall k :: 0 <= k < start ==> r[k] == old(r[k])
    ensures forall k :: start <= k < start + count ==> 0 <= r[k] < base
    ensures SeqVal(r[..start + count], base) == SeqVal(r[..start], base) + v0 * Pow(base, start)
  {
    hide SeqVal, Pow;
    var v := v0;
    var j: nat := 0;
    while j < count
      invariant j <= count && r[..start] == old(r[..start]) && forall k :: 0 <= k < start ==> r[k] == old(r[k])
      invariant forall k :: start <= k < start + j ==> 0 <= r[k] < base
      invariant 0 <= v < Pow(base, count - j)
      invariant SeqVal(r[..start + j], base) + v * Pow(base, start + j) == SeqVal(r[..start], base) + v0 * Pow(base, start)
    {
      ghost var before := r[..start + j];
      r[start + j] := v % base;
      assert r[..start + j] == before && r[..start] == before[..start];
      assert r[..start + j + 1] == before + [v % base];
      SeqValAppend(before, base, v % base);
      TakeDigit(v, base, start + j);
      SmallerRest(v, base, count - j);
      v := v / base;
      j := j + 1;
    }
    NothingLeft(v, base);
  }

  lemma TakeDigit(v: nat, base: nat, n: nat)
    requires base >= 2
    ensures v / base >= 0
    ensures v % base * Pow(base, n) + v / base * Pow(base, n + 1) == v * Pow(base, n)
  {
    var q, d := v / base, v % base;
    assert v == q * base + d;
    Reassociate(q, base, Pow(base, n));
    Distribute(q * base, d, Pow(base, n));
  }

  lemma SmallerRest(v: nat, base: nat, n: nat)
    requires base >= 2 && n >= 1 && v < Pow(base, n)
    ensures v / base < Pow(base, n - 1)
  {
    QuotientBelow(v, base, Pow(base, n - 1));
  }

  lemma NothingLeft(v: int, base: nat)
    requires 0 <= v < Pow(base, 0)
    ensures v == 0
  {
  }

  /** The limbs as digits: n to a limb, m of the last. */
  method SpreadLimbs(r: array<int>, a: Bignum, base: nat, n: nat, m: nat)
    requires base >= 2 && Pow(base, n) == LIMB && Pow(base, m) == TWO32
    requires r.Length == 4 * n + m && Normal(a) && a[4] < TWO32
    modifies r
    ensures forall k :: 0 <= k < r.Length ==> 0 <= r[k] < base
    ensures SeqVal(r[..], base) == Val(a)
  {
    hide SeqVal, Pow;
    assert r[..0] == [];
    EmptyValue(base);
    var i: nat := 0;
    ghost var at: nat := 0;
    while i < 4
      invariant i <= 4 && at == n * i <= r.Length && Pow(base, at) == LimbPower(i)
      invariant forall k :: 0 <= k < at ==> 0 <= r[k] < base
      invariant SeqVal(r[..at], base) == ValLow(a, i)
    {
      NextLimb(n, i, m);
      PowAdd(base, n, at);
      FillLimb(r, n * i, a[i], n, base);
      ValLowStep(a, i + 1);
      i, at := i + 1, at + n;
    }
    FillLimb(r, n * 4, a[4], m, base);
    ValLowStep(a, 5);
    assert r[..] == r[..n * 4 + m];
  }

  lemma EmptyValue(base: nat)
    ensures SeqVal([], base) == 0 && Pow(base, 0) == 1
  {
  }

  lemma NextLimb(n: nat, i: nat, m: nat)
    requires i < 4
    ensures n * i + n == n * (i + 1) <= 4 * n + m
  {
    Distribute(i, 1, n);
    if i < 3 {
      MulStrict(i, 3, n);
    }
  }

  // ---- radix 16 ----

  ghost predicate Window4Digits(r: seq<int>) {
    |r| == 64 && (forall k :: 0 <= k < 63 ==> -8 <= r[k] <= 7) && 0 <= r[63] <= 16
  }

  /** One step of the carry pass on the digit at i, with what it moves to the next. */
  lemma CarryDigit(x: int, q: int, y: int, c: int, p: int)
    requires 0 <= x <= 16 && q == x / 16 && y == x % 16 && c == y / 8
    ensures 0 <= q <= 1 && 0 <= c <= 1 && q + c <= 1 && -8 <= y - c * 16 <= 7
    ensures x * p == (y - c * 16) * p + (q + c) * (16 * p)
  {
    var d := y - c * 16;
    assert x == d + 16 * (q + c);
    Distribute(d, 16 * (q + c), p);
    Reassociate(16, q + c, p);
    Reassociate(q + c, 16, p);
  }

  /** Lines 173-181: digits 0..15 become digits -8..7, the last one 0..8 for numbers below 2^255. */
  method CarryWindow4(r: array<int>)
    requires r.Length == 64 && forall k :: 0 <= k < 64 ==> 0 <= r[k] < 16
    modifies r
    ensures Window4Digits(r[..]) && r[63] <= old(r[63]) + 1
    ensures SeqVal(r[..], 16) == old(SeqVal(r[..], 16))
  {
    hide SeqVal, Pow;
    var carry: int := 0;
    var i: nat := 0;
    while i < 63
      invariant i <= 63 && 0 <= carry <= 1
      invariant 0 <= r[i] + carry <= old(r[i]) + 1
      invariant forall k :: 0 <= k < i ==> -8 <= r[k] <= 7
      invariant forall k :: i < k < 64 ==> r[k] == old(r[k])
      invariant SeqVal(r[..], 16) + carry * Pow(16, i) == old(SeqVal(r[..], 16))
    {
      carry := CarryStep(r, i, carry);
      i := i + 1;
    }
    ghost var s := r[..];
    r[63] := r[63] + carry;
    assert r[..] == s[63 := s[63] + carry];
    SeqValUpdate(s, 16, 63, s[63] + carry);
  }

  /** Lines 175-179. */
  method CarryStep(r: array<int>, i: nat, carry: int) returns (carry': int)
    requires r.Length == 64 && i < 63 && 0 <= r[i] + carry <= 16 && 0 <= r[i + 1] < 16
    modifies r
    ensures forall k :: 0 <= k < 64 && k != i && k != i + 1 ==> r[k] == old(r[k])
    ensures -8 <= r[i] <= 7 && 0 <= carry' <= 1
    ensures 0 <= r[i + 1] + carry' <= old(r[i + 1]) + 1
    ensures SeqVal(r[..], 16) + carry' * Pow(16, i + 1) == old(SeqVal(r[..], 16)) + carry * Pow(16, i)
  {
    hide SeqVal;
    ghost var s := r[..];
    ghost var x := r[i] + carry;
    r[i] := r[i] + carry;
    r[i + 1] := r[i + 1] + r[i] / 16;
    r[i] := r[i] % 16;
    carry' := r[i] / 8;
    r[i] := r[i] - carry' * 16;
    ghost var p := Pow(16, i);
    CarryDigit(x, x / 16, x % 16, carry', p);
    ghost var s1 := s[i := r[i]];
    assert r[..] == s1[i + 1 := s[i + 1] + x / 16];
    SeqValUpdate(s, 16, i, r[i]);
    SeqValUpdate(s1, 16, i + 1, s[i + 1] + x / 16);
    CarryBalance(r[i], s[i], carry, x / 16, carry', p);
  }

  lemma CarryBalance(d: int, s: int, carry: int, q: int, c: int, p: int)
    requires (s + carry) * p == d * p + (q + c) * (16 * p)
    ensures (d - s) * p + q * (16 * p) + c * (16 * p) == carry * p
  {
    Distribute(s, carry, p);
    Distribute(d, -s, p);
    Distribute(q, c, 16 * p);
  }

  lemma Sixteen()
    ensures Pow(16, 14) == LIMB && Pow(16, 8) == TWO32 && Pow(16, 63) == 0x1000_0000 * B4
  {
    assert Pow(16, 7) == 0x1000_0000;
    PowAdd(16, 7, 7);
    PowAdd(16, 7, 1);
    assert Pow(16, 1) == 16;
    PowAdd(16, 14, 14);
    PowAdd(16, 28, 14);
    PowAdd(16, 42, 14);
    PowAdd(16, 56, 7);
  }

  /** The recoding in radix 16 of any number below 2^256; below 2^255 every digit is within -8..8. */
  method ContractWindow4(r: array<int>, a: Bignum)
    requires r.Length == 64 && Normal(a) && a[4] < TWO32
    modifies r
    ensures SeqVal(r[..], 16) == Val(a)
    ensures Window4Digits(r[..])
    ensures Val(a) < TWO255 ==> r[63] <= 8
  {
    hide SeqVal, Pow, Val;
    Sixteen();
    SpreadLimbs(r, a, 16, 14, 8);
    TopNibble(r[..], Val(a));
    CarryWindow4(r);
  }

  lemma TopNibble(s: seq<int>, v: nat)
    requires |s| == 64 && (forall k :: 0 <= k < 64 ==> 0 <= s[k] < 16) && SeqVal(s, 16) == v
    ensures v < TWO255 ==> s[63] <= 7
  {
    hide SeqVal, Pow;
    Sixteen();
    SeqValTake(s, 16, 63);
    assert s[..64] == s && s[..0] == [];
    NonNegativeFrom(s, 16, 0, 63);
    EmptyValue(16);
  }

  // ---- sliding window ----

  /** Zero, or odd and within the table. */
  predicate IsWindowDigit(d: int, m: int) {
    d == 0 || (d % 2 == 1 && -m <= d <= m)
  }

  ghost predicate BitsFrom(s: seq<int>, i: nat) {
    forall k :: i <= k < |s| ==> s[k] == 0 || s[k] == 1
  }

  /**
   Between the digits: below j they are final, from j up they are bits, and the
   nonzero ones lie where the part below cannot outweigh them.
   */
  ghost predicate BetweenDigits(s: seq<int>, v: int, m: int, j: nat, z: nat) {
    && |s| == 256 && j <= 256 && j <= z && SeqVal(s, 2) == v
    && (forall k :: 0 <= k < j ==> IsWindowDigit(s[k], m))
    && BitsFrom(s, j)
    && (forall k :: j <= k < z && k < 256 ==> s[k] == 0)
    && SeqVal(s[..j], 2) + Pow(2, z) > 0
  }

  /** Inside the window of digit j, with the bits below j + b taken in. */
  ghost predicate InWindow(s: seq<int>, v: int, m: int, j: nat, b: nat) {
    && |s| == 256 && j < 256 && b >= 1 && SeqVal(s, 2) == v
    && (forall k :: 0 <= k < j ==> IsWindowDigit(s[k], m))
    && s[j] % 2 == 1 && -m <= s[j] <= m && s[j] + Pow(2, b) > 0 && s[j] < Pow(2, b)
    && BitsFrom(s, j + b)
    && (forall k :: j < k < j + b && k < 256 ==> s[k] == 0)
    && SeqVal(s[..j], 2) + Pow(2, j) > 0
  }

  lemma OpenWindow(s: seq<int>, v: int, m: int, j: nat, z: nat)
    requires BetweenDigits(s, v, m, j, z) && j < 256 && s[j] != 0 && m >= 1
    ensures InWindow(s, v, m, j, 1)
  {
    assert z == j;
    assert Pow(2, 1) == 2;
  }

  lemma SkipZero(s: seq<int>, v: int, m: int, j: nat, z: nat)
    requires BetweenDigits(s, v, m, j, z) && j < 256 && s[j] == 0
    ensures BetweenDigits(s, v, m, j + 1, if z == j then j + 1 else z)
  {
    hide SeqVal;
    SeqValTake(s, 2, j);
    assert Pow(2, j + 1) == 2 * Pow(2, j);
    PowPositive(2, j);
  }

  lemma CloseWindow(s: seq<int>, v: int, m: int, j: nat, b: nat)
    requires InWindow(s, v, m, j, b)
    ensures BetweenDigits(s, v, m, j + 1, j + b)
  {
    hide SeqVal;
    SeqValTake(s, 2, j);
    PowAdd(2, b, j);
    DigitAboveFloor(s[j], Pow(2, b), Pow(2, j));
  }

  /** With d > -q and low > -p, low + d·p > -q·p. */
  lemma DigitAboveFloor(d: int, q: nat, p: nat)
    requires d + q > 0
    ensures d * p >= p - q * p
  {
    MulStrict(0, d + q, p);
    Distribute(d, q, p);
  }

  /** A bit that is subtracted meets a positive digit. */
  lemma SubtractsFromPositive(x: int, b: nat, w: nat, m: int)
    requires w >= 2 && m == Pow(2, w - 1) - 1
    requires x % 2 == 1 && x <= m && x + Pow(2, b) > m && x - Pow(2, b) >= -m
    ensures x >= 1
  {
    hide Pow;
    DoublePow(w - 1);
    if b >= w {
      PowMonotone(w, b);
    } else {
      PowMonotone(b, w - 1);
    }
  }

  lemma DoublePow(n: nat)
    ensures Pow(2, n + 1) == 2 * Pow(2, n) && Pow(2, n) >= 1
  {
    PowPositive(2, n);
  }

  lemma {:induction false} PowMonotone(i: nat, n: nat)
    requires i <= n
    ensures Pow(2, i) <= Pow(2, n)
  {
    if i < n {
      PowMonotone(i, n - 1);
      PowPositive(2, n - 1);
    }
  }

  lemma Pow255()
    ensures Pow(2, 56) == LIMB && Pow(2, 32) == TWO32 && Pow(2, 255) == TWO255 && Pow(2, 256) == 2 * TWO255
  {
    hide Pow;
    PowIsPow2(56);
    PowIsPow2(32);
    PowIsPow2(255);
    PowIsPow2(256);
    Pow2Values();
    Pow2Add(56, 56);
    Pow2Add(112, 56);
    Pow2Add(168, 56);
    Pow2Add(224, 32);
    DoublePow(255);
  }

  /** The carry never runs off the top: above a positive digit some bit is still zero. */
  lemma ZeroAbove(s: seq<int>, v: int, m: int, j: nat, b: nat)
    requires InWindow(s, v, m, j, b) && j + b < 256 && s[j] >= 1 && v <= TWO255
    ensures exists k :: j + b <= k < 256 && s[k] == 0
  {
    hide SeqVal, Pow;
    if forall k :: j + b <= k < 256 ==> s[k] == 1 {
      OnesFrom(s, j + b, 256);
      assert s[..256] == s;
      ZerosFrom(s, 2, j + 1, j + b);
      SeqValTake(s, 2, j);
      MulStrict(0, s[j], Pow(2, j));
      PowMonotone(j + b, 255);
      Pow255();
    }
  }

  /** Lines 206-212: add one at k0, clearing ones up to the first zero. */
  method CarryUp(r: array<int>, k0: nat)
    requires r.Length == 256 && k0 < 256 && BitsFrom(r[..], k0)
    requires exists k :: k0 <= k < 256 && r[k] == 0
    modifies r
    ensures r[..k0] == old(r[..k0]) && BitsFrom(r[..], k0)
    ensures old(r[k0]) == 1 ==> r[k0] == 0
    ensures SeqVal(r[..], 2) == old(SeqVal(r[..], 2)) + Pow(2, k0)
  {
    hide SeqVal, Pow;
    ghost var zero :| k0 <= zero < 256 && r[zero] == 0;
    var k: nat := k0;
    while k < 256
      invariant k0 <= k <= zero && r[..k0] == old(r[..k0])
      invariant forall i :: k0 <= i < k ==> r[i] == 0
      invariant forall i :: k <= i < 256 ==> r[i] == old(r[i])
      invariant SeqVal(r[..], 2) + Pow(2, k) == old(SeqVal(r[..], 2)) + Pow(2, k0)
    {
      ghost var s := r[..];
      assert s[k] == old(r[..])[k];
      if r[k] == 0 {
        r[k] := 1;
        assert r[..] == s[k := 1];
        SeqValUpdate(s, 2, k, 1);
        return;
      }
      r[k] := 0;
      assert r[..] == s[k := 0];
      SeqValUpdate(s, 2, k, 0);
      DoublePow(k);
      k := k + 1;
    }
  }

  lemma TakeBit(s: seq<int>, v: int, m: int, j: nat, b: nat, shifted: int)
    requires InWindow(s, v, m, j, b) && j + b < 256 && s[j] + shifted <= m
    requires shifted == if s[j + b] == 0 then 0 else Pow(2, b)
    ensures InWindow(s[j := s[j] + shifted][j + b := 0], v, m, j, b + 1)
  {
    hide SeqVal, Pow;
    if s[j + b] == 0 {
      DoublePow(b);
      assert s[j := s[j] + shifted][j + b := 0] == s;
    } else {
      TakeOne(s, v, m, j, b);
    }
  }

  lemma TakeOne(s: seq<int>, v: int, m: int, j: nat, b: nat)
    requires InWindow(s, v, m, j, b) && j + b < 256 && s[j + b] == 1 && s[j] + Pow(2, b) <= m
    ensures InWindow(s[j := s[j] + Pow(2, b)][j + b := 0], v, m, j, b + 1)
  {
    hide SeqVal, Pow;
    DoublePow(b);
    DoublePow(b - 1);
    AddBit(s, v, j, b);
    assert s[j := s[j] + Pow(2, b)][j + b := 0][..j] == s[..j];
  }

  lemma AddBit(s: seq<int>, v: int, j: nat, b: nat)
    requires |s| == 256 && b >= 1 && j + b < 256 && s[j + b] == 1 && SeqVal(s, 2) == v
    ensures SeqVal(s[j := s[j] + Pow(2, b)][j + b := 0], 2) == v
  {
    hide SeqVal, Pow;
    var p := Pow(2, b);
    var s1 := s[j := s[j] + p];
    SeqValUpdate(s, 2, j, s[j] + p);
    SeqValUpdate(s1, 2, j + b, 0);
    PowAdd(2, b, j);
    assert (s[j] + p - s[j]) * Pow(2, j) == p * Pow(2, j);
  }

  /** After the digit has lost the bit's weight and the bits above have gained it. */
  lemma BorrowBit(s: seq<int>, t: seq<int>, v: int, m: int, j: nat, b: nat)
    requires InWindow(s, v, m, j, b) && j + b < 256 && s[j] >= 1 && s[j + b] == 1
    requires s[j] - Pow(2, b) >= -m
    requires |t| == 256 && t[..j + b] == s[..j + b][j := s[j] - Pow(2, b)] && BitsFrom(t, j + b) && t[j + b] == 0
    requires SeqVal(t, 2) == SeqVal(s[j := s[j] - Pow(2, b)], 2) + Pow(2, j + b)
    ensures InWindow(t, v, m, j, b + 1)
  {
    hide SeqVal, Pow;
    var p := Pow(2, b);
    SeqValUpdate(s, 2, j, s[j] - p);
    PowAdd(2, b, j);
    assert (s[j] - p - s[j]) * Pow(2, j) == -(p * Pow(2, j));
    DoublePow(b);
    DoublePow(b - 1);
    var u := s[..j + b][j := s[j] - p];
    assert forall k :: 0 <= k < j + b ==> t[k] == t[..j + b][k];
    assert t[..j] == t[..j + b][..j] == s[..j];
  }

  /** Lines 201-215: one bit of the window. */
  method WindowBit(r: array<int>, j: nat, b: nat, w: nat, ghost v: int) returns (stop: bool)
    requires r.Length == 256 && 2 <= w && j + b < 256 && v <= TWO255
    requires InWindow(r[..], v, Pow(2, w - 1) - 1, j, b)
    modifies r
    ensures stop ==> InWindow(r[..], v, Pow(2, w - 1) - 1, j, b)
    ensures !stop ==> InWindow(r[..], v, Pow(2, w - 1) - 1, j, b + 1)
  {
    hide SeqVal, Pow;
    var m := Pow(2, w - 1) - 1;
    var shifted := r[j + b] * Pow(2, b);
    ghost var s := r[..];
    stop := false;
    assert s[j + b] == 0 || s[j + b] == 1;
    assert shifted == if s[j + b] == 0 then 0 else Pow(2, b);
    if r[j] + shifted <= m {
      TakeBit(s, v, m, j, b, shifted);
      r[j] := r[j] + shifted;
      r[j + b] := 0;
      assert r[..] == s[j := s[j] + shifted][j + b := 0];
    } else if r[j] - shifted >= -m {
      SubtractsFromPositive(s[j], b, w, m);
      ZeroAbove(s, v, m, j, b);
      ghost var zero :| j + b <= zero < 256 && s[zero] == 0;
      r[j] := r[j] - shifted;
      assert r[..] == s[j := s[j] - shifted] && r[zero] == 0;
      CarryUp(r, j + b);
      assert r[..j + b] == s[..j + b][j := s[j] - shifted];
      BorrowBit(s, r[..], v, m, j, b);
    } else if r[j + b] != 0 {
      stop := true;
    }
  }

  /** Lines 200-216: the window of a nonzero digit. */
  method SlideWindow(r: array<int>, j: nat, w: nat, ghost v: int) returns (ghost b: nat)
    requires r.Length == 256 && 2 <= w && j < 256 && v <= TWO255
    requires InWindow(r[..], v, Pow(2, w - 1) - 1, j, 1)
    modifies r
    ensures InWindow(r[..], v, Pow(2, w - 1) - 1, j, b)
  {
    hide SeqVal, Pow, InWindow;
    var i: nat := 1;
    while i < 256 - j && i <= 6
      invariant 1 <= i && InWindow(r[..], v, Pow(2, w - 1) - 1, j, i)
      decreases 7 - i
    {
      var stop := WindowBit(r, j, i, w, v);
      if stop {
        b := i;
        return;
      }
      i := i + 1;
    }
    b := i;
  }

  /** Sparse odd digits of any number up to 2^255, each with absolute value below 2^(w-1). */
  method ContractSlidingWindow(r: array<int>, a: Bignum, w: nat)
    requires r.Length == 256 && Normal(a) && Val(a) <= TWO255
    requires 2 <= w <= 8
    modifies r
    ensures SeqVal(r[..], 2) == Val(a)
    ensures forall k :: 0 <= k < 256 ==> IsWindowDigit(r[k], Pow(2, w - 1) - 1)
  {
    hide SeqVal, Pow, Val;
    TopLimbBelow(a);
    Pow255();
    SpreadLimbs(r, a, 2, 56, 32);
    ghost var v, m := Val(a), Pow(2, w - 1) - 1;
    FirstWindow(r[..], v, w);
    var j: nat := 0;
    ghost var z: nat := 0;
    while j < 256
      invariant j <= 256 && BetweenDigits(r[..], v, m, j, z)
    {
      if r[j] == 0 {
        SkipZero(r[..], v, m, j, z);
        z := if z == j then j + 1 else z;
      } else {
        OpenWindow(r[..], v, m, j, z);
        ghost var b := SlideWindow(r, j, w, v);
        CloseWindow(r[..], v, m, j, b);
        z := j + b;
      }
      j := j + 1;
    }
  }

  lemma TopLimbBelow(a: Bignum)
    requires Normal(a) && Val(a) <= TWO255
    ensures a[4] < TWO32
  {
  }

  lemma FirstWindow(s: seq<int>, v: int, w: nat)
    requires |s| == 256 && (forall k :: 0 <= k < 256 ==> 0 <= s[k] < 2) && SeqVal(s, 2) == v && w >= 2
    ensures BetweenDigits(s, v, Pow(2, w - 1) - 1, 0, 0) && Pow(2, w - 1) - 1 >= 1
  {
    assert s[..0] == [];
    PowPositive(2, w - 2);
  }
}
