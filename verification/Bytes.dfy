/**
 Little-endian bytes and 64-bit words: the loads and stores of the sources, and the
 joining of two neighbouring words across a shift.
 */
module Bytes {
  import opened Bits

  type byte = x: nat | x < 0x100

  /** The number that bytes denote, lowest first. */
  function LE(b: seq<byte>): nat {
    if b == [] then 0 else b[0] + 0x100 * LE(b[1..])
  }

  function Zeros(n: nat): (z: seq<byte>)
    ensures |z| == n
  {
    seq(n, i => 0)
  }

  lemma {:induction false} ZerosAbove(b: seq<byte>, n: nat)
    ensures LE(b + Zeros(n)) == LE(b)
  {
    if b != [] {
      assert (b + Zeros(n))[1..] == b[1..] + Zeros(n);
      ZerosAbove(b[1..], n);
    } else {
      assert b + Zeros(n) == Zeros(n);
      ZerosAreZero(n);
    }
  }

  lemma {:induction false} ZerosAreZero(n: nat)
    ensures LE(Zeros(n)) == 0
  {
    if n != 0 {
      assert Zeros(n)[1..] == Zeros(n - 1);
      ZerosAreZero(n - 1);
    }
  }

  lemma {:induction false} LEBound(b: seq<byte>)
    ensures LE(b) < Pow2(8 * |b|)
  {
    if b != [] {
      LEBound(b[1..]);
      hide Pow2;
      Pow2Values();
      Pow2Add(8, 8 * |b[1..]|);
    }
  }

  lemma {:induction false} LEConcat(a: seq<byte>, b: seq<byte>)
    ensures LE(a + b) == LE(a) + Pow2(8 * |a|) * LE(b)
  {
    if a == [] {
      assert a + b == b;
    } else {
      assert (a + b)[1..] == a[1..] + b;
      LEConcat(a[1..], b);
      Pow2Values();
      Pow2Add(8, 8 * |a[1..]|);
      Reassociate(0x100, Pow2(8 * |a[1..]|), LE(b));
    }
  }

  /** Eight bytes are one word of the rest. */
  lemma LEWord(b: seq<byte>)
    requires |b| >= 8
    ensures LE(b) == LE(b[..8]) + W64 * LE(b[8..]) && LE(b[..8]) < W64
  {
    assert b == b[..8] + b[8..];
    LEConcat(b[..8], b[8..]);
    LEBound(b[..8]);
    Pow2Values();
  }

  // ---- loads and stores ----

  /** `p[0] | p[1] << 8 | ... | p[7] << 56`, with p at offset o of b. */
  function Load64(b: seq<byte>, o: nat): nat
    requires o + 8 <= |b|
  {
    Or(Or(Or(Or(Or(Or(Or(b[o], 0x100 * (b[o + 1] as int)), 0x1_0000 * (b[o + 2] as int)), 0x100_0000 * (b[o + 3] as int)),
                0x1_0000_0000 * (b[o + 4] as int)), 0x100_0000_0000 * (b[o + 5] as int)),
          0x1_0000_0000_0000 * (b[o + 6] as int)), 0x100_0000_0000_0000 * (b[o + 7] as int))
  }

  lemma Load64Is(b: seq<byte>, o: nat)
    requires o + 8 <= |b|
    ensures Load64(b, o) == LE(b[o..o + 8]) && Load64(b, o) < W64
  {
    hide Or, Pow2;
    var p := b[o..o + 8];
    Pow2Values();
    OrDisjoint(p[0], p[1], 8);
    OrDisjoint(p[0] + 0x100 * (p[1] as int), p[2], 16);
    var s3 := p[0] + 0x100 * (p[1] as int) + 0x1_0000 * (p[2] as int);
    OrDisjoint(s3, p[3], 24);
    var s4 := s3 + 0x100_0000 * (p[3] as int);
    OrDisjoint(s4, p[4], 32);
    var s5 := s4 + 0x1_0000_0000 * (p[4] as int);
    OrDisjoint(s5, p[5], 40);
    var s6 := s5 + 0x100_0000_0000 * (p[5] as int);
    OrDisjoint(s6, p[6], 48);
    var s7 := s6 + 0x1_0000_0000_0000 * (p[6] as int);
    OrDisjoint(s7, p[7], 56);
    EightBytes(p);
  }

  /** The number denoted by the bytes from offset o on. */
  function LEFrom(b: seq<byte>, o: nat): nat
    requires o <= |b|
  {
    LE(b[o..])
  }

  lemma LEFromStep(b: seq<byte>, o: nat)
    requires o + 8 <= |b|
    ensures LEFrom(b, o) == Load64(b, o) + W64 * LEFrom(b, o + 8) && Load64(b, o) < W64
  {
    hide Load64, LE;
    var t := b[o..];
    LEWord(t);
    Load64Is(b, o);
    assert t[..8] == b[o..o + 8] && t[8..] == b[o + 8..];
  }

  lemma LEFromEnds(b: seq<byte>)
    ensures LEFrom(b, 0) == LE(b) && LEFrom(b, |b|) == 0
  {
    assert b[0..] == b && b[|b|..] == [];
  }

  lemma EightBytes(b: seq<byte>)
    requires |b| == 8
    ensures LE(b) == b[0] + 0x100 * (b[1] as int) + 0x1_0000 * (b[2] as int) + 0x100_0000 * (b[3] as int) + 0x1_0000_0000 * (b[4] as int)
                     + 0x100_0000_0000 * (b[5] as int) + 0x1_0000_0000_0000 * (b[6] as int) + 0x100_0000_0000_0000 * (b[7] as int)
  {
    assert b[1..][1..] == b[2..] && b[2..][1..] == b[3..] && b[3..][1..] == b[4..] && b[4..][1..] == b[5..]
        && b[5..][1..] == b[6..] && b[6..][1..] == b[7..] && b[7..][1..] == [];
    assert LE(b[7..]) == b[7];
    assert LE(b[6..]) == b[6] + 0x100 * LE(b[7..]);
    assert LE(b[5..]) == b[5] + 0x100 * LE(b[6..]);
    assert LE(b[4..]) == b[4] + 0x100 * LE(b[5..]);
    assert LE(b[3..]) == b[3] + 0x100 * LE(b[4..]);
    assert LE(b[2..]) == b[2] + 0x100 * LE(b[3..]);
    assert LE(b[1..]) == b[1] + 0x100 * LE(b[2..]);
  }

  function Store64(v: nat): (b: seq<byte>)
    ensures |b| == 8
  {
    [v % 0x100, v / 0x100 % 0x100, v / 0x1_0000 % 0x100, v / 0x100_0000 % 0x100, v / 0x1_0000_0000 % 0x100,
     v / 0x100_0000_0000 % 0x100, v / 0x1_0000_0000_0000 % 0x100, v / 0x100_0000_0000_0000 % 0x100]
  }

  lemma Store64Is(v: nat)
    requires v < W64
    ensures LE(Store64(v)) == v
  {
    var v1 := v / 0x100;
    var v2 := v1 / 0x100;
    var v3 := v2 / 0x100;
    var v4 := v3 / 0x100;
    var v5 := v4 / 0x100;
    var v6 := v5 / 0x100;
    var v7 := v6 / 0x100;
    assert Store64(v) == [v % 0x100, v1 % 0x100, v2 % 0x100, v3 % 0x100, v4 % 0x100, v5 % 0x100, v6 % 0x100, v7 % 0x100] by {
      DivDiv(v, 0x100, 0x100);
      DivDiv(v, 0x1_0000, 0x100);
      DivDiv(v, 0x100_0000, 0x100);
      DivDiv(v, 0x1_0000_0000, 0x100);
      DivDiv(v, 0x100_0000_0000, 0x100);
      DivDiv(v, 0x1_0000_0000_0000, 0x100);
    }
    EightBytes(Store64(v));
    hide Store64;
    Digits(v, v1, v2, v3, v4, v5, v6, v7);
  }

  lemma Digits(v: nat, v1: nat, v2: nat, v3: nat, v4: nat, v5: nat, v6: nat, v7: nat)
    requires v < W64 && v1 == v / 0x100 && v2 == v1 / 0x100 && v3 == v2 / 0x100 && v4 == v3 / 0x100
    requires v5 == v4 / 0x100 && v6 == v5 / 0x100 && v7 == v6 / 0x100
    ensures v == v % 0x100 + 0x100 * (v1 % 0x100) + 0x1_0000 * (v2 % 0x100) + 0x100_0000 * (v3 % 0x100)
                 + 0x1_0000_0000 * (v4 % 0x100) + 0x100_0000_0000 * (v5 % 0x100) + 0x1_0000_0000_0000 * (v6 % 0x100)
                 + 0x100_0000_0000_0000 * (v7 % 0x100)
  {
    assert v7 < 0x100;
  }

  /** Four words in bytes. */
  lemma FourWords(b: seq<byte>, w0: nat, w1: nat, w2: nat, w3: nat)
    requires w0 < W64 && w1 < W64 && w2 < W64 && w3 < W64
    requires b == Store64(w0) + Store64(w1) + Store64(w2) + Store64(w3)
    ensures |b| == 32 && LE(b) == w0 + W64 * (w1 + W64 * (w2 + W64 * w3))
  {
    hide Store64;
    Store64Is(w0);
    Store64Is(w1);
    Store64Is(w2);
    Store64Is(w3);
    LEWord(b);
    assert b[..8] == Store64(w0) && b[8..] == Store64(w1) + Store64(w2) + Store64(w3);
    LEWord(b[8..]);
    assert b[8..][..8] == Store64(w1) && b[8..][8..] == Store64(w2) + Store64(w3);
    LEWord(b[8..][8..]);
    assert b[8..][8..][..8] == Store64(w2) && b[8..][8..][8..] == Store64(w3);
  }

  // ---- neighbouring words ----

  /** `(x >> (64 - j)) | (y << j)` in 64 bits. */
  function JoinWords(x: nat, y: nat, j: nat): nat
    requires j <= 64
  {
    Or(Shr(x, 64 - j), Wrap64(Shl(y, j)))
  }

  lemma JoinWordsIs(x: nat, y: nat, j: nat)
    requires x < W64 && j <= 64
    ensures JoinWords(x, y, j) == x / Pow2(64 - j) + y % Pow2(64 - j) * Pow2(j)
    ensures 0 <= x / Pow2(64 - j) < Pow2(j)
  {
    hide Or, Pow2, Shl, Shr;
    ShrIsDiv(x, 64 - j);
    ShlIsMul(y, j);
    ShiftKeepsLow(y, j);
    HighOfWord(x, j);
    OrDisjoint(x / Pow2(64 - j), y % Pow2(64 - j), j);
  }

  lemma ShiftKeepsLow(y: nat, j: nat)
    requires j <= 64
    ensures Wrap64(y * Pow2(j)) == y % Pow2(64 - j) * Pow2(j)
  {
    hide Pow2;
    var p, r := Pow2(64 - j), Pow2(j);
    Pow2Values();
    Pow2Add(64 - j, j);
    var k := y / p;
    assert y == k * p + y % p;
    Distribute(k * p, y % p, r);
    Reassociate(k, p, r);
    MulStrict(y % p, p, r);
    MulNonNegative(y % p, r);
    ModUnique(y * r, W64, k, y % p * r);
  }

  lemma MulNonNegative(x: nat, y: nat)
    ensures x * y >= 0
  {
  }

  lemma HighOfWord(x: nat, j: nat)
    requires x < W64 && j <= 64
    ensures 0 <= x / Pow2(64 - j) < Pow2(j)
  {
    hide Pow2;
    Pow2Values();
    Pow2Add(64 - j, j);
    QuotientBelow(x, Pow2(64 - j), Pow2(j));
  }

  /** Two neighbouring words, joined and masked to m bits. */
  lemma JoinedLimb(x: nat, y: nat, j: nat, m: nat)
    requires x < W64 && j <= m <= 64
    ensures JoinWords(x, y, j) % Pow2(m) == x / Pow2(64 - j) + y % Pow2(m - j) * Pow2(j) < Pow2(m)
  {
    hide JoinWords, Pow2;
    JoinWordsIs(x, y, j);
    Pow2Add(64 - m, m - j);
    Pow2Add(m - j, j);
    ShiftedMod(x / Pow2(64 - j), y % Pow2(64 - j), Pow2(m - j), Pow2(j));
    ModOfMod(y, Pow2(m - j), Pow2(64 - m));
  }

  lemma ShiftedMod(a: nat, y: nat, q: nat, r: nat)
    requires a < r && q >= 1
    ensures q * r >= 1 && (a + y * r) % (q * r) == a + y % q * r < q * r
  {
    MulStrict(0, q, r);
    var k := y / q;
    assert y == k * q + y % q;
    Distribute(k * q, y % q, r);
    Reassociate(k, q, r);
    MulStrict(y % q, q, r);
    MulNonNegative(y % q, r);
    ModUnique(a + y * r, q * r, k, a + y % q * r);
  }

  lemma ModOfMod(y: nat, q: nat, m: nat)
    requires q >= 1 && m >= 1
    ensures m * q >= 1 && y % (m * q) % q == y % q
  {
    MulStrict(0, m, q);
    var k, r := y / (m * q), y % (m * q);
    assert y == k * (m * q) + r;
    Reassociate(k, m, q);
    var j := r / q;
    assert r == j * q + r % q;
    Distribute(k * m, j, q);
    ModUnique(y, q, k * m + j, r % q);
  }

  lemma PackedWord(low: nat, y: nat, j: nat)
    requires j <= 64 && low < Pow2(j)
    ensures Or(low, Wrap64(y * Pow2(j))) == low + y % Pow2(64 - j) * Pow2(j) < W64
  {
    hide Or, Pow2;
    ShiftKeepsLow(y, j);
    OrDisjoint(low, y % Pow2(64 - j), j);
    Pow2Values();
    Pow2Add(64 - j, j);
    MulStrict(y % Pow2(64 - j), Pow2(64 - j), Pow2(j));
  }

  // ---- bytes of a number ----

  /** The n lowest bytes of v. */
  function ToLE(v: nat, n: nat): (b: seq<byte>)
    ensures |b| == n
  {
    if n == 0 then [] else [v % 0x100] + ToLE(v / 0x100, n - 1)
  }

  /** Bytes are determined by the number they denote. */
  lemma {:induction false} ToLEUnique(b: seq<byte>)
    ensures ToLE(LE(b), |b|) == b
  {
    if b != [] {
      ModUnique(LE(b), 0x100, LE(b[1..]), b[0]);
      ToLEUnique(b[1..]);
      assert b == [b[0]] + b[1..];
    }
  }

  lemma {:induction false} ToLEValue(v: nat, n: nat)
    requires v < Pow2(8 * n)
    ensures LE(ToLE(v, n)) == v
  {
    if n != 0 {
      hide Pow2;
      Pow2Add(8, 8 * (n - 1));
      Pow2Values();
      ToLEValue(v / 0x100, n - 1);
      assert ToLE(v, n)[1..] == ToLE(v / 0x100, n - 1);
    } else {
      assert Pow2(0) == 1;
    }
  }

  /** The top byte of 32 is at most the number divided by 2^248. */
  lemma TopByte(b: seq<byte>)
    requires |b| == 32
    ensures (b[31] as int) * Pow2(248) <= LE(b)
  {
    hide Pow2;
    assert b == b[..31] + b[31..];
    LEConcat(b[..31], b[31..]);
    assert b[31..][1..] == [];
    assert LE(b[31..]) == b[31] + 0x100 * LE([]);
  }

  lemma TopByteAbove(b: seq<byte>)
    requires |b| == 32
    ensures LE(b) < (b[31] + 1) * Pow2(248)
  {
    hide Pow2;
    assert b == b[..31] + b[31..];
    LEConcat(b[..31], b[31..]);
    LEBound(b[..31]);
    assert b[31..][1..] == [];
    assert LE(b[31..]) == b[31] + 0x100 * LE([]);
    Distribute(b[31], 1, Pow2(248));
  }
}
