/**
 Field elements from 32 bytes and back. Expanding takes the low 255 bits, contracting
 writes the one representative below p.

 Line numbers are those of src/ed25519-donna/curve25519-donna-64bit.h.
 */
module FieldBytes {
  import opened Bits
  import opened Bytes
  import opened Field

  const TWO12: nat := 0x1000
  const TWO13: nat := 0x2000
  const TWO25: nat := 0x200_0000
  const TWO26: nat := 0x400_0000
  const TWO38: nat := 0x40_0000_0000
  const TWO39: nat := 0x80_0000_0000

  lemma ShiftValues()
    ensures Pow2(12) == TWO12 && Pow2(13) == TWO13 && Pow2(25) == TWO25 && Pow2(26) == TWO26
    ensures Pow2(38) == TWO38 && Pow2(39) == TWO39 && Pow2(51) == R && Pow2(52) == 2 * R
  {
    assert Pow2(12) == TWO12 && Pow2(13) == TWO13;
    hide Pow2;
    Pow2Add(12, 13);
    Pow2Add(13, 13);
    Pow2Add(26, 12);
    Pow2Add(26, 13);
    Pow2Add(39, 12);
    Pow2Add(39, 13);
  }

  // ---- expand ----

  /** The low 255 bits of 32 bytes. */
  method Expand(b: seq<byte>) returns (out: Fe)
    requires |b| == 32
    ensures Below(out, R) && Value(out) == LE(b) % TWO255
  {
    hide Load64, JoinWords, LE, LEFrom, Value, Pow2;
    var x0, x1, x2, x3 := Load64(b, 0), Load64(b, 8), Load64(b, 16), Load64(b, 24);
    FourLoads(b);
    ShiftValues();
    JoinedLimb(x0, x1, 13, 51);
    JoinedLimb(x1, x2, 26, 51);
    JoinedLimb(x2, x3, 39, 51);
    out := [x0 % R, JoinWords(x0, x1, 13) % R, JoinWords(x1, x2, 26) % R, JoinWords(x2, x3, 39) % R, x3 / TWO12 % R];
    ExpandValue(out, x0, x1, x2, x3);
  }

  lemma FourLoads(b: seq<byte>)
    requires |b| == 32
    ensures LE(b) == Load64(b, 0) + W64 * (Load64(b, 8) + W64 * (Load64(b, 16) + W64 * Load64(b, 24)))
    ensures Load64(b, 0) < W64 && Load64(b, 8) < W64 && Load64(b, 16) < W64 && Load64(b, 24) < W64
  {
    hide Load64, LE, LEFrom;
    LEFromStep(b, 0);
    LEFromStep(b, 8);
    LEFromStep(b, 16);
    LEFromStep(b, 24);
    LEFromEnds(b);
  }

  lemma ExpandValue(out: Fe, x0: nat, x1: nat, x2: nat, x3: nat)
    requires x0 < W64 && x1 < W64 && x2 < W64 && x3 < W64
    requires out[0] == x0 % R
    requires out[1] == x0 / R + x1 % TWO38 * TWO13
    requires out[2] == x1 / TWO38 + x2 % TWO25 * TWO26
    requires out[3] == x2 / TWO25 + x3 % TWO12 * TWO39
    requires out[4] == x3 / TWO12 % R
    ensures Value(out) == (x0 + W64 * (x1 + W64 * (x2 + W64 * x3))) % TWO255
  {
    ExpandIdentity(x0 % R, x0 / R, x1 % TWO38, x1 / TWO38, x2 % TWO25, x2 / TWO25, x3 % TWO12, out[4], x3 / TWO12 / R);
    BelowTWO255(out);
    ModUnique(x0 + W64 * (x1 + W64 * (x2 + W64 * x3)), TWO255, x3 / TWO12 / R, Value(out));
  }

  lemma ExpandIdentity(l0: int, h0: int, l1: int, h1: int, l2: int, h2: int, l3: int, o4: int, top: int)
    ensures (l0 + h0 * R) + W64 * ((l1 + h1 * TWO38) + W64 * ((l2 + h2 * TWO25) + W64 * (l3 + (o4 + top * R) * TWO12)))
         == l0 + (h0 + l1 * TWO13) * R + (h1 + l2 * TWO26) * R2 + (h2 + l3 * TWO39) * R3 + o4 * R4 + top * TWO255
  {
  }

  // ---- contract ----

  /** Lines 284-285: two folds leave a number below 2^255. */
  method FoldTwice(a: Fe) returns (t: Fe)
    requires Below(a, W64 - 0x4000)
    ensures Below(t, R) && Cong(Value(t), Value(a))
  {
    hide Value, Cong, Folded;
    var s := CarryFold(a);
    t := CarryFold(s);
    SecondFold(a, s, t);
    CongTrans(Value(t), Value(s), Value(a));
  }

  lemma SecondFold(a: Fe, s: Fe, t: Fe)
    requires Below(a, W64 - 0x4000) && Folded(s, a) && Folded(t, s)
    ensures Below(t, R)
  {
    hide Cong;
    ValueBound(a);
    ValueAtMost(s);
    hide Value;
    FoldQuotient(Value(a));
    assert Value(s) < TWO255 + 0x4_0000;
    TopCarry(Value(s));
    if Value(s) / TWO255 == 1 {
      LowestAtMost(t);
    }
  }

  lemma ValueBound(a: Fe)
    requires Below(a, W64 - 0x4000)
    ensures Value(a) < 0x2001 * TWO255
  {
  }

  lemma ValueAtMost(s: Fe)
    requires s[1] < R && s[2] < R && s[3] < R && s[4] < R
    ensures Value(s) <= s[0] + TWO255 - R
  {
  }

  lemma FoldQuotient(v: nat)
    requires v < 0x2001 * TWO255
    ensures v / TWO255 <= 0x2000
  {
  }

  lemma TopCarry(v: nat)
    requires v < 2 * TWO255
    ensures v / TWO255 == (if v < TWO255 then 0 else 1)
  {
    ModUnique(v, TWO255, if v < TWO255 then 0 else 1, if v < TWO255 then v else v - TWO255);
  }

  lemma LowestAtMost(t: Fe)
    ensures t[0] <= Value(t)
  {
  }

  /** Lines 286-293: p is subtracted once if it can be. */
  method SubtractPrime(t: Fe) returns (out: Fe)
    requires Below(t, R)
    ensures Below(out, R) && Value(out) == Value(t) % PRIME
  {
    hide Value, Cong, Folded;
    var o: u64 := t[0] + 19;
    var s := t[0 := o];
    AddToLowest(t, 19);
    BelowTWO255(t);
    var f := CarryFold(s);
    AfterNineteen(t, s, f);
    var v0: u64, v1: u64, v2: u64, v3: u64, v4: u64 := f[0] + (R - 19), f[1] + (R - 1), f[2] + (R - 1), f[3] + (R - 1), f[4] + (R - 1);
    var v := [v0, v1, v2, v3, v4];
    AddOnes(f, v);
    var c;
    out, c := CarryChain(v);
    BelowTWO255(out);
    DropTop(Value(out), c, Value(t) % PRIME);
  }

  lemma AfterNineteen(t: Fe, s: Fe, f: Fe)
    requires Value(t) < TWO255 && Value(s) == Value(t) + 19 && Folded(f, s)
    ensures Value(f) == Value(t) % PRIME + 19 && Below(f, R + 20)
  {
    hide Value;
    TopCarry(Value(s));
    var c := Value(s) / TWO255;
    ModUnique(Value(t), PRIME, c, Value(t) - c * PRIME);
  }

  lemma AddOnes(f: Fe, v: Fe)
    requires v == [f[0] + (R - 19), f[1] + (R - 1), f[2] + (R - 1), f[3] + (R - 1), f[4] + (R - 1)]
    ensures Value(v) == Value(f) + TWO255 - 19
  {
  }

  lemma DropTop(out: nat, c: nat, m: nat)
    requires out < TWO255 && m < PRIME && out + c * TWO255 == m + TWO255
    ensures out == m
  {
  }

  /** Lines 294-301: the limbs as four words. */
  method WordsOfLimbs(t: Fe) returns (w0: nat, w1: nat, w2: nat, w3: nat)
    requires Below(t, R)
    ensures w0 < W64 && w1 < W64 && w2 < W64 && w3 < W64
    ensures w0 + W64 * (w1 + W64 * (w2 + W64 * w3)) == Value(t)
  {
    hide Or, Pow2, Value;
    ShiftValues();
    PackedWord(t[0], t[1], 51);
    PackedWord(t[1] / TWO13, t[2], 38);
    PackedWord(t[2] / TWO26, t[3], 25);
    PackedWord(t[3] / TWO39, t[4], 12);
    w0 := Or(t[0], Wrap64(t[1] * R));
    w1 := Or(t[1] / TWO13, Wrap64(t[2] * TWO38));
    w2 := Or(t[2] / TWO26, Wrap64(t[3] * TWO25));
    w3 := Or(t[3] / TWO39, Wrap64(t[4] * TWO12));
    WordsValueIs(t, w0, w1, w2, w3);
  }

  lemma WordsValueIs(t: Fe, w0: nat, w1: nat, w2: nat, w3: nat)
    requires Below(t, R)
    requires w0 == t[0] + t[1] % TWO13 * R
    requires w1 == t[1] / TWO13 + t[2] % TWO26 * TWO38
    requires w2 == t[2] / TWO26 + t[3] % TWO39 * TWO25
    requires w3 == t[3] / TWO39 + t[4] % (2 * R) * TWO12
    ensures w0 + W64 * (w1 + W64 * (w2 + W64 * w3)) == Value(t)
  {
    WordsIdentity(t[0], t[1] % TWO13, t[1] / TWO13, t[2] % TWO26, t[2] / TWO26, t[3] % TWO39, t[3] / TWO39, t[4]);
  }

  lemma WordsIdentity(t0: int, l1: int, h1: int, l2: int, h2: int, l3: int, h3: int, t4: int)
    ensures (t0 + l1 * R) + W64 * ((h1 + l2 * TWO38) + W64 * ((h2 + l3 * TWO25) + W64 * (h3 + t4 * TWO12)))
         == t0 + (l1 + h1 * TWO13) * R + (l2 + h2 * TWO26) * R2 + (l3 + h3 * TWO39) * R3 + t4 * R4
  {
  }

  /** The 32 bytes of the representative below p, the same for congruent elements. */
  method Contract(a: Fe) returns (out: seq<byte>)
    requires Below(a, W64 - 0x4000)
    ensures |out| == 32 && LE(out) == Value(a) % PRIME
    ensures out == ToLE(Value(a) % PRIME, 32)
  {
    hide Value, Cong, Store64, LE, ToLE;
    var t := FoldTwice(a);
    SameResidue(Value(t), Value(a));
    t := SubtractPrime(t);
    var w0, w1, w2, w3 := WordsOfLimbs(t);
    out := Store64(w0) + Store64(w1) + Store64(w2) + Store64(w3);
    FourWords(out, w0, w1, w2, w3);
    ToLEUnique(out);
  }

  lemma SameResidue(a: int, b: int)
    requires Cong(a, b)
    ensures a % PRIME == b % PRIME
  {
    var k := CongQuotient(a, b);
    var j := b / PRIME;
    assert b == j * PRIME + b % PRIME;
    Distribute(j, k, PRIME);
    ModUnique(a, PRIME, j + k, b % PRIME);
  }

  lemma ResidueCong(a: int)
    ensures Cong(a % PRIME, a)
  {
    var j := a / PRIME;
    assert a == j * PRIME + a % PRIME;
    CongBy(a % PRIME, a, 0 - j);
  }

  /** Expanding and contracting 32 bytes gives them back exactly when they were canonical. */
  lemma BytesRoundTrip(b: seq<byte>, a: Fe, out: seq<byte>)
    requires |b| == 32 && Value(a) == LE(b) % TWO255 && out == ToLE(Value(a) % PRIME, 32)
    requires LE(out) == Value(a) % PRIME
    ensures out == b <==> LE(b) < PRIME
  {
    hide Value, LE, ToLE;
    ToLEUnique(b);
    if LE(b) < PRIME {
      ModUnique(LE(b), TWO255, 0, LE(b));
      ModUnique(LE(b), PRIME, 0, LE(b));
    }
  }
}
