/**
 Scalars from bytes and back: the reduction of up to 64 bytes modulo L, and the 32
 bytes of a scalar.

 Line numbers are those of src/ed25519-donna/modm-donna-64bit.h.
 */
module ModmBytes {
  import opened Bits
  import opened Bytes
  import opened Scalars
  import opened Modm


  // ---- eight words, and the limbs that overlap them ----

  /** The number denoted by eight words. */
  function WordsValue(x: seq<nat>): nat
    requires |x| == 8
  {
    x[0] + W64 * (x[1] + W64 * (x[2] + W64 * (x[3] + W64 * (x[4] + W64 * (x[5] + W64 * (x[6] + W64 * x[7]))))))
  }

  lemma WordsOfBytes(b: seq<byte>, x: seq<nat>)
    requires |b| == 64
    requires x == [Load64(b, 0), Load64(b, 8), Load64(b, 16), Load64(b, 24), Load64(b, 32),
                   Load64(b, 40), Load64(b, 48), Load64(b, 56)]
    ensures LE(b) == WordsValue(x) && forall i :: 0 <= i < 8 ==> x[i] < W64
  {
    hide Load64, LE, LEFrom, WordsValue;
    LEFromStep(b, 0);
    LEFromStep(b, 8);
    LEFromStep(b, 16);
    LEFromStep(b, 24);
    LEFromStep(b, 32);
    LEFromStep(b, 40);
    LEFromStep(b, 48);
    LEFromStep(b, 56);
    LEFromEnds(b);
    NestWords(LEFrom(b, 0), LEFrom(b, 8), LEFrom(b, 16), LEFrom(b, 24), LEFrom(b, 32), LEFrom(b, 40), LEFrom(b, 48),
              LEFrom(b, 56), x);
  }

  lemma NestWords(t0: nat, t1: nat, t2: nat, t3: nat, t4: nat, t5: nat, t6: nat, t7: nat, x: seq<nat>)
    requires |x| == 8 && t7 == x[7] && t6 == x[6] + W64 * t7 && t5 == x[5] + W64 * t6 && t4 == x[4] + W64 * t5
    requires t3 == x[3] + W64 * t4 && t2 == x[2] + W64 * t3 && t1 == x[1] + W64 * t2 && t0 == x[0] + W64 * t1
    ensures t0 == WordsValue(x)
  {
  }

  /** Lines 126-130, with the arithmetic of the joins. */
  predicate LowLimbsOf(out: Bignum, x: seq<nat>)
    requires |x| == 8
  {
    && out[0] == x[0] % LIMB
    && out[1] == x[0] / LIMB + x[1] % TWO48 * TWO8
    && out[2] == x[1] / TWO48 + x[2] % TWO40 * TWO16
    && out[3] == x[2] / TWO40 + x[3] % TWO32 * TWO24
    && out[4] == x[3] / TWO32 + x[4] % TWO8 * TWO32
  }

  /** Lines 133-137, likewise. */
  predicate HighLimbsOf(q1: Bignum, x: seq<nat>)
    requires |x| == 8
  {
    && q1[0] == x[3] / LIMB + x[4] % TWO48 * TWO8
    && q1[1] == x[4] / TWO48 + x[5] % TWO40 * TWO16
    && q1[2] == x[5] / TWO40 + x[6] % TWO32 * TWO24
    && q1[3] == x[6] / TWO32 + x[7] % TWO24 * TWO32
    && q1[4] == x[7] / TWO24
  }

  lemma LowLimbsValue(out: Bignum, x: seq<nat>)
    requires |x| == 8 && (forall i :: 0 <= i < 8 ==> x[i] < W64) && LowLimbsOf(out, x)
    ensures Normal(out) && Val(out) == x[0] + W64 * (x[1] + W64 * (x[2] + W64 * (x[3] + W64 * (x[4] % TWO8))))
  {
    LowTelescope(x[0] % LIMB, x[0] / LIMB, x[1] % TWO48, x[1] / TWO48, x[2] % TWO40, x[2] / TWO40,
                 x[3] % TWO32, x[3] / TWO32, x[4] % TWO8);
  }

  lemma LowTelescope(a0: int, b0: int, a1: int, b1: int, a2: int, b2: int, a3: int, b3: int, a4: int)
    ensures a0 + (b0 + a1 * TWO8) * LIMB + (b1 + a2 * TWO16) * B2 + (b2 + a3 * TWO24) * B3 + (b3 + a4 * TWO32) * B4
         == (a0 + b0 * LIMB) + W64 * ((a1 + b1 * TWO48) + W64 * ((a2 + b2 * TWO40) + W64 * ((a3 + b3 * TWO32) + W64 * a4)))
  {
  }

  lemma HighLimbsValue(q1: Bignum, x: seq<nat>)
    requires |x| == 8 && (forall i :: 0 <= i < 8 ==> x[i] < W64) && HighLimbsOf(q1, x)
    ensures Normal(q1) && Val(q1) == x[3] / LIMB + TWO8 * (x[4] + W64 * (x[5] + W64 * (x[6] + W64 * x[7])))
  {
    HighTelescope(x[3] / LIMB, x[4] % TWO48, x[4] / TWO48, x[5] % TWO40, x[5] / TWO40,
                  x[6] % TWO32, x[6] / TWO32, x[7] % TWO24, x[7] / TWO24);
  }

  lemma HighTelescope(b3: int, a4: int, b4: int, a5: int, b5: int, a6: int, b6: int, a7: int, b7: int)
    ensures (b3 + a4 * TWO8) + (b4 + a5 * TWO16) * LIMB + (b5 + a6 * TWO24) * B2 + (b6 + a7 * TWO32) * B3 + b7 * B4
         == b3 + TWO8 * ((a4 + b4 * TWO48) + W64 * ((a5 + b5 * TWO40) + W64 * ((a6 + b6 * TWO32) + W64 * (a7 + b7 * TWO24))))
  {
  }

  /** The two overlapping halves of eight words. */
  lemma HalvesOfWords(out: Bignum, q1: Bignum, x: seq<nat>)
    requires |x| == 8 && (forall i :: 0 <= i < 8 ==> x[i] < W64) && LowLimbsOf(out, x) && HighLimbsOf(q1, x)
    ensures WordsValue(x) < TWO512
    ensures Normal(out) && Val(out) == WordsValue(x) % TWO264
    ensures Normal(q1) && Val(q1) == WordsValue(x) / TWO248
  {
    LowLimbsValue(out, x);
    HighLimbsValue(q1, x);
    hide Val, LowLimbsOf, HighLimbsOf;
    var above := x[5] + W64 * (x[6] + W64 * x[7]);
    var high := x[4] + W64 * above;
    ModUnique(high, TWO8, x[4] / TWO8 + LIMB * above, x[4] % TWO8);
    HalvesArithmetic(x[0], x[1], x[2], x[3], high, Val(out), Val(q1));
  }

  lemma HalvesArithmetic(x0: nat, x1: nat, x2: nat, x3: nat, high: nat, out: nat, q1: nat)
    requires x0 < W64 && x1 < W64 && x2 < W64 && x3 < W64 && high < W64 * W64 * W64 * W64
    requires out == x0 + W64 * (x1 + W64 * (x2 + W64 * (x3 + W64 * (high % TWO8))))
    requires q1 == x3 / LIMB + TWO8 * high
    ensures var z := x0 + W64 * (x1 + W64 * (x2 + W64 * (x3 + W64 * high)));
            z < TWO512 && out == z % TWO264 && q1 == z / TWO248
  {
    var z := x0 + W64 * (x1 + W64 * (x2 + W64 * (x3 + W64 * high)));
    assert high == high / TWO8 * TWO8 + high % TWO8;
    ModUnique(z, TWO264, high / TWO8, out);
    assert x3 == x3 / LIMB * LIMB + x3 % LIMB;
    ModUnique(z, TWO248, q1, x0 + W64 * (x1 + W64 * (x2 + W64 * (x3 % LIMB))));
  }

  // ---- expand ----

  /** Lines 117-125: the bytes, padded with zeros to 64, as eight words. */
  method LoadWords(b: seq<byte>) returns (x: seq<nat>)
    requires |b| <= 64
    ensures |x| == 8 && (forall i :: 0 <= i < 8 ==> x[i] < W64) && WordsValue(x) == LE(b)
  {
    var work := b + Zeros(64 - |b|);
    ZerosAbove(b, 64 - |b|);
    x := [Load64(work, 0), Load64(work, 8), Load64(work, 16), Load64(work, 24), Load64(work, 32),
          Load64(work, 40), Load64(work, 48), Load64(work, 56)];
    WordsOfBytes(work, x);
  }

  method LowLimbs(x: seq<nat>) returns (out: Bignum)
    requires |x| == 8 && (forall i :: 0 <= i < 8 ==> x[i] < W64)
    ensures LowLimbsOf(out, x)
  {
    hide JoinWords, Pow2;
    Pow2Values();
    JoinedLimb(x[0], x[1], 8, 56);
    JoinedLimb(x[1], x[2], 16, 56);
    JoinedLimb(x[2], x[3], 24, 56);
    JoinedLimb(x[3], x[4], 32, 40);
    out := [x[0] % LIMB, JoinWords(x[0], x[1], 8) % LIMB, JoinWords(x[1], x[2], 16) % LIMB,
            JoinWords(x[2], x[3], 24) % LIMB, JoinWords(x[3], x[4], 32) % TWO40];
  }

  method HighLimbs(x: seq<nat>) returns (q1: Bignum)
    requires |x| == 8 && (forall i :: 0 <= i < 8 ==> x[i] < W64)
    ensures HighLimbsOf(q1, x)
  {
    hide JoinWords, Pow2;
    Pow2Values();
    JoinedLimb(x[3], x[4], 8, 56);
    JoinedLimb(x[4], x[5], 16, 56);
    JoinedLimb(x[5], x[6], 24, 56);
    JoinedLimb(x[6], x[7], 32, 56);
    q1 := [JoinWords(x[3], x[4], 8) % LIMB, JoinWords(x[4], x[5], 16) % LIMB, JoinWords(x[5], x[6], 24) % LIMB,
           JoinWords(x[6], x[7], 32) % LIMB, x[7] / TWO24];
  }

  /** The number in at most 64 bytes, modulo L. */
  method Expand256(b: seq<byte>) returns (out: Bignum)
    requires |b| <= 64
    ensures Normal(out) && Val(out) == LE(b) % L
  {
    hide Val, LowLimbsOf, HighLimbsOf, WordsValue, LE, Pow2;
    var x := LoadWords(b);
    out := LowLimbs(x);
    var q1 := HighLimbs(x);
    HalvesOfWords(out, q1, x);
    if |b| < 32 {
      ShortIsReduced(b, Val(out));
      return;
    }
    out := BarrettReduce256(q1, out, WordsValue(x));
  }

  /** Fewer than 32 bytes hold a number below 2^248, which is below L. */
  lemma ShortIsReduced(b: seq<byte>, v: nat)
    requires |b| < 32 && v == LE(b) % TWO264
    ensures v == LE(b) % L
  {
    hide LE, Pow2;
    LEBound(b);
    Pow2Monotone(8 * |b|, 248);
    Pow248();
    ModUnique(LE(b), TWO264, 0, LE(b));
    ModUnique(LE(b), L, 0, LE(b));
  }

  lemma Pow248()
    ensures Pow2(248) == TWO248 && TWO248 < L
  {
    hide Pow2;
    Pow2Values();
    Pow2Add(56, 56);
    Pow2Add(112, 56);
    Pow2Add(168, 56);
    Pow2Add(224, 24);
  }

  // ---- contract ----

  const TWO256: nat := TWO32 * B4

  /** The 32 bytes of a scalar. */
  method Contract256(a: Bignum) returns (out: seq<byte>)
    requires Normal(a)
    ensures |out| == 32 && LE(out) == Val(a) % TWO256
  {
    hide Val, LE, Store64, Pow2;
    var w0, w1, w2, w3 := WordsOfScalar(a);
    out := Store64(w0) + Store64(w1) + Store64(w2) + Store64(w3);
    FourWords(out, w0, w1, w2, w3);
  }

  method WordsOfScalar(a: Bignum) returns (w0: nat, w1: nat, w2: nat, w3: nat)
    requires Normal(a)
    ensures w0 < W64 && w1 < W64 && w2 < W64 && w3 < W64
    ensures w0 + W64 * (w1 + W64 * (w2 + W64 * w3)) == Val(a) % TWO256
  {
    hide Or, Pow2;
    Pow2Values();
    PackedWord(a[0], a[1], 56);
    PackedWord(a[1] / TWO8, a[2], 48);
    PackedWord(a[2] / TWO16, a[3], 40);
    PackedWord(a[3] / TWO24, a[4], 32);
    w0 := Or(a[0], Wrap64(a[1] * LIMB));
    w1 := Or(a[1] / TWO8, Wrap64(a[2] * TWO48));
    w2 := Or(a[2] / TWO16, Wrap64(a[3] * TWO40));
    w3 := Or(a[3] / TWO24, Wrap64(a[4] * TWO32));
    PackTelescope(a, w0, w1, w2, w3);
  }

  lemma PackTelescope(a: Bignum, w0: nat, w1: nat, w2: nat, w3: nat)
    requires Normal(a)
    requires w0 == a[0] + a[1] % TWO8 * LIMB
    requires w1 == a[1] / TWO8 + a[2] % TWO16 * TWO48
    requires w2 == a[2] / TWO16 + a[3] % TWO24 * TWO40
    requires w3 == a[3] / TWO24 + a[4] % TWO32 * TWO32
    ensures w0 + W64 * (w1 + W64 * (w2 + W64 * w3)) == Val(a) % TWO256
  {
    PackIdentity(a[0], a[1] % TWO8, a[1] / TWO8, a[2] % TWO16, a[2] / TWO16, a[3] % TWO24, a[3] / TWO24,
                 a[4] % TWO32, a[4] / TWO32);
    var v := w0 + W64 * (w1 + W64 * (w2 + W64 * w3));
    ModUnique(Val(a), TWO256, a[4] / TWO32, v);
  }

  lemma PackIdentity(a0: int, l1: int, h1: int, l2: int, h2: int, l3: int, h3: int, l4: int, h4: int)
    ensures a0 + (l1 + h1 * TWO8) * LIMB + (l2 + h2 * TWO16) * B2 + (l3 + h3 * TWO24) * B3 + (l4 + h4 * TWO32) * B4
         == (a0 + l1 * LIMB) + W64 * ((h1 + l2 * TWO48) + W64 * ((h2 + l3 * TWO40) + W64 * (h3 + l4 * TWO32))) + h4 * TWO256
  {
  }
}
