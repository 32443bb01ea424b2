/**
 Key generation, signing and verification over an abstract curve and compression
 function, and the theorem that verification accepts what signing makes (RFC 8032
 sections 5.1.5 to 5.1.7).

 Line numbers are those of src/ed25519-donna/ed25519.c.
 */
module Ed25519 {
  import opened Bits
  import opened Options
  import opened Bytes
  import opened Groups
  import opened Scalars
  import opened Modm
  import opened ModmMul
  import opened ModmBytes
  import opened ScalarMult
  import opened Sha512

  /** The group, its base point with the two tables of multiples, and the encoding of points. */
  datatype Curve<!P> = Curve(g: Group<P>, base: P, baseTable: seq<Cached<P>>, sliding: seq<Cached<P>>,
                             pack: P -> seq<byte>, unpackNegative: seq<byte> -> Option<P>)

  /**
   The base point has order dividing L, and decoding undoes encoding up to the sign on
   the multiples of the base point.
   */
  ghost predicate IsCurve<P(!new)>(c: Curve<P>) {
    && IsAbelian(c.g)
    && BaseTable(c.g, c.base, c.baseTable)
    && |c.sliding| == S2_TABLE_SIZE && OddMultiples(c.g, c.base, c.sliding)
    && Times(c.g, L, c.base) == c.g.zero
    && (forall p :: |c.pack(p)| == 32)
    && (forall n: nat :: DecodesNegative(c, n))
  }

  ghost predicate DecodesNegative<P(!new)>(c: Curve<P>, n: nat) {
    var p := Times(c.g, n, c.base);
    c.unpackNegative(c.pack(p)) == Some(c.g.neg(p))
  }

  // ---- what the three operations compute ----

  /** The hashed secret key with its first half clamped. */
  function ExpandedKey(f: Compression, sk: seq<byte>): (e: seq<byte>)
    ensures |e| == 64
  {
    var h := Digest(f, sk);
    Clamp(h)
  }

  function Clamp(h: seq<byte>): (e: seq<byte>)
    requires |h| == 64
    ensures |e| == 64
  {
    ClampedBytes(h[0], h[31]);
    h[0 := And(h[0], 248)][31 := Or(And(h[31], 127), 64)]
  }

  /**
   The low half of a clamped key is the hash with its three low and two high bits
   replaced, a multiple of 8 in [2^254, 2^255); the high half is that of the hash.
   */
  lemma ClampIs(h: seq<byte>)
    requires |h| == 64
    ensures LE(Clamp(h)[..32]) == Pow2(254) + LE(h[..32]) % Pow2(254) / 8 * 8
    ensures var e := Clamp(h);
            LE(e[..32]) % 8 == 0 && Pow2(254) <= LE(e[..32]) < Pow2(255) && e[32..] == h[32..]
    ensures forall i :: 1 <= i < 31 ==> Clamp(h)[i] == h[i]
  {
    hide And, Or, LE, Pow2;
    ClampedBytes(h[0], h[31]);
    var k := Clamp(h)[..32];
    assert k[0] == And(h[0], 248) && k[31] == Or(And(h[31], 127), 64) && k[1..31] == h[..32][1..31];
    hide Clamp;
    ClampedValue(h[..32], k);
    Pow2Add(3, 251);
    Pow2Add(1, 254);
    Pow2Small();
    ClampedRange(LE(h[..32]), Pow2(254), Pow2(251));
  }

  lemma ClampedRange(v: nat, p: nat, u: nat)
    requires p == 8 * u >= 1
    ensures (p + v % p / 8 * 8) % 8 == 0 && p + v % p / 8 * 8 < 2 * p
  {
    ModUnique(p + v % p / 8 * 8, 8, u + v % p / 8, 0);
  }

  lemma ClampedValue(h: seq<byte>, k: seq<byte>)
    requires |h| == |k| == 32 && k[1..31] == h[1..31]
    requires k[0] == And(h[0], 248) && k[31] == Or(And(h[31], 127), 64)
    ensures LE(k) == Pow2(254) + LE(h) % Pow2(254) / 8 * 8
  {
    hide And, Or, LE, Pow2;
    EndsAndMiddle(h);
    EndsAndMiddle(k);
    LowBitsClear(h[0]);
    HighBitsSet(h[31]);
    MiddleBound(h);
    ClampArithmetic(h[0], LE(h[1..31]), h[31], Pow2(245), Pow2(248), Pow2(254));
  }

  lemma EndsAndMiddle(b: seq<byte>)
    requires |b| == 32
    ensures LE(b) == b[0] + 0x100 * LE(b[1..31]) + b[31] * Pow2(248)
  {
    hide Pow2;
    assert b[1..] == b[1..31] + b[31..];
    LEConcat(b[1..31], b[31..]);
    assert b[31..][1..] == [];
    assert LE(b[31..]) == b[31] + 0x100 * LE([]);
    Pow2Add(240, 8);
    Pow2Values();
    Reassociate(Pow2(240), 0x100, b[31]);
  }

  lemma MiddleBound(b: seq<byte>)
    requires |b| == 32
    ensures b[0] + 0x100 * LE(b[1..31]) < Pow2(248) == 8 * Pow2(245) && Pow2(254) == 64 * Pow2(248)
  {
    hide Pow2, LE;
    LEBound(b[1..31]);
    assert |b[1..31]| == 30;
    Pow2Add(240, 8);
    Pow2Add(3, 245);
    Pow2Add(248, 6);
    SixtyFour();
    Pow2Values();
    Pow2Small();
  }

  lemma ClampArithmetic(low: nat, mid: nat, top: nat, p: nat, p8: nat, p512: nat)
    requires low < 0x100 && top < 0x100 && low + 0x100 * mid < p8 == 8 * p && p512 == 64 * p8
    ensures p512 >= 1
    ensures low / 8 * 8 + 0x100 * mid + (64 + top % 64) * p8 == p512 + (low + 0x100 * mid + top * p8) % p512 / 8 * 8
  {
    var q, r := top / 64, top % 64;
    TopPart(q, r, p, p8, p512);
    ClearRest(low, mid, top * p8, r * p, q, p512);
  }

  lemma TopPart(q: nat, r: nat, p: nat, p8: nat, p512: nat)
    requires r < 64 && p8 == 8 * p && p512 == 64 * p8
    ensures (64 * q + r) * p8 == q * p512 + 8 * (r * p) && 8 * (r * p) + p8 <= p512 && (64 + r) * p8 == p512 + 8 * (r * p)
  {
    Distribute(64 * q, r, p8);
    Reassociate(q, 64, p8);
    Reassociate(r, 8, p);
    Distribute(64, r, p8);
    MulStrict(r, 64, p8);
  }

  lemma ClearRest(low: nat, mid: nat, t: nat, u: nat, q: nat, p512: nat)
    requires low + 0x100 * mid + 8 * u < p512 && t == q * p512 + 8 * u
    ensures (low + 0x100 * mid + t) % p512 / 8 * 8 == low / 8 * 8 + 0x100 * mid + 8 * u
  {
    ModUnique(low + 0x100 * mid + t, p512, q, low + 0x100 * mid + 8 * u);
    ModUnique(low + 0x100 * mid + 8 * u, 8, low / 8 + 32 * mid + u, low % 8);
  }

  lemma LowBitsClear(a: byte)
    ensures And(a, 248) == a / 8 * 8
  {
    hide And;
    AndShiftedMask(a, 31, 3);
    assert Shl(31, 3) == 248;
    ShrIsDiv(a, 3);
    AndMask(a / 8, 5);
    Pow2Small();
    ShlIsMul(a / 8, 3);
  }

  lemma HighBitsSet(b: byte)
    ensures Or(And(b, 127), 64) == 64 + b % 64
  {
    hide And, Or;
    SixtyFour();
    AndMask(b, 7);
    OrPower(b % 128, 6);
  }

  /** Setting bit k of a number that has no higher ones. */
  lemma {:induction false} OrPower(a: nat, k: nat)
    requires a < Pow2(k + 1)
    ensures Or(a, Pow2(k)) == Pow2(k) + a % Pow2(k)
  {
    if k == 0 {
      OrOne(a);
    } else if a != 0 {
      OrPower(a / 2, k - 1);
      HalfMod(a, Pow2(k - 1));
    }
  }

  lemma SixtyFour()
    ensures Pow2(6) == 64 && Pow2(7) == 128
  {
  }

  lemma MulOrdered(x: int, y: int, p: nat)
    requires x <= y
    ensures x * p <= y * p
  {
    MulDifference(y, x, p);
  }

  lemma ClampedBytes(a: byte, b: byte)
    ensures And(a, 248) < 0x100 && Or(And(b, 127), 64) < 0x100
  {
    hide And, Or;
    assert Pow2(8) == 0x100;
    AndBound(a, 248, 8);
    AndBound(b, 127, 8);
    OrBound(And(b, 127), 64, 8);
  }

  lemma {:induction false} AndBound(a: nat, b: nat, k: nat)
    requires a < Pow2(k)
    ensures And(a, b) < Pow2(k)
  {
    if a != 0 && b != 0 {
      AndBound(a / 2, b / 2, k - 1);
    }
  }

  function SecretScalar(f: Compression, sk: seq<byte>): nat {
    LE(ExpandedKey(f, sk)[..32]) % L
  }

  function PublicKeyOf<P>(c: Curve<P>, f: Compression, sk: seq<byte>): seq<byte> {
    c.pack(Times(c.g, SecretScalar(f, sk), c.base))
  }

  function Nonce(f: Compression, m: seq<byte>, sk: seq<byte>): nat {
    LE(Digest(f, ExpandedKey(f, sk)[32..] + m)) % L
  }

  /** H(R, A, m) as a scalar. */
  function Challenge(f: Compression, r: seq<byte>, pk: seq<byte>, m: seq<byte>): nat {
    LE(Digest(f, r + pk + m)) % L
  }

  function Response(h: nat, a: nat, r: nat): nat {
    (h * a + r) % L
  }

  function SignatureOf<P>(c: Curve<P>, f: Compression, m: seq<byte>, sk: seq<byte>, pk: seq<byte>): seq<byte> {
    var r := Nonce(f, m, sk);
    var R := c.pack(Times(c.g, r, c.base));
    R + ToLE(Response(Challenge(f, R, pk, m), SecretScalar(f, sk), r), 32)
  }

  ghost predicate Accepts<P(!new)>(c: Curve<P>, f: Compression, m: seq<byte>, pk: seq<byte>, rs: seq<byte>)
    requires |rs| == 64
  {
    && And(rs[63], 224) == 0
    && var a := c.unpackNegative(pk);
       a.Some?
       && c.pack(c.g.add(Times(c.g, Challenge(f, rs[..32], pk, m), a.value), Times(c.g, LE(rs[32..]) % L, c.base)))
          == rs[..32]
  }

  // ---- the theorem ----

  lemma SmallTopByte(b: seq<byte>)
    requires |b| == 32 && LE(b) < L
    ensures And(b[31], 224) == 0
  {
    hide And, Pow2, LE, Shl, Shr;
    TopByte(b);
    Pow248();
    assert b[31] < 32;
    Below32(b[31]);
  }

  lemma Below32(x: nat)
    requires x < 32
    ensures And(x, 224) == 0
  {
    AndShiftedMask(x, 7, 5);
    assert Shl(7, 5) == 224;
    ShrIsDiv(x, 5);
    assert Pow2(5) == 32;
    assert Shr(x, 5) == 0;
    ShlIsMul(And(0, 7), 5);
  }

  lemma From32(x: byte)
    requires x >= 32
    ensures And(x, 224) != 0
  {
    hide And;
    AndShiftedMask(x, 7, 5);
    assert Shl(7, 5) == 224;
    ShrIsDiv(x, 5);
    assert Pow2(5) == 32 && Pow2(3) == 8;
    AndMask(x / 32, 3);
    ShlIsMul(x / 32, 5);
  }

  /** The test on the last byte of a signature: S below 2^253, which is more than L. */
  lemma TopBitsIff(b: seq<byte>)
    requires |b| == 32
    ensures And(b[31], 224) == 0 <==> LE(b) < Pow2(253)
    ensures L < Pow2(253)
  {
    hide And, Pow2, LE;
    TopByte(b);
    TopByteAbove(b);
    Pow2Add(248, 5);
    Pow2Five();
    Pow248();
    if b[31] < 32 {
      Below32(b[31]);
      MulOrdered(b[31] + 1, 32, Pow2(248));
    } else {
      From32(b[31]);
      MulOrdered(32, b[31], Pow2(248));
    }
  }

  lemma Pow2Five()
    ensures Pow2(5) == 32
  {
  }

  /** h·(-A) + (h a + r)·B == r·B for A = a·B, with the scalar reduced modulo L. */
  lemma VerificationEquation<P(!new)>(g: Group<P>, base: P, h: nat, a: nat, r: nat)
    requires IsAbelian(g) && Times(g, L, base) == g.zero
    ensures g.add(Times(g, h, g.neg(Times(g, a, base))), Times(g, (h * a + r) % L, base)) == Times(g, r, base)
  {
    hide Times;
    TimesOfNeg(g, h, Times(g, a, base));
    TimesTimes(g, h, a, base);
    NegatedCancels(g, base, h * a, r);
  }

  lemma {:induction false} NegatedCancels<P(!new)>(g: Group<P>, base: P, n: int, r: int)
    requires IsAbelian(g) && Times(g, L, base) == g.zero
    ensures g.add(g.neg(Times(g, n, base)), Times(g, (n + r) % L, base)) == Times(g, r, base)
  {
    hide Times;
    TimesMod(g, n + r, L, base);
    TimesAdd(g, n, r, base);
    CancelLeft(g, Times(g, n, base), Times(g, r, base));
  }

  lemma CancelLeft<P(!new)>(g: Group<P>, x: P, y: P)
    requires IsAbelian(g)
    ensures g.add(g.neg(x), g.add(x, y)) == y
  {
    Commute(g, g.neg(x), g.add(x, y));
    Commute(g, x, y);
    Cancel(g, y, x);
  }

  /** Verification accepts every signature made under the matching public key. */
  lemma SignaturesAreAccepted<P(!new)>(c: Curve<P>, f: Compression, m: seq<byte>, sk: seq<byte>)
    requires IsCurve(c)
    ensures var pk := PublicKeyOf(c, f, sk);
            var rs := SignatureOf(c, f, m, sk, pk);
            |rs| == 64 && Accepts(c, f, m, pk, rs)
  {
    hide Times, Digest, LE, ToLE, And, ExpandedKey, BaseTable, OddMultiples;
    var a, r := SecretScalar(f, sk), Nonce(f, m, sk);
    var pk := PublicKeyOf(c, f, sk);
    var R := c.pack(Times(c.g, r, c.base));
    var h := Challenge(f, R, pk, m);
    var s := (h * a + r) % L;
    var sb := ToLE(s, 32);
    var rs := SignatureOf(c, f, m, sk, pk);
    assert rs == R + sb && rs[..32] == R && rs[32..] == sb && rs[63] == sb[31];
    assert DecodesNegative(c, a);
    ScalarBytes(s);
    ModUnique(s, L, 0, s);
    VerificationEquation(c.g, c.base, h, a, r);
  }

  /**
   The code asks for S < 2^253 where RFC 8032 section 5.1.7 asks for S < L: beside an
   accepted signature, the same R with another S of the same residue modulo L is
   accepted exactly when that S is below 2^253.
   */
  lemma OtherScalars<P(!new)>(c: Curve<P>, f: Compression, m: seq<byte>, pk: seq<byte>, rs: seq<byte>, t: seq<byte>)
    requires |rs| == |t| == 64 && Accepts(c, f, m, pk, rs)
    requires t[..32] == rs[..32] && LE(t[32..]) % L == LE(rs[32..]) % L
    ensures Accepts(c, f, m, pk, t) <==> LE(t[32..]) < Pow2(253)
  {
    hide And, Pow2, LE, Times, Digest;
    TopBitsIff(t[32..]);
    assert t[32..][31] == t[63];
  }

  /** What acceptance means, in the terms of RFC 8032 section 5.1.7. */
  lemma AcceptsIff<P(!new)>(c: Curve<P>, f: Compression, m: seq<byte>, pk: seq<byte>, rs: seq<byte>)
    requires |rs| == 64
    ensures Accepts(c, f, m, pk, rs) <==>
              && LE(rs[32..]) < Pow2(253)
              && c.unpackNegative(pk).Some?
              && c.pack(c.g.add(Times(c.g, LE(Digest(f, rs[..32] + pk + m)) % L, c.unpackNegative(pk).value),
                                Times(c.g, LE(rs[32..]) % L, c.base))) == rs[..32]
  {
    hide And, Pow2, LE, Times, Digest;
    TopBitsIff(rs[32..]);
    assert rs[32..][31] == rs[63];
  }

  /**
   One signature accepted for two messages: both challenges give points with the same
   encoding; under an honest key, the challenges differ by a number that sends the key
   to the neutral element.
   */
  lemma TwoMessages<P(!new)>(c: Curve<P>, f: Compression, m: seq<byte>, m': seq<byte>, pk: seq<byte>, rs: seq<byte>)
    requires IsCurve(c) && |rs| == 64 && Accepts(c, f, m, pk, rs) && Accepts(c, f, m', pk, rs)
    ensures c.unpackNegative(pk).Some?
    ensures var neg, h, h' := c.unpackNegative(pk).value, LE(Digest(f, rs[..32] + pk + m)) % L, LE(Digest(f, rs[..32] + pk + m')) % L;
            var sb := Times(c.g, LE(rs[32..]) % L, c.base);
            && c.pack(c.g.add(Times(c.g, h, neg), sb)) == c.pack(c.g.add(Times(c.g, h', neg), sb))
            && forall sk :: pk == PublicKeyOf(c, f, sk) ==> Times(c.g, h - h', neg) == c.g.zero
  {
    hide Times, Digest, LE, And, BaseTable, OddMultiples, IsAbelian, SecretScalar;
    AcceptsIff(c, f, m, pk, rs);
    AcceptsIff(c, f, m', pk, rs);
    hide Accepts;
    var neg, h, h' := c.unpackNegative(pk).value, LE(Digest(f, rs[..32] + pk + m)) % L, LE(Digest(f, rs[..32] + pk + m')) % L;
    forall sk | pk == PublicKeyOf(c, f, sk) ensures Times(c.g, h - h', neg) == c.g.zero {
      assert DecodesNegative(c, SecretScalar(f, sk));
      SamePoint(c, SecretScalar(f, sk), h, h', LE(rs[32..]) % L);
    }
  }

  /** Encodings tell multiples of the base point apart. */
  lemma SamePoint<P(!new)>(c: Curve<P>, a: nat, h: nat, h': nat, s: nat)
    requires IsCurve(c)
    requires var neg := c.g.neg(Times(c.g, a, c.base));
             c.pack(c.g.add(Times(c.g, h, neg), Times(c.g, s, c.base))) == c.pack(c.g.add(Times(c.g, h', neg), Times(c.g, s, c.base)))
    ensures Times(c.g, h - h', c.g.neg(Times(c.g, a, c.base))) == c.g.zero
  {
    hide Times, BaseTable, OddMultiples, IsAbelian;
    var neg, sb := c.g.neg(Times(c.g, a, c.base)), Times(c.g, s, c.base);
    var n, n' := (s - h * a) % L, (s - h' * a) % L;
    CheckedPoint(c, a, h, s);
    CheckedPoint(c, a, h', s);
    assert DecodesNegative(c, n) && DecodesNegative(c, n');
    var x, x' := Times(c.g, h, neg), Times(c.g, h', neg);
    NegInjective(c.g, c.g.add(x, sb), c.g.add(x', sb));
    Cancel(c.g, x, sb);
    Cancel(c.g, x', sb);
    TimesAdd(c.g, h - h', h', neg);
    Cancel(c.g, Times(c.g, h - h', neg), x');
    Inverse(c.g, x');
  }

  /** h·(-aB) + s·B is a multiple of the base point. */
  lemma CheckedPoint<P(!new)>(c: Curve<P>, a: nat, h: nat, s: nat)
    requires IsAbelian(c.g) && Times(c.g, L, c.base) == c.g.zero
    ensures c.g.add(Times(c.g, h, c.g.neg(Times(c.g, a, c.base))), Times(c.g, s, c.base)) == Times(c.g, (s - h * a) % L, c.base)
  {
    hide Times;
    TimesOfNeg(c.g, h, Times(c.g, a, c.base));
    TimesTimes(c.g, h, a, c.base);
    TimesNeg(c.g, h * a, c.base);
    TimesAdd(c.g, 0 - h * a, s, c.base);
    TimesMod(c.g, s - h * a, L, c.base);
  }

  lemma NegInjective<P(!new)>(g: Group<P>, x: P, y: P)
    requires IsAbelian(g) && g.neg(x) == g.neg(y)
    ensures x == y
  {
    Inverse(g, x);
    Inverse(g, y);
    Cancel(g, x, g.neg(y));
    Cancel(g, y, g.neg(y));
  }

  lemma ScalarBytes(s: nat)
    requires s < L
    ensures LE(ToLE(s, 32)) == s && And(ToLE(s, 32)[31], 224) == 0
  {
    hide And, LE, ToLE, Pow2;
    Pow248();
    Pow2Add(248, 8);
    Pow2Values();
    ToLEValue(s, 32);
    SmallTopByte(ToLE(s, 32));
  }

  // ---- the operations ----

  /** Lines 26-32. */
  method ExtSk(f: Compression, sk: seq<byte>) returns (extsk: seq<byte>)
    ensures extsk == ExpandedKey(f, sk)
    ensures LE(extsk[..32]) % 8 == 0 && Pow2(254) <= LE(extsk[..32]) < Pow2(255) && extsk[32..] == Digest(f, sk)[32..]
  {
    hide Digest, Clamp, LE, Pow2;
    var h := Hash(f, sk);
    extsk := Clamp(h);
    ClampIs(h);
  }

  /** Two pieces, hashed in turn. */
  method HashTwo(f: Compression, a: seq<byte>, b: seq<byte>) returns (h: seq<byte>)
    ensures h == Digest(f, a + b)
  {
    hide Digest, Fold, Counts;
    var ctx := new Context(f);
    ctx.Update(a);
    ctx.Update(b);
    assert [] + a + b == a + b;
    h := ctx.Final();
  }

  /** Lines 34-42. */
  method Hram(f: Compression, r: seq<byte>, pk: seq<byte>, m: seq<byte>) returns (h: seq<byte>)
    ensures h == Digest(f, r + pk + m)
  {
    hide Digest, Fold, Counts;
    var ctx := new Context(f);
    ctx.Update(r);
    assert ctx.Message == r;
    ctx.Update(pk);
    ctx.Update(m);
    h := ctx.Final();
  }

  lemma BelowTwo255(v: nat)
    requires v < L
    ensures v < TWO255
  {
  }

  lemma ReducedProduct(x: nat, y: nat)
    requires x < L && y < L
    ensures x * y < TWO512
  {
    MulStrict(x, L, L);
    if x != 0 {
      MulStrict(y, L, x);
    }
  }

  lemma CurveHasTable<P(!new)>(c: Curve<P>)
    requires IsCurve(c)
    ensures IsAbelian(c.g) && BaseTable(c.g, c.base, c.baseTable)
  {
  }

  /** The public key in the terms of RFC 8032 section 5.1.5. */
  lemma PublicKeyIs<P(!new)>(c: Curve<P>, f: Compression, sk: seq<byte>)
    requires IsCurve(c)
    ensures PublicKeyOf(c, f, sk) == c.pack(Times(c.g, Pow2(254) + LE(Digest(f, sk)[..32]) % Pow2(254) / 8 * 8, c.base))
  {
    hide Times, Digest, LE, Clamp, BaseTable, OddMultiples, IsAbelian, Pow2;
    ClampIs(Digest(f, sk));
    TimesMod(c.g, LE(Clamp(Digest(f, sk))[..32]), L, c.base);
  }

  /** The signature in the terms of RFC 8032 section 5.1.6. */
  lemma SignatureIs<P(!new)>(c: Curve<P>, f: Compression, m: seq<byte>, sk: seq<byte>, pk: seq<byte>)
    requires IsCurve(c)
    ensures var rs := SignatureOf(c, f, m, sk, pk);
            var h := Digest(f, sk);
            var a, r := Pow2(254) + LE(h[..32]) % Pow2(254) / 8 * 8, LE(Digest(f, h[32..] + m)) % L;
            && |rs| == 64
            && rs[..32] == c.pack(Times(c.g, r, c.base))
            && LE(rs[32..]) == (LE(Digest(f, rs[..32] + pk + m)) * a + r) % L
  {
    hide Times, Digest, LE, ToLE, Clamp, BaseTable, OddMultiples, IsAbelian, Pow2;
    var h := Digest(f, sk);
    ClampIs(h);
    var r := LE(Digest(f, h[32..] + m)) % L;
    var R := c.pack(Times(c.g, r, c.base));
    var rs := SignatureOf(c, f, m, sk, pk);
    var x, a := LE(Digest(f, R + pk + m)), LE(Clamp(h)[..32]);
    var s := Response(x % L, a % L, r);
    ScalarBytes(s);
    assert rs == R + ToLE(s, 32) && rs[..32] == R && rs[32..] == ToLE(s, 32);
    ProductOfResidues(x, a, r, L);
  }

  lemma ProductOfResidues(x: nat, a: nat, r: nat, m: nat)
    requires m >= 1
    ensures ((x % m) * (a % m) + r) % m == (x * a + r) % m
  {
    var k := SplitProduct(x / m, x % m, a / m, a % m, m);
    assert x == x / m * m + x % m && a == a / m * m + a % m;
    SameModulo(x * a + r, (x % m) * (a % m) + r, k, m);
  }

  lemma SplitProduct(i: nat, u: nat, j: nat, v: nat, m: nat) returns (k: nat)
    ensures (i * m + u) * (j * m + v) == k * m + u * v
  {
    var a := j * m + v;
    Distribute(i * m, u, a);
    Reassociate(i, m, a);
    Distribute(j * m, v, u);
    Reassociate(u, j, m);
    Distribute(i * a, u * j, m);
    k := i * a + u * j;
  }

  lemma SameModulo(y: nat, z: nat, k: nat, m: nat)
    requires m >= 1 && y == k * m + z
    ensures y % m == z % m
  {
    var q, w := z / m, z % m;
    Distribute(k, q, m);
    ModUnique(y, m, k + q, w);
  }

  method PublicKey<P(!new)>(c: Curve<P>, f: Compression, sk: seq<byte>) returns (pk: seq<byte>)
    requires IsCurve(c)
    ensures pk == PublicKeyOf(c, f, sk)
    ensures pk == c.pack(Times(c.g, Pow2(254) + LE(Digest(f, sk)[..32]) % Pow2(254) / 8 * 8, c.base))
  {
    PublicKeyIs(c, f, sk);
    hide Times, Digest, LE, Clamp, IsCurve, IsAbelian, BaseTable, Val, Normal;
    CurveHasTable(c);
    var extsk := ExtSk(f, sk);
    var a := Expand256(extsk[..32]);
    BelowTwo255(Val(a));
    var A := ScalarMultBaseNiels(c.g, c.base, c.baseTable, a);
    pk := c.pack(A.value);
  }

  /** Lines 58-91. */
  method SignBytes<P(!new)>(c: Curve<P>, f: Compression, m: seq<byte>, sk: seq<byte>, pk: seq<byte>) returns (rs: seq<byte>)
    requires IsCurve(c)
    ensures rs == SignatureOf(c, f, m, sk, pk)
  {
    hide Times, Digest, LE, Clamp, IsCurve, IsAbelian, BaseTable, Val, Normal, ToLE, Response;
    CurveHasTable(c);
    var extsk := ExtSk(f, sk);
    var hashr := HashTwo(f, extsk[32..], m);
    var r := Expand256(hashr);
    BelowTwo255(Val(r));
    var R := ScalarMultBaseNiels(c.g, c.base, c.baseTable, r);
    var packed := c.pack(R.value);
    var hram := Hram(f, packed, pk, m);
    var s := Expand256(hram);
    var a := Expand256(extsk[..32]);
    var bytes := SignScalar(s, a, r);
    rs := packed + bytes;
  }

  method Sign<P(!new)>(c: Curve<P>, f: Compression, m: seq<byte>, sk: seq<byte>, pk: seq<byte>) returns (rs: seq<byte>)
    requires IsCurve(c)
    ensures rs == SignatureOf(c, f, m, sk, pk)
    ensures |rs| == 64
    ensures var h := Digest(f, sk);
            var a, r := Pow2(254) + LE(h[..32]) % Pow2(254) / 8 * 8, LE(Digest(f, h[32..] + m)) % L;
            && rs[..32] == c.pack(Times(c.g, r, c.base))
            && LE(rs[32..]) == (LE(Digest(f, rs[..32] + pk + m)) * a + r) % L
  {
    hide *;
    rs := SignBytes(c, f, m, sk, pk);
    SignatureIs(c, f, m, sk, pk);
  }

  /** Lines 84-90: (h a + r) mod L in 32 bytes. */
  method SignScalar(h: Bignum, a: Bignum, r: Bignum) returns (bytes: seq<byte>)
    requires Normal(h) && Val(h) < L && Normal(a) && Val(a) < L && Normal(r) && Val(r) < L
    ensures bytes == ToLE(Response(Val(h), Val(a), Val(r)), 32)
  {
    hide Val, Normal, LE, ToLE;
    ReducedProduct(Val(h), Val(a));
    var s := Mul256(h, a);
    s := Add256(s, r);
    SumOfResidues(Val(h) * Val(a), Val(r));
    bytes := Contract256(s);
    ModUnique(Val(s), TWO256, 0, Val(s));
    ToLEUnique(bytes);
  }

  lemma SumOfResidues(x: int, r: int)
    ensures (x % L + r) % L == (x + r) % L
  {
    var q, y := x / L, x % L;
    assert x == q * L + y;
    var k, z := (y + r) / L, (y + r) % L;
    assert y + r == k * L + z;
    ModUnique(x + r, L, q + k, z);
  }

  /** Compares all bytes, and answers 1 when none differs. */
  method Verify(x: seq<byte>, y: seq<byte>) returns (same: nat)
    requires |x| == |y|
    ensures same == if x == y then 1 else 0
  {
    hide Or, Xor;
    var differentbits: nat := 0;
    var i: nat := 0;
    assert Pow2(8) == 0x100;
    while i < |x|
      invariant i <= |x| && differentbits < 0x100
      invariant differentbits == 0 <==> x[..i] == y[..i]
    {
      XorBound(x[i], y[i], 8);
      XorZero(x[i], y[i]);
      OrBound(differentbits, Xor(x[i], y[i]), 8);
      OrZero(differentbits, Xor(x[i], y[i]));
      differentbits := Or(differentbits, Xor(x[i], y[i]));
      assert x[..i + 1] == x[..i] + [x[i]] && y[..i + 1] == y[..i] + [y[i]];
      i := i + 1;
    }
    assert x[..i] == x && y[..i] == y;
    NoBitsDiffer(differentbits);
    same := Wrap64(differentbits - 1) / 0x100 % 2;
  }

  lemma NoBitsDiffer(d: nat)
    requires d < 0x100
    ensures Wrap64(d - 1) / 0x100 % 2 == if d == 0 then 1 else 0
  {
    if d == 0 {
      ModUnique(-1, W64, -1, W64 - 1);
    } else {
      ModUnique(d - 1, W64, 0, d - 1);
    }
  }

  method SignOpen<P(!new)>(c: Curve<P>, f: Compression, m: seq<byte>, pk: seq<byte>, rs: seq<byte>) returns (ret: int)
    requires IsCurve(c) && |rs| == 64
    ensures ret == if Accepts(c, f, m, pk, rs) then 0 else -1
    ensures ret == 0 <==>
              && LE(rs[32..]) < Pow2(253)
              && c.unpackNegative(pk).Some?
              && c.pack(c.g.add(Times(c.g, LE(Digest(f, rs[..32] + pk + m)) % L, c.unpackNegative(pk).value),
                                Times(c.g, LE(rs[32..]) % L, c.base))) == rs[..32]
  {
    AcceptsIff(c, f, m, pk, rs);
    hide Pow2;
    hide Times, Digest, LE, BaseTable, OddMultiples, Val, Normal, And;
    var a := c.unpackNegative(pk);
    if And(rs[63], 224) != 0 || a.None? {
      return -1;
    }
    var hash := Hram(f, rs[..32], pk, m);
    var hram := Expand256(hash);
    var s := Expand256(rs[32..]);
    BelowTwo255(Val(hram));
    BelowTwo255(Val(s));
    var R := DoubleScalarMultVartime(c.g, ScalarMult.Extended(a.value, true), hram, s, c.base, c.sliding);
    var checkR := c.pack(R.value);
    var same := Verify(rs[..32], checkR);
    ret := if same != 0 then 0 else -1;
  }
}
