/**
 Entries of the table of base point multiples, as bytes and coordinates: how one is
 selected and negated without branching, and what becomes of the entries of the first
 row, whose third coordinate is 2xy and not 2dxy.

 Line numbers are those of src/ed25519-donna/ed25519-donna-impl-base.h.
 */
module BaseNiels {
  import opened Bits
  import opened Bytes
  import opened Field
  import opened FieldMul
  import opened FieldBytes
  import opened Points
  import opened PointLaws
  import ScalarMult

  // ---- selection by masks ----

  /** `(x & nb) | (y & b)` with nb == flag - 1 and b == ~nb, in 64 bits. */
  function Select(x: nat, y: nat, flag: nat): nat {
    var nb := Wrap64(flag - 1);
    Or(And(x, nb), And(y, W64 - 1 - nb))
  }

  lemma SelectIs(x: nat, y: nat, flag: nat)
    requires x < W64 && y < W64 && flag <= 1
    ensures Select(x, y, flag) == if flag == 1 then y else x
  {
    hide And, Pow2;
    Pow2Values();
    if flag == 1 {
      ModUnique(0, W64, 0, 0);
      AndMask(y, 64);
      ModUnique(y, W64, 0, y);
      AndWithZero(x);
    } else {
      ModUnique(-1, W64, -1, W64 - 1);
      AndMask(x, 64);
      ModUnique(x, W64, 0, x);
      AndWithZero(y);
    }
  }

  lemma AndWithZero(x: nat)
    ensures And(x, 0) == 0
  {
  }

  /** A word written back as bytes. */
  lemma WordBytes(b: seq<byte>, o: nat)
    requires o + 8 <= |b|
    ensures Load64(b, o) < W64 && Store64(Load64(b, o)) == b[o..o + 8]
  {
    hide Load64, Store64, LE, ToLE;
    Load64Is(b, o);
    Store64Is(Load64(b, o));
    ToLEUnique(Store64(Load64(b, o)));
    ToLEUnique(b[o..o + 8]);
  }

  /** Twelve words, each kept or overwritten: all of one entry or all of the other. */
  method MoveConditionalBytes(out: seq<byte>, inp: seq<byte>, flag: nat) returns (r: seq<byte>)
    requires |out| == 96 && |inp| == 96 && flag <= 1
    ensures r == if flag == 1 then inp else out
  {
    hide Load64, Store64, Select;
    ghost var whole := if flag == 1 then inp else out;
    r := [];
    var i: nat := 0;
    while i < 12
      invariant i <= 12 && r == whole[..8 * i]
    {
      WordBytes(out, 8 * i);
      WordBytes(inp, 8 * i);
      SelectIs(Load64(out, 8 * i), Load64(inp, 8 * i), flag);
      r := r + Store64(Select(Load64(out, 8 * i), Load64(inp, 8 * i), flag));
      assert whole[..8 * i] + whole[8 * i..8 * i + 8] == whole[..8 * (i + 1)];
      i := i + 1;
    }
    assert whole[..96] == whole;
  }

  /** `x = swap & (a ^ b); a ^= x; b ^= x` on one limb. */
  lemma SwapLimb(a: nat, b: nat, iswap: nat)
    requires a < W64 && b < W64 && iswap <= 1
    ensures var x := And(Wrap64(0 - iswap), Xor(a, b));
            Xor(a, x) == (if iswap == 1 then b else a) && Xor(b, x) == if iswap == 1 then a else b
  {
    hide And, Xor, Pow2;
    Pow2Values();
    if iswap == 1 {
      ModUnique(-1, W64, -1, W64 - 1);
      XorBound(a, b, 64);
      AndOnes(Xor(a, b), 64);
      XorCancel(a, b);
      XorCommutes(a, b);
      XorCancel(b, a);
    } else {
      ModUnique(0, W64, 0, 0);
      ZeroMask(Xor(a, b));
      ScalarMult.XorWithZero(a);
      ScalarMult.XorWithZero(b);
    }
  }

  lemma ZeroMask(x: nat)
    ensures And(0, x) == 0
  {
  }

  method SwapConditional(a: Fe, b: Fe, iswap: nat) returns (c: Fe, d: Fe)
    requires Below(a, W64) && Below(b, W64) && iswap <= 1
    ensures c == (if iswap == 1 then b else a) && d == if iswap == 1 then a else b
  {
    hide And, Xor, Wrap64;
    var swap := Wrap64(0 - iswap);
    SwapLimb(a[0], b[0], iswap);
    SwapLimb(a[1], b[1], iswap);
    SwapLimb(a[2], b[2], iswap);
    SwapLimb(a[3], b[3], iswap);
    SwapLimb(a[4], b[4], iswap);
    var x0, x1, x2, x3, x4 := And(swap, Xor(a[0], b[0])), And(swap, Xor(a[1], b[1])), And(swap, Xor(a[2], b[2])),
                              And(swap, Xor(a[3], b[3])), And(swap, Xor(a[4], b[4]));
    c := [Xor(a[0], x0), Xor(a[1], x1), Xor(a[2], x2), Xor(a[3], x3), Xor(a[4], x4)];
    d := [Xor(b[0], x0), Xor(b[1], x1), Xor(b[2], x2), Xor(b[3], x3), Xor(b[4], x4)];
  }

  // ---- entries ----

  /** q caches the sums of c and k times its T. */
  ghost predicate CachesTimes(q: Niels, c: Coords, k: int) {
    Cong(Value(q.ysubx), c.y - c.x) && Cong(Value(q.xaddy), c.y + c.x) && c.z == 1 && Cong(Value(q.t2d), k * c.t)
  }

  /** The bounds of a selected entry. */
  predicate Selected(q: Niels) {
    Below(q.ysubx, R) && Below(q.xaddy, R) && Below(q.t2d, TIGHT)
  }

  /** 96 bytes that hold such an entry. */
  ghost predicate Packs(e: seq<byte>, c: Coords, k: int) {
    |e| == 96 && Cong(LE(e[..32]) % TWO255, c.y - c.x) && Cong(LE(e[32..64]) % TWO255, c.y + c.x) && c.z == 1
    && Cong(LE(e[64..]) % TWO255, k * c.t)
  }

  /** Lines 246-248: the entry of the neutral element. */
  function NeutralEntry(): (e: seq<byte>)
    ensures |e| == 96
  {
    [1] + Zeros(31) + [1] + Zeros(31) + Zeros(32)
  }

  function Entry(table: seq<seq<byte>>, pos: nat, u: nat): seq<byte>
    requires |table| == 256 && pos < 32 && u <= 8
  {
    if u == 0 then NeutralEntry() else table[pos * 8 + (u - 1)]
  }

  lemma NeutralPacks(k: int)
    ensures Packs(NeutralEntry(), Coords(0, 1, 1, 0), k)
  {
    hide Zeros;
    var e := NeutralEntry();
    assert e[..32] == [1] + Zeros(31) && e[32..64] == [1] + Zeros(31) && e[64..] == Zeros(32);
    OneBytes();
    ZerosAreZero(32);
    ModUnique(1, TWO255, 0, 1);
    ModUnique(0, TWO255, 0, 0);
    CongRefl(1);
    CongRefl(0);
  }

  lemma OneBytes()
    ensures LE([1] + Zeros(31)) == 1
  {
    ZerosAbove([1], 31);
    assert [1][1..] == [];
    assert LE([1]) == 1 + 0x100 * LE([1][1..]);
  }

  /** The bytes of an entry, expanded. */
  method ExpandEntry(e: seq<byte>, ghost c: Coords, ghost k: int) returns (t: Niels)
    requires Packs(e, c, k)
    ensures Below(t.ysubx, R) && Below(t.xaddy, R) && Below(t.t2d, R) && CachesTimes(t, c, k)
  {
    hide Value, Cong, LE;
    var ysubx := Expand(e[..32]);
    var xaddy := Expand(e[32..64]);
    var t2d := Expand(e[64..]);
    t := Niels(ysubx, xaddy, t2d);
  }

  /** Lines 254-256: the sums change places and the third coordinate its sign, if the bit is set. */
  method NegateConditional(q: Niels, sign: nat, ghost c: Coords, ghost k: int) returns (t: Niels)
    requires sign <= 1 && Below(q.ysubx, R) && Below(q.xaddy, R) && Below(q.t2d, R) && CachesTimes(q, c, k)
    ensures Selected(t) && CachesTimes(t, Signed(c, sign == 1), k)
  {
    hide Value, Cong;
    var ysubx, xaddy := SwapConditional(q.ysubx, q.xaddy, sign);
    var neg := Neg(q.t2d);
    var t2d, rest := SwapConditional(q.t2d, neg, sign);
    t := Niels(ysubx, xaddy, t2d);
    CongRefl(0);
    ThenSub(Value(neg), 0, 0, Value(q.t2d), k * c.t);
    MulDifference(0, c.t, k);
  }

  /** Lines 239-257: the entry for |b| in row pos, negated for negative b. */
  method ChooseEntry(table: seq<seq<byte>>, pos: nat, b: int, ghost c: Coords, ghost k: int) returns (t: Niels)
    requires |table| == 256 && (forall i :: 0 <= i < 256 ==> |table[i]| == 96) && pos < 32 && -8 <= b <= 8
    requires Packs(Entry(table, pos, ScalarMult.Abs(b)), c, k)
    ensures Selected(t) && CachesTimes(t, Signed(c, b < 0), k)
  {
    hide Cong, Value, LE, ScalarMult.WindowbEqual, NeutralEntry, Packs;
    ScalarMult.WindowAbsIs(b);
    var sign := ScalarMult.SignBit(b);
    var u := ScalarMult.WindowAbs(b);
    var packed := NeutralEntry();
    var i: nat := 0;
    while i < 8
      invariant i <= 8 && packed == if 1 <= u <= i then table[pos * 8 + (u - 1)] else NeutralEntry()
    {
      ScalarMult.WindowbEqualIs(u, i + 1);
      packed := MoveConditionalBytes(packed, table[pos * 8 + i], ScalarMult.WindowbEqual(u, i + 1));
      i := i + 1;
    }
    var q := ExpandEntry(packed, c, k);
    t := NegateConditional(q, sign, c, k);
  }

  // ---- the first row ----

  /** Lines 266-270: from an entry with 2xy, the point itself with Z == 2. */
  method StartPoint(t: Niels, ghost c: Coords) returns (r: Extended)
    requires Selected(t) && CachesTimes(t, c, 2) && Cong(c.t, c.x * c.y)
    ensures Tight(r) && Value(r.z) == 2 && Affine(Of(r), c.x, c.y)
  {
    hide Value, Cong;
    var x := SubReduce(t.xaddy, t.ysubx);
    var y := AddReduce(t.xaddy, t.ysubx);
    ThenSub(Value(x), Value(t.xaddy), c.y + c.x, Value(t.ysubx), c.y - c.x);
    ThenAdd(Value(y), Value(t.xaddy), c.y + c.x, Value(t.ysubx), c.y - c.x);
    var z: Fe := [2, 0, 0, 0, 0];
    TwoIs();
    CongRefl(2);
    ThenMul(Value(t.t2d), 2, 2, c.t, c.x * c.y);
    r := Extended(x, y, z, t.t2d);
  }

  lemma TwoIs()
    ensures Value([2, 0, 0, 0, 0]) == 2
  {
  }

  /** Line 280: the third coordinate times d is the one the additions expect. */
  method ScaleByD(t: Niels, ghost c: Coords) returns (r: Niels)
    requires Selected(t) && CachesTimes(t, c, 2)
    ensures Selected(r) && LooseNiels(r) && CachesAffine(r, c)
  {
    hide Value, Cong, D;
    CurveConstants();
    CongRefl(D());
    var t2d := Mul(t.t2d, ECD);
    ThenMul(Value(t2d), Value(t.t2d), 2 * c.t, Value(ECD), D());
    assert (2 * c.t) * D() == 2 * D() * c.t;
    r := t.(t2d := t2d);
  }
}
