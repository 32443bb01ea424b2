/**
 The streaming interface of SHA-512: buffering, bit counting and padding around a
 compression function, which is a parameter here. The digest is a function of the
 message alone, however it was cut into updates.

 Line numbers are those of src/ed25519-donna/ed25519-hash.h.
 */
module Sha512 {
  import opened Bits
  import opened Bytes

  const BLOCK: nat := 128

  /** The eight chaining words. */
  type Chain = s: seq<nat> | |s| == 8 witness [0, 0, 0, 0, 0, 0, 0, 0]

  type Compression = (Chain, seq<byte>) -> Chain

  const INITIAL: Chain := [0x6a09_e667_f3bc_c908, 0xbb67_ae85_84ca_a73b, 0x3c6e_f372_fe94_f82b, 0xa54f_f53a_5f1d_36f1,
                           0x510e_527f_ade6_82d1, 0x9b05_688c_2b3e_6c1f, 0x1f83_d9ab_fb41_bd6b, 0x5be0_cd19_137e_2179]

  // ---- the specification: FIPS 180-4 sections 5.1.2 and 6.4.2 ----

  /** The compression function folded over the blocks of a message. */
  function Fold(f: Compression, h: Chain, m: seq<byte>): Chain
    requires |m| % BLOCK == 0
  {
    BlockLengths(0, |m|);
    if m == [] then h
    else f(Fold(f, h, m[..|m| - BLOCK]), m[|m| - BLOCK..])
  }

  /** A 64-bit word, highest byte first. */
  function BE64(v: nat): (b: seq<byte>)
    ensures |b| == 8
  {
    [v / 0x100_0000_0000_0000 % 0x100, v / 0x1_0000_0000_0000 % 0x100, v / 0x100_0000_0000 % 0x100,
     v / 0x1_0000_0000 % 0x100, v / 0x100_0000 % 0x100, v / 0x1_0000 % 0x100, v / 0x100 % 0x100, v % 0x100]
  }

  /** The bit length as a 128-bit number. */
  function LengthField(bytes: nat): (b: seq<byte>)
    ensures |b| == 16
  {
    BE64(8 * bytes / W64 % W64) + BE64(8 * bytes % W64)
  }

  /** A one bit, the fewest zeros that leave room for the length, and the length. */
  function Pad(m: seq<byte>): (p: seq<byte>)
    ensures |p| % BLOCK == 0
  {
    PadLength(|m|);
    m + [0x80] + Zeros((111 - |m|) % BLOCK) + LengthField(|m|)
  }

  lemma PadLength(n: nat)
    ensures (n + 17 + (111 - n) % BLOCK) % BLOCK == 0
  {
    var q, z := (111 - n) / BLOCK, (111 - n) % BLOCK;
    assert 111 - n == q * BLOCK + z;
    ModUnique(n + 17 + z, BLOCK, 1 - q, 0);
  }

  /** Lengths in whole blocks. */
  lemma BlockLengths(m: nat, n: nat)
    requires m % BLOCK == 0 && n % BLOCK == 0
    ensures (m + n) % BLOCK == 0
    ensures n != 0 ==> n >= BLOCK && (n - BLOCK) % BLOCK == 0
  {
    var a, b := m / BLOCK, n / BLOCK;
    assert m == a * BLOCK && n == b * BLOCK;
    ModUnique(m + n, BLOCK, a + b, 0);
    if n != 0 {
      ModUnique(n - BLOCK, BLOCK, b - 1, 0);
    }
  }

  function Output(h: Chain): (b: seq<byte>)
    ensures |b| == 64
  {
    BE64(h[0]) + BE64(h[1]) + BE64(h[2]) + BE64(h[3]) + BE64(h[4]) + BE64(h[5]) + BE64(h[6]) + BE64(h[7])
  }

  function Digest(f: Compression, m: seq<byte>): (b: seq<byte>)
    ensures |b| == 64
  {
    Output(Fold(f, INITIAL, Pad(m)))
  }

  lemma {:induction false} FoldConcat(f: Compression, h: Chain, m: seq<byte>, n: seq<byte>)
    requires |m| % BLOCK == 0 && |n| % BLOCK == 0
    ensures |m + n| % BLOCK == 0 && Fold(f, h, m + n) == Fold(f, Fold(f, h, m), n)
    decreases |n|
  {
    hide Fold;
    BlockLengths(|m|, |n|);
    if n == [] {
      assert m + n == m;
      FoldStep(f, Fold(f, h, m), n);
    } else {
      var k := |n| - BLOCK;
      FoldConcat(f, h, m, n[..k]);
      FoldStep(f, h, m + n);
      FoldStep(f, Fold(f, h, m), n);
      assert (m + n)[..|m + n| - BLOCK] == m + n[..k] && (m + n)[|m + n| - BLOCK..] == n[k..];
    }
  }

  lemma FoldStep(f: Compression, h: Chain, m: seq<byte>)
    requires |m| % BLOCK == 0
    ensures m == [] ==> Fold(f, h, m) == h
    ensures m != [] ==> |m| >= BLOCK && (|m| - BLOCK) % BLOCK == 0
                        && Fold(f, h, m) == f(Fold(f, h, m[..|m| - BLOCK]), m[|m| - BLOCK..])
  {
    BlockLengths(0, |m|);
  }

  lemma FoldOne(f: Compression, h: Chain, b: seq<byte>)
    requires |b| == BLOCK
    ensures Fold(f, h, b) == f(h, b)
  {
    assert b[..0] == [] && b[0..] == b;
    assert Fold(f, h, b[..0]) == h;
  }

  // ---- the same, read off the bytes ----

  /** The bytes as a number, highest first. */
  function BigEndian(b: seq<byte>): nat {
    if b == [] then 0 else 0x100 * BigEndian(b[..|b| - 1]) + b[|b| - 1]
  }

  /** The message, a one bit, fewer than 128 zero bytes, and the count of bits in the last 16 bytes. */
  ghost predicate IsPadded(m: seq<byte>, p: seq<byte>) {
    && |p| % 128 == 0 && |m| + 17 <= |p| < |m| + 17 + 128
    && p[..|m|] == m && p[|m|] == 0x80
    && (forall i :: |m| < i < |p| - 16 ==> p[i] == 0)
    && BigEndian(p[|p| - 16..]) == 8 * |m| % 0x1_0000_0000_0000_0000_0000_0000_0000_0000
  }

  /** The chaining values before, between and after the blocks of p. */
  ghost predicate IsRun(f: Compression, p: seq<byte>, h: seq<Chain>) {
    && |p| == 128 * (|h| - 1) && h[0] == INITIAL
    && forall i :: 0 <= i < |h| - 1 ==> h[i + 1] == f(h[i], p[128 * i..128 * i + 128])
  }

  /** Eight words, highest byte first. */
  ghost predicate IsWords(b: seq<byte>, h: Chain) {
    |b| == 64 && forall i :: 0 <= i < 8 ==> BigEndian(b[8 * i..8 * i + 8]) == h[i] % 0x1_0000_0000_0000_0000
  }

  /** b is the digest of m: the words after the last block of the padded message. */
  ghost predicate IsDigest(f: Compression, m: seq<byte>, b: seq<byte>) {
    exists p, h :: IsPadded(m, p) && IsRun(f, p, h) && IsWords(b, h[|h| - 1])
  }

  lemma DigestIs(f: Compression, m: seq<byte>)
    ensures IsDigest(f, m, Digest(f, m))
  {
    hide Fold, Pad, Output, IsPadded, IsRun, IsWords;
    PadIs(m);
    var h := RunOf(f, Pad(m));
    OutputIs(h[|h| - 1]);
  }

  lemma PadIs(m: seq<byte>)
    ensures IsPadded(m, Pad(m))
  {
    hide LengthField, BigEndian;
    PadLength(|m|);
    var p := Pad(m);
    assert p[|p| - 16..] == LengthField(|m|);
    LengthIs(|m|);
  }

  lemma LengthIs(bytes: nat)
    ensures BigEndian(LengthField(bytes)) == 8 * bytes % 0x1_0000_0000_0000_0000_0000_0000_0000_0000
  {
    hide BigEndian, BE64;
    var hi, lo := 8 * bytes / W64 % W64, 8 * bytes % W64;
    BigEndianConcat(BE64(hi), BE64(lo));
    WordIs(hi);
    WordIs(lo);
    Pow2Values();
    var q := 8 * bytes / W64;
    ModUnique(8 * bytes, 0x1_0000_0000_0000_0000_0000_0000_0000_0000, q / W64, hi * W64 + lo);
    ModUnique(hi, W64, 0, hi);
    ModUnique(lo, W64, 0, lo);
  }

  lemma {:induction false} BigEndianConcat(a: seq<byte>, b: seq<byte>)
    ensures BigEndian(a + b) == BigEndian(a) * Pow2(8 * |b|) + BigEndian(b)
  {
    hide BigEndian, Pow2;
    if b == [] {
      assert a + b == a;
      NoBytes();
      Pow2Small();
    } else {
      var c := b[..|b| - 1];
      BigEndianConcat(a, c);
      assert (a + b)[..|a + b| - 1] == a + c && (a + b)[|a + b| - 1] == b[|b| - 1];
      BigEndianStep(a + b);
      BigEndianStep(b);
      assert 8 * |b| == 8 * |c| + 8;
      EightBitsMore(8 * |c|);
      Reassociate(BigEndian(a), 0x100, Pow2(8 * |c|));
    }
  }

  lemma BigEndianStep(b: seq<byte>)
    requires b != []
    ensures BigEndian(b) == 0x100 * BigEndian(b[..|b| - 1]) + b[|b| - 1]
  {
  }

  lemma WordIs(v: nat)
    ensures BigEndian(BE64(v)) == v % W64
  {
    var b := BE64(v);
    var v1 := v / 0x100;
    var v2 := v1 / 0x100;
    var v3 := v2 / 0x100;
    var v4 := v3 / 0x100;
    var v5 := v4 / 0x100;
    var v6 := v5 / 0x100;
    var v7 := v6 / 0x100;
    BytesOf(v, v1, v2, v3, v4, v5, v6, v7);
    hide BE64;
    assert b[..0] == [];
    NoBytes();
    hide BigEndian;
    assert v7 / 0x100 % 1 == 0;
    NextByte(b, 0, v7, 1);
    NextByte(b, 1, v6, 0x100);
    NextByte(b, 2, v5, 0x1_0000);
    NextByte(b, 3, v4, 0x100_0000);
    LastBytes(b, v);
  }

  lemma LastBytes(b: seq<byte>, v: nat)
    requires |b| == 8 && BigEndian(b[..4]) == v / 0x100 / 0x100 / 0x100 / 0x100 % 0x1_0000_0000
    requires b[4] == v / 0x100 / 0x100 / 0x100 % 0x100 && b[5] == v / 0x100 / 0x100 % 0x100
    requires b[6] == v / 0x100 % 0x100 && b[7] == v % 0x100
    ensures BigEndian(b) == v % W64
  {
    hide BigEndian;
    NextByte(b, 4, v / 0x100 / 0x100 / 0x100, 0x1_0000_0000);
    NextByte(b, 5, v / 0x100 / 0x100, 0x100_0000_0000);
    NextByte(b, 6, v / 0x100, 0x1_0000_0000_0000);
    NextByte(b, 7, v, 0x100_0000_0000_0000);
    assert b[..8] == b;
  }

  lemma BytesOf(v: nat, v1: nat, v2: nat, v3: nat, v4: nat, v5: nat, v6: nat, v7: nat)
    requires v1 == v / 0x100 && v2 == v1 / 0x100 && v3 == v2 / 0x100 && v4 == v3 / 0x100
    requires v5 == v4 / 0x100 && v6 == v5 / 0x100 && v7 == v6 / 0x100
    ensures BE64(v) == [v7 % 0x100, v6 % 0x100, v5 % 0x100, v4 % 0x100, v3 % 0x100, v2 % 0x100, v1 % 0x100, v % 0x100]
  {
    DivDiv(v, 0x100, 0x100);
    DivDiv(v, 0x1_0000, 0x100);
    DivDiv(v, 0x100_0000, 0x100);
    DivDiv(v, 0x1_0000_0000, 0x100);
    DivDiv(v, 0x100_0000_0000, 0x100);
    DivDiv(v, 0x1_0000_0000_0000, 0x100);
  }

  /** One more byte. */
  lemma NextByte(b: seq<byte>, i: nat, u: nat, m: nat)
    requires i < |b| && m >= 1 && BigEndian(b[..i]) == u / 0x100 % m && b[i] == u % 0x100
    ensures 0x100 * m >= 1 && BigEndian(b[..i + 1]) == u % (0x100 * m)
  {
    assert b[..i + 1][..i] == b[..i];
    var q := u / 0x100;
    var k, r := q / m, q % m;
    assert u == 0x100 * q + u % 0x100 && q == k * m + r;
    Reassociate(k, 0x100, m);
    ModUnique(u, 0x100 * m, k, 0x100 * r + u % 0x100);
  }

  lemma NoBytes()
    ensures BigEndian([]) == 0
  {
  }

  lemma {:induction false} RunOf(f: Compression, p: seq<byte>) returns (h: seq<Chain>)
    requires |p| % BLOCK == 0
    ensures IsRun(f, p, h) && |h| >= 1 && h[|h| - 1] == Fold(f, INITIAL, p)
    decreases |p|
  {
    hide IsRun;
    BlockLengths(0, |p|);
    if p == [] {
      h := [INITIAL];
      NoRun(f);
    } else {
      h := RunOf(f, p[..|p| - BLOCK]);
      OneMoreBlock(f, p, h);
      h := h + [Fold(f, INITIAL, p)];
    }
  }

  lemma NoRun(f: Compression)
    ensures IsRun(f, [], [INITIAL])
  {
  }

  lemma OneMoreBlock(f: Compression, p: seq<byte>, h: seq<Chain>)
    requires |p| >= 128 && IsRun(f, p[..|p| - 128], h)
    ensures |h| >= 1 && IsRun(f, p, h + [f(h[|h| - 1], p[|p| - 128..])])
  {
    var k, n := |p| - 128, |h| - 1;
    var g := h + [f(h[n], p[k..])];
    assert p[..k][..] == p[..k];
    forall i | 0 <= i < |g| - 1 ensures g[i + 1] == f(g[i], p[128 * i..128 * i + 128]) {
      if i < n {
        assert p[128 * i..128 * i + 128] == p[..k][128 * i..128 * i + 128];
      } else {
        assert p[128 * i..128 * i + 128] == p[k..];
      }
    }
  }

  lemma OutputIs(h: Chain)
    ensures IsWords(Output(h), h)
  {
    hide BE64, BigEndian;
    var b := Output(h);
    forall i | 0 <= i < 8 ensures BigEndian(b[8 * i..8 * i + 8]) == h[i] % W64 {
      assert b[8 * i..8 * i + 8] == BE64(h[i]);
      WordIs(h[i]);
    }
  }

  /** The initial words are the first 64 bits of the fractional parts of the roots of the first eight primes. */
  lemma InitialWords()
    ensures forall i :: 0 <= i < 8 ==>
              var prime, whole := [2, 3, 5, 7, 11, 13, 17, 19][i], [1, 1, 2, 2, 3, 3, 4, 4][i];
              var root := whole * W64 + INITIAL[i];
              INITIAL[i] < W64 && root * root <= prime * (W64 * W64) < (root + 1) * (root + 1)
  {
  }

  /** The count of processed bits, in two words. */
  predicate Counts(t0: nat, t1: nat, bytes: nat) {
    t0 < W64 && t1 < W64 && bytes % BLOCK == 0
    && t0 == 8 * bytes % W64 && t1 == 8 * bytes / W64 % W64
  }

  /** Adding a block's bits carries into the high word exactly when the low word returns to zero. */
  lemma CountBlock(t0: nat, t1: nat, bytes: nat)
    requires Counts(t0, t1, bytes)
    ensures var s0 := Wrap64(t0 + 8 * BLOCK);
            Counts(s0, Wrap64(t1 + if s0 == 0 then 1 else 0), bytes + BLOCK)
  {
    var q, blocks := 8 * bytes / W64, bytes / BLOCK;
    assert bytes == blocks * BLOCK;
    ModUnique(bytes + BLOCK, BLOCK, blocks + 1, 0);
    RoomForBlock(t0, blocks - q * 0x40_0000_0000_0000);
    var s0 := Wrap64(t0 + 1024);
    if t0 + 1024 == W64 {
      ModUnique(t0 + 1024, W64, 1, 0);
      ModUnique(8 * (bytes + BLOCK), W64, q + 1, 0);
      WrapNext(q);
    } else {
      ModUnique(t0 + 1024, W64, 0, t0 + 1024);
      ModUnique(8 * (bytes + BLOCK), W64, q, t0 + 1024);
      ModUnique(t1, W64, 0, t1);
    }
  }

  lemma RoomForBlock(t0: nat, c: int)
    requires t0 == 1024 * c && t0 < W64
    ensures t0 + 1024 <= W64
  {
  }

  lemma WrapNext(q: nat)
    ensures Wrap64(q % W64 + 1) == (q + 1) % W64
  {
    var k, r := q / W64, q % W64;
    assert q == k * W64 + r;
    if r + 1 == W64 {
      ModUnique(r + 1, W64, 1, 0);
      ModUnique(q + 1, W64, k + 1, 0);
    } else {
      ModUnique(r + 1, W64, 0, r + 1);
      ModUnique(q + 1, W64, k, r + 1);
    }
  }

  /** What `leftover` bytes of padding input become: one block, or two when the length does not fit. */
  lemma PadSplits(m: seq<byte>, done: nat, leftover: nat)
    requires done <= |m| && leftover == |m| - done < BLOCK && done % BLOCK == 0
    ensures Pad(m) == m[..done] + (m[done..] + [0x80] + Zeros(if leftover <= 111 then 111 - leftover else 239 - leftover)
                                   + LengthField(|m|))
  {
    hide LengthField;
    assert m == m[..done] + m[done..];
    var k := done / BLOCK;
    assert |m| == k * BLOCK + leftover;
    var z := if leftover <= 111 then 111 - leftover else 239 - leftover;
    ModUnique(111 - |m|, BLOCK, if leftover <= 111 then -k else -k - 1, z);
  }

  lemma ZerosSplit(a: nat, b: nat)
    ensures Zeros(a + b) == Zeros(a) + Zeros(b)
  {
  }

  /** The bits of the leftover bytes fit in the low word. */
  lemma FinalCount(t0: nat, t1: nat, done: nat, leftover: nat)
    requires Counts(t0, t1, done) && leftover < BLOCK
    ensures t0 + leftover * 8 < W64
    ensures BE64(t1) + BE64(t0 + leftover * 8) == LengthField(done + leftover)
  {
    hide BE64;
    var q, blocks := 8 * done / W64, done / BLOCK;
    assert done == blocks * BLOCK;
    RoomForBlock(t0, blocks - q * 0x40_0000_0000_0000);
    ModUnique(8 * (done + leftover), W64, q, t0 + leftover * 8);
  }

  lemma WholeBlocks(n: nat, m: nat)
    requires m % BLOCK == 0
    ensures var blocks := n - n % BLOCK;
            0 <= blocks <= n && blocks == blocks / BLOCK * BLOCK && (m + blocks) % BLOCK == 0
  {
    var k := n / BLOCK;
    assert n == k * BLOCK + n % BLOCK;
    ModUnique(k * BLOCK, BLOCK, k, 0);
    ModUnique(m + k * BLOCK, BLOCK, m / BLOCK + k, 0);
  }

  lemma NothingProcessed(f: Compression)
    ensures Fold(f, INITIAL, []) == INITIAL && Counts(0, 0, 0)
  {
  }

  class Context {
    const f: Compression
    var H: Chain
    var T0: nat
    var T1: nat
    var leftover: nat
    const buffer: array<byte>
    ghost var Message: seq<byte>   // everything fed in so far

    /** The buffer holds the end of the message, and the rest is processed. */
    ghost predicate Holding()
      reads this, buffer
    {
      && buffer.Length == BLOCK && leftover <= BLOCK && leftover <= |Message|
      && (|Message| - leftover) % BLOCK == 0
      && buffer[..leftover] == Message[|Message| - leftover..]
      && Processed(Message[..|Message| - leftover])
    }

    /** Between calls the buffer is never full. */
    ghost predicate Valid()
      reads this, buffer
    {
      Holding() && leftover < BLOCK
    }

    /** The chain and the counters after the whole blocks `done`. */
    ghost predicate Processed(done: seq<byte>)
      reads this
      requires |done| % BLOCK == 0
    {
      H == Fold(f, INITIAL, done) && Counts(T0, T1, |done|)
    }

    constructor (f: Compression)
      ensures Valid() && Message == [] && this.f == f && fresh(buffer)
    {
      hide Fold, Counts;
      this.f := f;
      H := INITIAL;
      T0, T1 := 0, 0;
      leftover := 0;
      buffer := new byte[BLOCK];
      Message := [];
      new;
      NothingProcessed(f);
      assert Message[..0] == [] && buffer[..0] == [];
    }

    /** Lines 79-93: the compression of one block after another. */
    method Blocks(inp: seq<byte>, blocks: nat, ghost done: seq<byte>)
      requires |inp| == blocks * BLOCK && |done| % BLOCK == 0 && Processed(done)
      modifies this`H, this`T0, this`T1
      ensures |done + inp| % BLOCK == 0 && Processed(done + inp)
    {
      hide Fold, Counts;
      var i: nat := 0;
      ghost var sofar := done;
      assert done + inp[..0] == done;
      while i < blocks
        invariant i <= blocks && |sofar| % BLOCK == 0 && sofar == done + inp[..i * BLOCK]
        invariant Processed(sofar)
      {
        var block := inp[i * BLOCK..(i + 1) * BLOCK];
        BlockLengths(|sofar|, BLOCK);
        FoldConcat(f, INITIAL, sofar, block);
        FoldOne(f, H, block);
        CountBlock(T0, T1, |sofar|);
        H := f(H, block);
        T0 := Wrap64(T0 + 8 * BLOCK);
        T1 := Wrap64(T1 + if T0 == 0 then 1 else 0);
        sofar := sofar + block;
        assert inp[..i * BLOCK] + block == inp[..(i + 1) * BLOCK];
        i := i + 1;
      }
      assert inp[..blocks * BLOCK] == inp;
    }

    /** memcpy into the buffer. */
    method CopyIn(at: nat, src: seq<byte>)
      requires at + |src| <= buffer.Length
      modifies buffer
      ensures buffer[..] == old(buffer[..at]) + src + old(buffer[at + |src|..])
    {
      forall i | 0 <= i < |src| {
        buffer[at + i] := src[i];
      }
    }
  
    /** Lines 114-115. */
    method TopUp(src: seq<byte>)
      requires Holding() && leftover + |src| <= BLOCK
      modifies this`leftover, this`Message, buffer
      ensures Holding() && Message == old(Message) + src && leftover == old(leftover) + |src|
    {
      hide Fold, Counts;
      CopyIn(leftover, src);
      ghost var done := |Message| - leftover;
      assert (Message + src)[..done] == Message[..done];
      leftover := leftover + |src|;
      Message := Message + src;
      assert buffer[..leftover] == Message[done..];
    }

    /** Lines 123 and 128-129: what is short of a block goes into the buffer. */
    method Stash(rest: seq<byte>)
      requires buffer.Length == BLOCK && |rest| < BLOCK && |Message| % BLOCK == 0 && Processed(Message)
      modifies this`leftover, this`Message, buffer
      ensures Valid() && Message == old(Message) + rest
    {
      hide Fold, Counts;
      leftover := |rest|;
      if leftover != 0 {
        CopyIn(0, rest);
      }
      assert buffer[..leftover] == rest;
      Message := Message + rest;
      assert Message[..|Message| - leftover] == old(Message);
    }

    /** Lines 122-129: whole blocks straight from the input, the remainder into the buffer. */
    method FeedBlocks(inp: seq<byte>)
      requires buffer.Length == BLOCK && |Message| % BLOCK == 0 && Processed(Message)
      modifies this`H, this`T0, this`T1, this`leftover, this`Message, buffer
      ensures Valid() && Message == old(Message) + inp
    {
      hide Fold, Counts;
      var blocks := |inp| - |inp| % BLOCK;
      WholeBlocks(|inp|, |Message|);
      if blocks != 0 {
        Blocks(inp[..blocks], blocks / BLOCK, Message);
      } else {
        assert Message + inp[..blocks] == Message;
      }
      Message := Message + inp[..blocks];
      Stash(inp[blocks..]);
      assert inp == inp[..blocks] + inp[blocks..];
    }

    /** Lines 108-130: the message grows by the input, however it is cut. */
    method Update(inp: seq<byte>)
      requires Valid()
      modifies this`H, this`T0, this`T1, this`leftover, this`Message, buffer
      ensures Valid() && Message == old(Message) + inp
    {
      hide Fold, Counts;
      var rest := inp;
      if leftover != 0 {
        var want := Min(BLOCK - leftover, |inp|);
        TopUp(inp[..want]);
        if leftover < BLOCK {
          assert inp[..want] == inp;
          return;
        }
        rest := inp[want..];
        assert inp == inp[..want] + rest;
        ghost var done := Message[..|Message| - BLOCK];
        assert Message == done + buffer[..];
        Blocks(buffer[..], 1, done);
      }
      assert Message[..|Message|] == Message;
      FeedBlocks(rest);
    }

    /** Lines 131-153: padding, length and the last one or two blocks. */
    method Final() returns (hash: seq<byte>)
      requires Valid()
      modifies this`H, this`T0, this`T1, buffer
      ensures hash == Digest(f, Message) && IsDigest(f, Message, hash)
    {
      DigestIs(f, Message);
      hide IsDigest;
      hide Fold, Counts, BE64, LengthField, Pad;
      ghost var done := |Message| - leftover;
      ghost var tail := Message[done..];
      FinalCount(T0, T1, done, leftover);
      PadSplits(Message, done, leftover);
      var t0, t1 := T0 + leftover * 8, T1;
      if leftover <= 111 {
        CopyIn(leftover, [0x80] + Zeros(111 - leftover) + BE64(t1) + BE64(t0));
        assert buffer[..] == tail + [0x80] + Zeros(111 - leftover) + LengthField(|Message|);
        Blocks(buffer[..], 1, Message[..done]);
      } else {
        ZerosSplit(127 - leftover, 112);
        CopyIn(leftover, [0x80] + Zeros(127 - leftover));
        ghost var first := buffer[..];
        assert first == tail + [0x80] + Zeros(127 - leftover);
        Blocks(buffer[..], 1, Message[..done]);
        CopyIn(0, Zeros(112) + BE64(t1) + BE64(t0));
        assert buffer[..] == Zeros(112) + LengthField(|Message|);
        assert first + buffer[..] == tail + [0x80] + Zeros(239 - leftover) + LengthField(|Message|);
        assert Message[..done] + first + buffer[..] == Message[..done] + (first + buffer[..]);
        Blocks(buffer[..], 1, Message[..done] + first);
      }
      hash := Output(H);
    }
  }

  /** Lines 154-160. */
  method Hash(f: Compression, inp: seq<byte>) returns (hash: seq<byte>)
    ensures hash == Digest(f, inp) && IsDigest(f, inp, hash)
  {
    hide Digest, Fold, Counts, IsDigest;
    var ctx := new Context(f);
    ctx.Update(inp);
    assert [] + inp == inp;
    hash := ctx.Final();
  }

  /** Any way of cutting the same message into updates gives the same digest. */
  method HashPieces(f: Compression, pieces: seq<seq<byte>>) returns (hash: seq<byte>)
    ensures hash == Digest(f, Flatten(pieces)) && IsDigest(f, Flatten(pieces), hash)
  {
    hide Digest, Fold, Counts, IsDigest;
    var ctx := new Context(f);
    var i: nat := 0;
    assert pieces[..0] == [];
    while i < |pieces|
      invariant i <= |pieces| && ctx.Valid() && fresh(ctx) && fresh(ctx.buffer) && ctx.f == f
      invariant ctx.Message == Flatten(pieces[..i])
    {
      FlattenStep(pieces, i);
      ctx.Update(pieces[i]);
      i := i + 1;
    }
    assert pieces[..i] == pieces;
    hash := ctx.Final();
  }

  function Flatten(pieces: seq<seq<byte>>): seq<byte> {
    if pieces == [] then [] else Flatten(pieces[..|pieces| - 1]) + pieces[|pieces| - 1]
  }

  lemma FlattenStep(pieces: seq<seq<byte>>, i: nat)
    requires i < |pieces|
    ensures Flatten(pieces[..i + 1]) == Flatten(pieces[..i]) + pieces[i]
  {
    assert pieces[..i + 1][..i] == pieces[..i];
  }
}
