/**
 Verification in batches: up to 64 signatures are tested by one multiplication of a
 random combination, and one by one if the test fails. The random scalars are a
 parameter.

 Line numbers are those of src/ed25519-donna/ed25519-donna-batchverify.h.
 */
module BatchVerify {
  import opened Bits
  import opened Options
  import opened Bytes
  import opened Groups
  import opened Scalars
  import opened Modm
  import opened ModmMul
  import opened ModmBytes
  import opened BatchHeap
  import opened BosCoster
  import opened Sha512
  import opened Ed25519

  const MAX_BATCH_SIZE: nat := 64

  /** A message, a public key and a signature. */
  datatype Item = Item(m: seq<byte>, pk: seq<byte>, rs: seq<byte>)

  predicate WellFormed(items: seq<Item>, random: seq<seq<byte>>) {
    && |random| == |items|
    && (forall i :: 0 <= i < |items| ==> |items[i].rs| == 64)
    && (forall i :: 0 <= i < |items| ==> |random[i]| == 16)
  }

  // ---- what is handed to the multiplication ----

  /** S reduced, and the challenge. */
  function SOf(it: Item): nat
    requires |it.rs| == 64
  {
    LE(it.rs[32..]) % L
  }

  function HOf(f: Compression, it: Item): nat
    requires |it.rs| == 64
  {
    Challenge(f, it.rs[..32], it.pk, it.m)
  }

  /** Σ S_i r_i over the first n. */
  function Weighted(items: seq<Item>, random: seq<seq<byte>>, n: nat): nat
    requires WellFormed(items, random) && n <= |items|
  {
    if n == 0 then 0 else Weighted(items, random, n - 1) + SOf(items[n - 1]) * LE(random[n - 1])
  }

  /** The scalars: of the base point, of the keys, and of the R. */
  function ScalarsOf(f: Compression, items: seq<Item>, random: seq<seq<byte>>): (s: seq<nat>)
    requires WellFormed(items, random)
    ensures |s| == 2 * |items| + 1
  {
    var n := |items|;
    [Weighted(items, random, n) % L]
    + seq(n, i requires 0 <= i < n => HOf(f, items[i]) * LE(random[i]) % L)
    + seq(n, i requires 0 <= i < n => LE(random[i]))
  }

  /** All keys and all R are encodings of points. */
  predicate Decodes<P>(c: Curve<P>, items: seq<Item>)
    requires forall i :: 0 <= i < |items| ==> |items[i].rs| == 64
  {
    forall i :: 0 <= i < |items| ==> c.unpackNegative(items[i].pk).Some? && c.unpackNegative(items[i].rs[..32]).Some?
  }

  function PointsOf<P>(c: Curve<P>, items: seq<Item>): (p: seq<P>)
    requires (forall i :: 0 <= i < |items| ==> |items[i].rs| == 64) && Decodes(c, items)
    ensures |p| == 2 * |items| + 1
  {
    var n := |items|;
    [c.base]
    + seq(n, i requires 0 <= i < n => c.unpackNegative(items[i].pk).value)
    + seq(n, i requires 0 <= i < n => c.unpackNegative(items[i].rs[..32]).value)
  }

  /** What the multiplication returns for a batch. */
  ghost function Outcome<P>(c: Curve<P>, f: Compression, items: seq<Item>, random: seq<seq<byte>>): Option<P>
    requires WellFormed(items, random) && Decodes(c, items)
  {
    Result(c.g, ScalarsOf(f, items, random), PointsOf(c, items))
  }

  ghost predicate Passes<P>(c: Curve<P>, f: Compression, items: seq<Item>, random: seq<seq<byte>>)
    requires WellFormed(items, random)
  {
    Decodes(c, items) && Outcome(c, f, items, random) == Some(c.g.zero)
  }

  /** The final step leaves the array. */
  ghost predicate Traps<P>(c: Curve<P>, f: Compression, items: seq<Item>, random: seq<seq<byte>>)
    requires WellFormed(items, random)
  {
    Decodes(c, items) && Outcome(c, f, items, random).None?
  }

  // ---- the scalars ----

  lemma RandomIsSmall(r: seq<byte>)
    requires |r| == 16
    ensures LE(r) < TWO128 < L
  {
    hide LE, Pow2;
    LEBound(r);
    Pow2Values();
    Pow2Add(64, 64);
  }

  /** Lines 156-157. */
  method ExpandRandom(random: seq<seq<byte>>) returns (r: seq<Bignum>)
    requires forall i :: 0 <= i < |random| ==> |random[i]| == 16
    ensures |r| == |random| && forall i :: 0 <= i < |r| ==> Normal(r[i]) && Val(r[i]) == LE(random[i]) < L
  {
    hide LE, Val, Normal;
    r := [];
    var i: nat := 0;
    while i < |random|
      invariant i == |r| <= |random|
      invariant forall k :: 0 <= k < i ==> Normal(r[k]) && Val(r[k]) == LE(random[k]) < L
    {
      RandomIsSmall(random[i]);
      ModUnique(LE(random[i]), L, 0, LE(random[i]));
      var x := Expand256(random[i]);
      r := r + [x];
      i := i + 1;
    }
  }

  /** Lines 158-163: the products S_i r_i and their sum. */
  method SumProducts(items: seq<Item>, random: seq<seq<byte>>, r: seq<Bignum>) returns (sum: Bignum)
    requires WellFormed(items, random) && |items| >= 1
    requires |r| == |random| && forall i :: 0 <= i < |r| ==> Normal(r[i]) && Val(r[i]) == LE(random[i]) < L
    ensures Normal(sum) && Val(sum) == Weighted(items, random, |items|) % L
  {
    hide LE, Val, Normal;
    var products: seq<Bignum> := [];
    var i: nat := 0;
    while i < |items|
      invariant i == |products| <= |items|
      invariant forall k :: 0 <= k < i ==> Normal(products[k]) && Val(products[k]) == SOf(items[k]) * LE(random[k]) % L
    {
      var s := Expand256(items[i].rs[32..]);
      ReducedProduct(Val(s), Val(r[i]));
      var product := Mul256(s, r[i]);
      products := products + [product];
      i := i + 1;
    }
    sum := products[0];
    i := 1;
    assert Weighted(items, random, 1) == Weighted(items, random, 0) + SOf(items[0]) * LE(random[0]);
    while i < |items|
      invariant 1 <= i <= |items| && Normal(sum) && Val(sum) == Weighted(items, random, i) % L
    {
      SumOfTwoResidues(Weighted(items, random, i), SOf(items[i]) * LE(random[i]));
      sum := Add256(sum, products[i]);
      i := i + 1;
    }
  }

  lemma SumOfTwoResidues(x: int, y: int)
    ensures (x % L + y % L) % L == (x + y) % L
  {
    SumOfResidues(x, y % L);
    SumOfResidues(y, x);
  }

  /** Lines 164-168: the products h_i r_i. */
  method ChallengeProducts(f: Compression, items: seq<Item>, random: seq<seq<byte>>, r: seq<Bignum>) returns (h: seq<Bignum>)
    requires WellFormed(items, random)
    requires |r| == |random| && forall i :: 0 <= i < |r| ==> Normal(r[i]) && Val(r[i]) == LE(random[i]) < L
    ensures |h| == |items| && forall i :: 0 <= i < |h| ==> Normal(h[i]) && Val(h[i]) == HOf(f, items[i]) * LE(random[i]) % L
  {
    hide LE, Val, Normal, Digest;
    h := [];
    var i: nat := 0;
    while i < |items|
      invariant i == |h| <= |items|
      invariant forall k :: 0 <= k < i ==> Normal(h[k]) && Val(h[k]) == HOf(f, items[k]) * LE(random[k]) % L
    {
      var hram := Hram(f, items[i].rs[..32], items[i].pk, items[i].m);
      var x := Expand256(hram);
      ReducedProduct(Val(x), Val(r[i]));
      var product := Mul256(x, r[i]);
      h := h + [product];
      i := i + 1;
    }
  }

  method BatchScalars(f: Compression, items: seq<Item>, random: seq<seq<byte>>) returns (s: seq<Bignum>)
    requires WellFormed(items, random) && |items| >= 1
    ensures |s| == 2 * |items| + 1 && forall i :: 0 <= i < |s| ==> Normal(s[i]) && Val(s[i]) == ScalarsOf(f, items, random)[i]
  {
    hide LE, Val, Normal, HOf, Weighted;
    var r := ExpandRandom(random);
    var sum := SumProducts(items, random, r);
    var h := ChallengeProducts(f, items, random, r);
    s := [sum] + h + r;
  }

  /** Lines 169-175: the points, or nothing if one does not decode. */
  method BatchPoints<P>(c: Curve<P>, items: seq<Item>) returns (p: Option<seq<P>>)
    requires forall i :: 0 <= i < |items| ==> |items[i].rs| == 64
    ensures p.Some? <==> Decodes(c, items)
    ensures p.Some? ==> p.value == PointsOf(c, items)
  {
    var a: seq<P> := [];
    var i: nat := 0;
    while i < |items|
      invariant i == |a| <= |items|
      invariant forall k :: 0 <= k < i ==> c.unpackNegative(items[k].pk) == Some(a[k])
    {
      var q := c.unpackNegative(items[i].pk);
      if q.None? {
        return None;
      }
      a := a + [q.value];
      i := i + 1;
    }
    var b: seq<P> := [];
    i := 0;
    while i < |items|
      invariant i == |b| <= |items|
      invariant forall k :: 0 <= k < i ==> c.unpackNegative(items[k].rs[..32]) == Some(b[k])
    {
      var q := c.unpackNegative(items[i].rs[..32]);
      if q.None? {
        return None;
      }
      b := b + [q.value];
      i := i + 1;
    }
    p := Some([c.base] + a + b);
  }

  // ---- one batch ----

  method Load<P>(s: seq<Bignum>, p: seq<P>) returns (heap: Batch<P>)
    requires 1 <= |s| == |p| <= HEAP_BATCH_SIZE && forall i :: 0 <= i < |s| ==> Normal(s[i])
    ensures fresh(heap) && fresh(heap.points) && fresh(heap.scalars) && fresh(heap.heap) && heap.Shaped()
    ensures heap.points[..|p|] == p && heap.scalars[..|s|] == s
  {
    hide Normal;
    heap := new Batch(p[0]);
    var i: nat := 0;
    while i < |s|
      invariant i <= |s| && heap.Shaped() && heap.points[..i] == p[..i] && heap.scalars[..i] == s[..i]
      modifies heap.points, heap.scalars
    {
      heap.points[i] := p[i];
      heap.scalars[i] := s[i];
      i := i + 1;
    }
    assert p[..|p|] == p && s[..|s|] == s;
  }

  lemma BatchCount(n: nat)
    requires n >= 4
    ensures n + 1 <= InitialSize(2 * n + 1) <= 2 * n + 1
  {
    OrOne(n + 1);
  }

  method Multiply<P(!new)>(c: Curve<P>, f: Compression, items: seq<Item>, random: seq<seq<byte>>) returns (r: Option<Option<P>>)
    requires IsAbelian(c.g) && WellFormed(items, random) && 4 <= |items| <= MAX_BATCH_SIZE
    ensures r.Some? <==> Decodes(c, items)
    ensures r.Some? ==> r.value == Outcome(c, f, items, random)
  {
    hide Val, Normal, Result, ScalarsOf, PointsOf, Decodes, IsAbelian;
    var s := BatchScalars(f, items, random);
    var p := BatchPoints(c, items);
    if p.None? {
      return None;
    }
    var heap := Load(s, p.value);
    ghost var count := 2 * |items| + 1;
    assert heap.Values()[..count] == ScalarsOf(f, items, random) by {
      forall i | 0 <= i < count ensures heap.Values()[i] == ScalarsOf(f, items, random)[i] {
        assert heap.scalars[..|s|][i] == s[i];
      }
    }
    SecondHalfIsSmall(f, items, random);
    var q := MultiScalarMultVartime(c.g, heap, 2 * |items| + 1);
    r := Some(q);
  }

  lemma SecondHalfIsSmall(f: Compression, items: seq<Item>, random: seq<seq<byte>>)
    requires WellFormed(items, random) && |items| >= 4
    ensures forall i :: InitialSize(2 * |items| + 1) <= i < 2 * |items| + 1 ==> ScalarsOf(f, items, random)[i] < TWO128
  {
    hide LE, HOf, Weighted;
    BatchCount(|items|);
    forall i | InitialSize(2 * |items| + 1) <= i < 2 * |items| + 1 ensures ScalarsOf(f, items, random)[i] < TWO128 {
      RandomIsSmall(random[i - |items| - 1]);
    }
  }

  // ---- the verdicts ----

  ghost predicate Accepted<P(!new)>(c: Curve<P>, f: Compression, it: Item)
    requires |it.rs| == 64
  {
    Accepts(c, f, it.m, it.pk, it.rs)
  }

  /** Lines 180-183 and 192-195: one by one. */
  method OneByOne<P(!new)>(c: Curve<P>, f: Compression, items: seq<Item>) returns (valid: seq<int>, bad: bool)
    requires IsCurve(c) && forall i :: 0 <= i < |items| ==> |items[i].rs| == 64
    ensures |valid| == |items| && forall i :: 0 <= i < |items| ==> valid[i] == if Accepted(c, f, items[i]) then 1 else 0
    ensures bad <==> 0 in valid
  {
    hide IsCurve, Accepts, Times, LE, Digest, Pow2;
    valid, bad := [], false;
    var i: nat := 0;
    while i < |items|
      invariant i == |valid| <= |items|
      invariant forall k :: 0 <= k < i ==> valid[k] == if Accepted(c, f, items[k]) then 1 else 0
      invariant bad <==> 0 in valid
    {
      var ret := SignOpen(c, f, items[i].m, items[i].pk, items[i].rs);
      valid := valid + [if ret != 0 then 0 else 1];
      bad := bad || ret != 0;
      i := i + 1;
    }
  }

  lemma CurveIsAbelian<P(!new)>(c: Curve<P>)
    requires IsCurve(c)
    ensures IsAbelian(c.g)
  {
  }

  /** Lines 153-184: one batch; failed is the bit 2 of the answer and bad the bit 1. */
  method VerifyBatch<P(!new,==)>(c: Curve<P>, f: Compression, items: seq<Item>, random: seq<seq<byte>>)
      returns (trapped: bool, valid: seq<int>, failed: bool, bad: bool)
    requires IsCurve(c) && WellFormed(items, random) && 4 <= |items| <= MAX_BATCH_SIZE
    ensures trapped <==> Traps(c, f, items, random)
    ensures !trapped ==> |valid| == |items|
    ensures !trapped ==> forall i :: 0 <= i < |items| ==>
              valid[i] == if Passes(c, f, items, random) || Accepted(c, f, items[i]) then 1 else 0
    ensures !trapped ==> (failed <==> Decodes(c, items) && !Passes(c, f, items, random))
    ensures !trapped ==> (bad <==> 0 in valid)
  {
    hide IsCurve, Outcome, Accepted, IsAbelian, Decodes;
    CurveIsAbelian(c);
    trapped, failed, bad := false, false, false;
    var r := Multiply(c, f, items, random);
    if r.Some? {
      if r.value.None? {
        trapped, valid := true, [];
        return;
      }
      if r.value.value == c.g.zero {
        valid := seq(|items|, i => 1);
        return;
      }
      failed := true;
    }
    valid, bad := OneByOne(c, f, items);
  }

  // ---- the whole ----

  /** The k-th batch starts at 64 k and takes what is left, up to 64. */
  function BatchEnd(n: nat, k: nat): nat
    requires MAX_BATCH_SIZE * k <= n
  {
    Min(MAX_BATCH_SIZE * k + MAX_BATCH_SIZE, n)
  }

  /** The k-th batch is large enough to be tested as one. */
  predicate IsBatch(n: nat, k: nat) {
    MAX_BATCH_SIZE * k + 3 < n
  }

  function Slice<T>(t: seq<T>, k: nat): seq<T>
    requires MAX_BATCH_SIZE * k <= |t|
  {
    t[MAX_BATCH_SIZE * k..BatchEnd(|t|, k)]
  }

  ghost predicate BatchPasses<P>(c: Curve<P>, f: Compression, items: seq<Item>, random: seq<seq<byte>>, k: nat)
    requires WellFormed(items, random)
  {
    IsBatch(|items|, k) && Passes(c, f, Slice(items, k), Slice(random, k))
  }

  ghost predicate BatchFails<P>(c: Curve<P>, f: Compression, items: seq<Item>, random: seq<seq<byte>>, k: nat)
    requires WellFormed(items, random)
  {
    IsBatch(|items|, k) && Decodes(c, Slice(items, k)) && !Passes(c, f, Slice(items, k), Slice(random, k))
  }

  ghost predicate BatchTraps<P>(c: Curve<P>, f: Compression, items: seq<Item>, random: seq<seq<byte>>, k: nat)
    requires WellFormed(items, random)
  {
    IsBatch(|items|, k) && Traps(c, f, Slice(items, k), Slice(random, k))
  }

  /** The verdict on signature i. */
  ghost predicate Verdict<P(!new)>(c: Curve<P>, f: Compression, items: seq<Item>, random: seq<seq<byte>>, i: nat)
    requires WellFormed(items, random) && i < |items|
  {
    BatchPasses(c, f, items, random, i / MAX_BATCH_SIZE) || Accepted(c, f, items[i])
  }

  ghost predicate Verdicts<P(!new)>(c: Curve<P>, f: Compression, items: seq<Item>, random: seq<seq<byte>>, valid: seq<int>)
    requires WellFormed(items, random)
  {
    |valid| <= |items| && forall i :: 0 <= i < |valid| ==> valid[i] == if Verdict(c, f, items, random, i) then 1 else 0
  }

  lemma MoreVerdicts<P(!new)>(c: Curve<P>, f: Compression, items: seq<Item>, random: seq<seq<byte>>,
                              valid: seq<int>, v: seq<int>, k: nat)
    requires WellFormed(items, random) && IsBatch(|items|, k) && |valid| == MAX_BATCH_SIZE * k && Verdicts(c, f, items, random, valid)
    requires |v| == |Slice(items, k)| && forall i :: 0 <= i < |v| ==>
               v[i] == if Passes(c, f, Slice(items, k), Slice(random, k)) || Accepted(c, f, Slice(items, k)[i]) then 1 else 0
    ensures Verdicts(c, f, items, random, valid + v)
  {
    hide Passes, Accepted;
    forall i | 0 <= i < |valid + v| ensures (valid + v)[i] == if Verdict(c, f, items, random, i) then 1 else 0 {
      if i >= |valid| {
        assert i / MAX_BATCH_SIZE == k;
        assert Slice(items, k)[i - |valid|] == items[i];
      }
    }
  }

  lemma LastVerdicts<P(!new)>(c: Curve<P>, f: Compression, items: seq<Item>, random: seq<seq<byte>>,
                              valid: seq<int>, v: seq<int>, k: nat)
    requires WellFormed(items, random) && !IsBatch(|items|, k) && |valid| == Min(MAX_BATCH_SIZE * k, |items|)
    requires Verdicts(c, f, items, random, valid)
    requires |v| == |items| - |valid| && forall i :: 0 <= i < |v| ==> v[i] == if Accepted(c, f, items[|valid| + i]) then 1 else 0
    ensures Verdicts(c, f, items, random, valid + v)
  {
    hide Passes, Accepted;
    forall i | 0 <= i < |valid + v| ensures (valid + v)[i] == if Verdict(c, f, items, random, i) then 1 else 0 {
      if i >= |valid| {
        assert i / MAX_BATCH_SIZE >= k;
        assert items[|valid| + (i - |valid|)] == items[i];
      }
    }
  }

  /** The verdicts spelt out: batches of 64, the last of what is left if that is more than 3. */
  lemma VerdictsAre<P(!new)>(c: Curve<P>, f: Compression, items: seq<Item>, random: seq<seq<byte>>, valid: seq<int>)
    requires WellFormed(items, random) && |valid| == |items| && Verdicts(c, f, items, random, valid)
    ensures forall i :: 0 <= i < |items| ==>
              var from := i / 64 * 64;
              var to := if from + 64 < |items| then from + 64 else |items|;
              valid[i] == if (to - from > 3 && Passes(c, f, items[from..to], random[from..to]))
                             || Accepts(c, f, items[i].m, items[i].pk, items[i].rs) then 1 else 0
  {
    hide Passes, Accepts;
    forall i | 0 <= i < |items|
      ensures var from := i / 64 * 64;
              var to := if from + 64 < |items| then from + 64 else |items|;
              valid[i] == if (to - from > 3 && Passes(c, f, items[from..to], random[from..to]))
                             || Accepts(c, f, items[i].m, items[i].pk, items[i].rs) then 1 else 0
    {
      assert valid[i] == if Verdict(c, f, items, random, i) then 1 else 0;
    }
  }

  /**
   Lines 142-197. A signature is valid exactly when its batch passes or it is accepted
   on its own; the run ends unless the final step of some batch leaves the array.
   */
  method SignOpenBatch<P(!new,==)>(c: Curve<P>, f: Compression, items: seq<Item>, random: seq<seq<byte>>)
      returns (trapped: bool, valid: seq<int>, ret: nat)
    requires IsCurve(c) && WellFormed(items, random)
    ensures trapped <==> exists k :: 0 <= k && BatchTraps(c, f, items, random, k)
    ensures !trapped ==> |valid| == |items| && Verdicts(c, f, items, random, valid)
    ensures !trapped ==> forall i :: 0 <= i < |items| ==>
              var from := i / 64 * 64;
              var to := if from + 64 < |items| then from + 64 else |items|;
              valid[i] == if (to - from > 3 && Passes(c, f, items[from..to], random[from..to]))
                             || Accepts(c, f, items[i].m, items[i].pk, items[i].rs) then 1 else 0
    ensures !trapped ==>
              ret == (if exists k :: 0 <= k && BatchFails(c, f, items, random, k) then 2 else 0) + (if 0 in valid then 1 else 0)
  {
    hide IsCurve, Accepted, Passes, Traps, Decodes, Verdict, Verdicts;
    trapped, valid := false, [];
    var failed, bad := false, false;
    var k: nat := 0;
    assert Verdicts(c, f, items, random, []) by {
      NoVerdicts(c, f, items, random);
    }
    while |items| - MAX_BATCH_SIZE * k > 3
      invariant |valid| == Min(MAX_BATCH_SIZE * k, |items|) && Verdicts(c, f, items, random, valid)
      invariant forall j :: 0 <= j < k ==> !BatchTraps(c, f, items, random, j)
      invariant failed <==> exists j :: 0 <= j < k && BatchFails(c, f, items, random, j)
      invariant bad <==> 0 in valid
      decreases |items| - MAX_BATCH_SIZE * k
    {
      var t, v, fl, bd := VerifyBatch(c, f, Slice(items, k), Slice(random, k));
      if t {
        assert BatchTraps(c, f, items, random, k);
        trapped, ret := true, 0;
        return;
      }
      assert fl <==> BatchFails(c, f, items, random, k);
      MoreVerdicts(c, f, items, random, valid, v, k);
      valid := valid + v;
      failed, bad := failed || fl, bad || bd;
      k := k + 1;
    }
    var v, bd := OneByOne(c, f, items[|valid|..]);
    LastVerdicts(c, f, items, random, valid, v, k);
    valid := valid + v;
    bad := bad || bd;
    VerdictsAre(c, f, items, random, valid);
    ret := (if failed then 2 else 0) + (if bad then 1 else 0);
  }

  lemma NoVerdicts<P(!new)>(c: Curve<P>, f: Compression, items: seq<Item>, random: seq<seq<byte>>)
    requires WellFormed(items, random)
    ensures Verdicts(c, f, items, random, [])
  {
  }
}
