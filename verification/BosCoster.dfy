/**
 The Bos-Coster multi-scalar multiplication of the batch verifier, over any abelian
 group. Each round replaces the two largest scalars a >= b and their points A, B by
 a - b, b and A, B + A, which keeps the linear combination of the heap.

 Line numbers are those of src/ed25519-donna/ed25519-donna-batchverify.h.
 */
module BosCoster {
  import opened Bits
  import opened Options
  import opened Groups
  import opened Scalars
  import opened Divisors
  import opened BatchHeap
  import opened FinalStep
  import opened Coefficients

  // ---- one round, on sequences ----

  /** Entries that are the same extend equal combinations to equal combinations. */
  lemma {:induction false} ExtendCombination<P>(g: Group<P>, s: seq<int>, p: seq<P>, s': seq<int>, p': seq<P>, m: nat, n: nat)
    requires m <= n && n <= |s| && n <= |p| && n <= |s'| && n <= |p'|
    requires LinearCombination(g, s, p, m) == LinearCombination(g, s', p', m)
    requires forall i :: m <= i < n ==> s[i] == s'[i] && p[i] == p'[i]
    ensures LinearCombination(g, s, p, n) == LinearCombination(g, s', p', n)
    decreases n
  {
    if m < n {
      ExtendCombination(g, s, p, s', p', m, n - 1);
    }
  }

  lemma {:induction false} ExtendGcd(s: seq<nat>, s': seq<nat>, m: nat, n: nat)
    requires m <= n && n <= |s| && n <= |s'|
    requires Gcd(s[..m]) == Gcd(s'[..m])
    requires forall i :: m <= i < n ==> s[i] == s'[i]
    ensures Gcd(s[..n]) == Gcd(s'[..n])
    decreases n
  {
    if m < n {
      ExtendGcd(s, s', m, n - 1);
      assert s[..n][..n - 1] == s[..n - 1] && s'[..n][..n - 1] == s'[..n - 1];
    }
  }

  /** The sum of the scalars in the heap: the measure of the rounds. */
  function Total(v: seq<nat>): nat {
    if v == [] then 0 else Total(v[..|v| - 1]) + v[|v| - 1]
  }

  lemma {:induction false} TotalUpdate(v: seq<nat>, i: nat, x: nat)
    requires i < |v|
    ensures Total(v[i := x]) + v[i] == Total(v) + x
  {
    var n := |v| - 1;
    if i == n {
      assert v[i := x][..n] == v[..n];
    } else {
      assert v[i := x][..n] == v[..n][i := x];
      TotalUpdate(v[..n], i, x);
    }
  }

  // ---- what a run keeps ----

  /** The number of scalars the heap starts with. */
  function InitialSize(count: nat): nat {
    Or((count + 1) / 2, 1)
  }

  lemma InitialSizeIsOdd(count: nat)
    requires count % 2 == 1 && count >= 3
    ensures InitialSize(count) % 2 == 1 && 3 <= InitialSize(count) <= count
  {
    OrOne((count + 1) / 2);
  }

  ghost predicate TwoNonzero(s: seq<nat>) {
    exists i, j :: 0 <= i < |s| && 0 <= j < |s| && i != j && s[i] != 0 && s[j] != 0
  }

  /** The scalars of the first heap on which the second half is ever taken in. */
  ghost predicate Extends(s: seq<nat>) {
    TwoNonzero(s) && Gcd(s) < TWO128
  }

  /** Two entries, one of them positive, that sum to at least 2^128. */
  ghost predicate LargePair(v: seq<nat>, n: nat)
    requires n <= |v|
  {
    exists a, b :: 0 <= a < n && 0 <= b < n && a != b && v[b] >= 1 && v[a] + v[b] >= TWO128
  }

  /**
   The n entries in the heap have the combination and the gcd that they started
   with, the others are untouched, and every point is a known combination of the
   first ones.
   */
  ghost predicate Tracks<P>(g: Group<P>, s0: seq<nat>, p0: seq<P>, v: seq<nat>, p: seq<P>, n: nat) {
    && |s0| == |p0| == |v| == |p| && n <= |v|
    && LinearCombination(g, v, p, n) == LinearCombination(g, s0, p0, n)
    && Gcd(v[..n]) == Gcd(s0[..n])
    && (forall i :: n <= i < |v| ==> v[i] == s0[i] && p[i] == p0[i])
    && (exists K :: Spans(g, K, s0, p0, v, p, n))
  }

  /** Where a run stands: before its first round, or between rounds, extended or not. */
  ghost predicate Phase(s0: seq<nat>, v: seq<nat>, n0: nat, started: bool, extended: bool) {
    && |s0| == |v| && n0 <= |v|
    && (started ==> TwoNonzero(s0[..n0]))
    && (!started ==> v == s0 && !extended)
    && (extended ==> Extends(s0[..n0]))
    && (started && !extended ==> LargePair(v, n0))
  }

  /** The two largest entries of the first n. */
  ghost predicate TopTwo(v: seq<nat>, n: nat, max1: nat, max2: nat) {
    && n <= |v| && max1 < n && max2 < n && max1 != max2
    && (forall i :: 0 <= i < n ==> v[i] <= v[max1])
    && (forall i :: 0 <= i < n && i != max1 ==> v[i] <= v[max2])
  }

  lemma RoundKeepsTrack<P(!new)>(g: Group<P>, s0: seq<nat>, p0: seq<P>, v: seq<nat>, p: seq<P>, n: nat, a: nat, b: nat)
    requires IsAbelian(g) && Tracks(g, s0, p0, v, p, n)
    requires TopTwo(v, n, a, b)
    ensures Tracks(g, s0, p0, v[a := v[a] - v[b]], p[b := g.add(p[b], p[a])], n)
    ensures Total(v[a := v[a] - v[b]][..n]) + v[b] == Total(v[..n])
  {
    hide LinearCombination, Spans;
    RoundKeepsCombination(g, v, p, n, a, b);
    var K :| Spans(g, K, s0, p0, v, p, n);
    assert Square(K) && |K| == |v| by {
      SpansShape(g, K, s0, p0, v, p, n);
    }
    SpansRound(g, K, s0, p0, v, p, n, a, b);
    var v' := v[a := v[a] - v[b]];
    assert v'[..n] == v[..n][a := v[a] - v[b]];
    GcdSubtract(v[..n], a, b);
    TotalUpdate(v[..n], a, v[a] - v[b]);
  }

  lemma ExtensionKeepsTrack<P>(g: Group<P>, s0: seq<nat>, p0: seq<P>, v: seq<nat>, p: seq<P>, m: nat, n: nat)
    requires Tracks(g, s0, p0, v, p, m) && m <= n <= |v|
    ensures Tracks(g, s0, p0, v, p, n)
  {
    hide LinearCombination, Spans;
    ExtendCombination(g, v, p, s0, p0, m, n);
    ExtendGcd(v, s0, m, n);
    var K :| Spans(g, K, s0, p0, v, p, m);
    SpansMore(g, K, s0, p0, v, p, m, n);
  }

  // ---- the rounds ----

  /** Lines 125-126: the larger scalar shrinks, and the other point grows. */
  method ReduceLargest<P(!new)>(g: Group<P>, heap: Batch<P>, max1: nat, max2: nat, limbsize: nat)
    requires heap.Valid() && heap.Ordered() && heap.Window(limbsize)
    requires TopTwo(heap.Values(), heap.size, max1, max2) && max1 == heap.heap[0]
    modifies heap.scalars, heap.points
    ensures heap.Valid()
    ensures heap.Values() == old(heap.Values()[max1 := heap.Values()[max1] - heap.Values()[max2]])
    ensures HeapAround(heap.heap[..heap.size], heap.Values(), 0)
    ensures heap.points[..] == old(heap.points[..][max2 := g.add(heap.points[max2], heap.points[max1])])
  {
    ghost var v := heap.Values();
    ShrinkRoot(heap.heap[..heap.size], heap.pos, v, v[max1] - v[max2]);
    heap.SubtractScalar(max1, max2, limbsize);
    heap.points[max2] := g.add(heap.points[max2], heap.points[max1]);
  }

  /** Lines 125-127: then the root goes back to its place in the heap. */
  method SubtractLargest<P(!new)>(g: Group<P>, heap: Batch<P>, max1: nat, max2: nat, limbsize: nat)
    requires heap.Valid() && heap.Ordered() && heap.Window(limbsize) && heap.size % 2 == 1 && heap.size >= 3
    requires TopTwo(heap.Values(), heap.size, max1, max2) && max1 == heap.heap[0]
    modifies heap`pos, heap.heap, heap.scalars, heap.points
    ensures heap.Valid() && heap.Ordered() && heap.Window(limbsize)
    ensures heap.Values() == old(heap.Values()[max1 := heap.Values()[max1] - heap.Values()[max2]])
    ensures heap.points[..] == old(heap.points[..][max2 := g.add(heap.points[max2], heap.points[max1])])
  {
    ReduceLargest(g, heap, max1, max2, limbsize);
    heap.HeapUpdatedRoot(limbsize);
  }

  /** Lines 118-119: the window loses a limb when the largest scalar does not use it. */
  method ShrinkWindow<P>(heap: Batch<P>, max1: nat, ghost max2: nat, limbsize: nat) returns (smaller: nat)
    requires heap.Valid() && heap.Window(limbsize)
    requires TopTwo(heap.Values(), heap.size, max1, max2) && heap.Values()[max2] >= 1
    ensures heap.Window(smaller) && smaller <= limbsize <= smaller + 1
    ensures smaller < limbsize <==> heap.Values()[max1] < LimbPower(limbsize)
  {
    smaller := limbsize;
    var clear := heap.TopLimbClear(max1, limbsize);
    if clear {
      assert limbsize != 0;
      smaller := limbsize - 1;
    }
  }

  /** In the window of a scalar of at least 2^127 there is room for every 128-bit scalar. */
  lemma WindowCovers128(limbsize: nat, x: nat)
    requires 2 * x >= TWO128 && x < LimbPower(limbsize + 1)
    ensures limbsize >= 2 && TWO128 <= LimbPower(limbsize + 1)
  {
    LimbPowers();
    LimbPowerMonotone(3, limbsize + 1);
  }

  lemma {:induction false} LimbPowerMonotone(m: nat, n: nat)
    ensures m <= n ==> LimbPower(m) <= LimbPower(n)
  {
    if m < n {
      LimbPowerMonotone(m, n - 1);
    }
  }

  /** The heap holds the first half, or all once extended, and what joins later is below 2^128. */
  ghost predicate Sized<P>(size: nat, count: nat, s0: seq<nat>, p0: seq<P>, extended: bool) {
    && |s0| == |p0| == HEAP_BATCH_SIZE
    && 3 <= InitialSize(count) <= count <= HEAP_BATCH_SIZE && count % 2 == 1 && InitialSize(count) % 2 == 1
    && size == (if extended then count else InitialSize(count))
    && (forall i :: InitialSize(count) <= i < count ==> s0[i] < TWO128)
  }

  ghost predicate Running<P(!new)>(g: Group<P>, heap: Batch<P>, count: nat, s0: seq<nat>, p0: seq<P>,
                                   limbsize: nat, started: bool, extended: bool)
    reads heap, heap.points, heap.scalars, heap.heap
  {
    && heap.Valid() && heap.Ordered() && heap.Window(limbsize)
    && Sized(heap.size, count, s0, p0, extended)
    && Tracks(g, s0, p0, heap.Values(), heap.points[..], heap.size)
    && Phase(s0, heap.Values(), InitialSize(count), started, extended)
    && (!started ==> limbsize >= LIMB_SIZE - 2)
  }

  /** Before the extension the window always has room for 128 bits. */
  lemma RoomFor128(v: seq<nat>, s0: seq<nat>, n0: nat, limbsize: nat, max1: nat, max2: nat, started: bool)
    requires Phase(s0, v, n0, started, false) && TopTwo(v, n0, max1, max2)
    requires v[max1] < LimbPower(limbsize + 1) && limbsize < LIMB_SIZE
    requires !started ==> limbsize >= LIMB_SIZE - 2
    ensures TWO128 <= LimbPower(limbsize + 1)
  {
    LimbPowers();
    if started {
      var a, b :| 0 <= a < n0 && 0 <= b < n0 && a != b && v[b] >= 1 && v[a] + v[b] >= TWO128;
      WindowCovers128(limbsize, v[max1]);
    }
  }

  /** A first heap whose largest scalar has become small is one that extends. */
  lemma SmallMaximumExtends<P>(g: Group<P>, s0: seq<nat>, p0: seq<P>, v: seq<nat>, p: seq<P>, n0: nat,
                               started: bool, max1: nat, max2: nat)
    requires Phase(s0, v, n0, started, false) && TopTwo(v, n0, max1, max2)
    requires Tracks(g, s0, p0, v, p, n0) && v[max2] >= 1
    ensures TwoNonzero(s0[..n0])
    ensures v[max1] < TWO128 ==> Extends(s0[..n0])
  {
    if !started {
      assert s0[..n0][max1] != 0 && s0[..n0][max2] != 0;
    }
    GcdAtMostEntry(v[..n0], max1);
  }

  /** After a round two positive scalars have been met, and without extension their sum is still large. */
  lemma RoundStarts(s0: seq<nat>, v: seq<nat>, n0: nat, n: nat, extended: bool, max1: nat, max2: nat)
    requires |s0| == |v| && n0 <= |v|
    requires TwoNonzero(s0[..n0]) && (extended ==> Extends(s0[..n0]))
    requires TopTwo(v, n, max1, max2) && v[max2] >= 1
    requires !extended ==> n == n0 && v[max1] >= TWO128
    ensures Phase(s0, v[max1 := v[max1] - v[max2]], n0, true, extended)
  {
    var w := v[max1 := v[max1] - v[max2]];
    assert w[max2] >= 1 && w[max1] + w[max2] == v[max1];
  }

  /** The state in which the two largest scalars are subtracted. */
  ghost predicate Ready<P(!new)>(g: Group<P>, heap: Batch<P>, count: nat, s0: seq<nat>, p0: seq<P>,
                                 limbsize: nat, max1: nat, max2: nat, extended: bool)
    reads heap, heap.points, heap.scalars, heap.heap
  {
    && heap.Valid() && heap.Ordered() && heap.Window(limbsize)
    && Sized(heap.size, count, s0, p0, extended)
    && Tracks(g, s0, p0, heap.Values(), heap.points[..], heap.size)
    && TopTwo(heap.Values(), heap.size, max1, max2) && max1 == heap.heap[0] && heap.Values()[max2] >= 1
    && TwoNonzero(s0[..InitialSize(count)]) && (extended ==> Extends(s0[..InitialSize(count)]))
    && (!extended ==> heap.Values()[max1] >= TWO128)
  }

  /** Lines 120-124: the second half joins once the largest scalar fits in 128 bits. */
  method ExtendWhenSmall<P(!new)>(g: Group<P>, heap: Batch<P>, count: nat, max1: nat, max2: nat, limbsize: nat,
                                  extended: bool, ghost s0: seq<nat>, ghost p0: seq<P>, ghost started: bool)
      returns (top1: nat, top2: nat, extended': bool)
    requires Running(g, heap, count, s0, p0, limbsize, started, extended)
    requires TopTwo(heap.Values(), heap.size, max1, max2) && max1 == heap.heap[0]
    requires heap.Values()[max2] >= 1
    modifies heap`size, heap`pos, heap.heap
    ensures Ready(g, heap, count, s0, p0, limbsize, top1, top2, extended')
    ensures extended == extended' ==> heap.size == old(heap.size)
    ensures extended ==> extended'
  {
    hide Tracks, Phase, Extends, TwoNonzero, IsMaxHeap, IsPermutation, LimbPower, Normal, InitialSize;
    top1, top2, extended' := max1, max2, extended;
    if extended {
      ExtendedIsReady(s0, heap.Values(), InitialSize(count), started);
    } else {
      SmallMaximumExtends(g, s0, p0, heap.Values(), heap.points[..], InitialSize(count), started, max1, max2);
      var small := heap.FitsIn128(max1);
      if small {
        RoomFor128(heap.Values(), s0, InitialSize(count), limbsize, max1, max2, started);
        top1, top2 := TakeInSecondHalf(g, heap, count, limbsize, max2, s0, p0, started);
        extended' := true;
      }
    }
  }

  lemma ExtendedIsReady(s0: seq<nat>, v: seq<nat>, n0: nat, started: bool)
    requires Phase(s0, v, n0, started, true)
    ensures TwoNonzero(s0[..n0]) && Extends(s0[..n0])
  {
  }

  method TakeInSecondHalf<P(!new)>(g: Group<P>, heap: Batch<P>, count: nat, limbsize: nat, ghost max2: nat,
                                   ghost s0: seq<nat>, ghost p0: seq<P>, ghost started: bool)
      returns (top1: nat, top2: nat)
    requires Running(g, heap, count, s0, p0, limbsize, started, false)
    requires exists max1 :: TopTwo(heap.Values(), heap.size, max1, max2) && heap.Values()[max2] >= 1
    requires TwoNonzero(s0[..InitialSize(count)]) && Extends(s0[..InitialSize(count)])
    requires TWO128 <= LimbPower(limbsize + 1)
    modifies heap`size, heap`pos, heap.heap
    ensures Ready(g, heap, count, s0, p0, limbsize, top1, top2, true)
  {
    hide LinearCombination, Gcd, TwoNonzero, LargePair, IsMaxHeap, IsPermutation, LimbPower, Normal, InitialSize, Spans;
    ghost var max1 :| TopTwo(heap.Values(), heap.size, max1, max2) && heap.Values()[max2] >= 1;
    ExtensionKeepsTrack(g, s0, p0, heap.Values(), heap.points[..], heap.size, count);
    heap.HeapExtend(count);
    top1, top2 := heap.HeapGetTop2(limbsize);
    LargerTopTwo(heap.Values(), count, top1, top2, max1, max2);
  }

  lemma LargerTopTwo(v: seq<nat>, n: nat, top1: nat, top2: nat, a: nat, b: nat)
    requires TopTwo(v, n, top1, top2) && a < n && b < n && a != b && v[b] <= v[a]
    ensures v[b] <= v[top2]
  {
  }

  /** Lines 125-127, with what they keep. */
  method FinishRound<P(!new)>(g: Group<P>, heap: Batch<P>, count: nat, max1: nat, max2: nat, limbsize: nat,
                              ghost extended: bool, ghost s0: seq<nat>, ghost p0: seq<P>)
    requires IsAbelian(g)
    requires Ready(g, heap, count, s0, p0, limbsize, max1, max2, extended)
    modifies heap`pos, heap.heap, heap.scalars, heap.points
    ensures Running(g, heap, count, s0, p0, limbsize, true, extended)
    ensures Total(heap.Values()[..heap.size]) < old(Total(heap.Values()[..heap.size]))
  {
    hide Tracks, Phase, Total, Extends, TwoNonzero, IsMaxHeap, IsPermutation, LimbPower, Normal, InitialSize;
    RoundKeepsTrack(g, s0, p0, heap.Values(), heap.points[..], heap.size, max1, max2);
    RoundStarts(s0, heap.Values(), InitialSize(count), heap.size, extended, max1, max2);
    SubtractLargest(g, heap, max1, max2, limbsize);
  }

  /** Lines 118-127: one round. */
  method Round<P(!new)>(g: Group<P>, heap: Batch<P>, count: nat, max1: nat, max2: nat, limbsize: nat,
                        extended: bool, ghost s0: seq<nat>, ghost p0: seq<P>, ghost started: bool)
      returns (limbsize': nat, extended': bool)
    requires IsAbelian(g)
    requires Running(g, heap, count, s0, p0, limbsize, started, extended)
    requires !started ==> limbsize == LIMB_SIZE - 1
    requires TopTwo(heap.Values(), heap.size, max1, max2) && max1 == heap.heap[0]
    requires heap.Values()[max2] >= 1
    modifies heap`size, heap`pos, heap.heap, heap.scalars, heap.points
    ensures Running(g, heap, count, s0, p0, limbsize', true, extended')
    ensures extended ==> extended'
    ensures extended == extended' ==> Total(heap.Values()[..heap.size]) < old(Total(heap.Values()[..heap.size]))
  {
    hide Tracks, Phase, Total, TopTwo, Extends, TwoNonzero, IsMaxHeap, IsPermutation, LimbPower, Normal, InitialSize;
    limbsize' := ShrinkWindow(heap, max1, max2, limbsize);
    var top1: nat, top2: nat;
    top1, top2, extended' := ExtendWhenSmall(g, heap, count, max1, max2, limbsize', extended, s0, p0, started);
    FinishRound(g, heap, count, top1, top2, limbsize', extended', s0, p0);
  }

  // ---- the whole multiplication ----

  /** How many of the scalars ever enter the heap: all, or the first half. */
  ghost function Covered(s: seq<nat>): (m: nat)
    ensures m <= |s|
  {
    if Extends(s[..Min(InitialSize(|s|), |s|)]) then |s| else Min(InitialSize(|s|), |s|)
  }

  /** The combination of the first m entries with the coefficients divided by d. */
  function Root<P>(g: Group<P>, s: seq<nat>, p: seq<P>, m: nat, d: nat): P
    requires m <= |s| && m <= |p|
  {
    LinearCombination(g, Quotients(s, d), p, m)
  }

  /**
   What the multiplication returns, with d the gcd of the covered scalars: the
   combination of the covered entries with all coefficients divided by d, times the
   coefficient that the final step makes of d.
   */
  ghost function Result<P>(g: Group<P>, s: seq<nat>, p: seq<P>): Option<P>
    requires |s| == |p|
  {
    var m := Covered(s);
    var d := Gcd(s[..m]);
    var c := FinalCoefficient(d);
    if c.None? then None else Some(Times(g, c.value, Root(g, s, p, m, d)))
  }

  /** When only the root is left it is the gcd, and its point is determined. */
  lemma OnlyRootLeft<P(!new)>(g: Group<P>, s0: seq<nat>, p0: seq<P>, v: seq<nat>, p: seq<P>, n: nat, max1: nat, max2: nat)
    requires IsAbelian(g) && Tracks(g, s0, p0, v, p, n) && TopTwo(v, n, max1, max2) && v[max2] == 0
    ensures v[max1] == Gcd(s0[..n])
    ensures v[max1] >= 1 ==> p[max1] == Root(g, s0, p0, n, v[max1])
  {
    hide Spans, LinearCombination;
    SingleGcd(v[..n], max1);
    var K :| Spans(g, K, s0, p0, v, p, n);
    if v[max1] >= 1 {
      SpansRoot(g, K, s0, p0, v, p, n, max1);
    }
  }

  lemma SpansShape<P>(g: Group<P>, K: seq<seq<int>>, s0: seq<nat>, p0: seq<P>, v: seq<nat>, p: seq<P>, n: nat)
    requires Spans(g, K, s0, p0, v, p, n)
    ensures Square(K) && |K| == |s0| == |p0| == |v| == |p|
  {
  }

  /** A run that ends without extension is one whose first half does not extend. */
  lemma EndsUnextended(s0: seq<nat>, v: seq<nat>, n0: nat, started: bool, max1: nat, max2: nat)
    requires Phase(s0, v, n0, started, false) && TopTwo(v, n0, max1, max2) && v[max2] == 0
    requires v[max1] == Gcd(s0[..n0])
    ensures !Extends(s0[..n0])
  {
    if started {
      var a, b :| 0 <= a < n0 && 0 <= b < n0 && a != b && v[b] >= 1 && v[a] + v[b] >= TWO128;
    } else {
      forall i, j | 0 <= i < n0 && 0 <= j < n0 && i != j
        ensures s0[..n0][i] == 0 || s0[..n0][j] == 0
      {
      }
    }
  }

  lemma ResultHolds<P(!new)>(g: Group<P>, s0: seq<nat>, p0: seq<P>, count: nat, v: seq<nat>, p: seq<P>, n: nat,
                             started: bool, extended: bool, max1: nat, max2: nat, r: Option<P>)
    requires IsAbelian(g) && Sized(n, count, s0, p0, extended)
    requires Tracks(g, s0, p0, v, p, n) && TopTwo(v, n, max1, max2) && v[max2] == 0
    requires Phase(s0, v, InitialSize(count), started, extended)
    requires r == (var c := FinalCoefficient(v[max1]); if c.None? then None else Some(Times(g, c.value, p[max1])))
    ensures r == Result(g, s0[..count], p0[..count])
  {
    hide LinearCombination, Times, FinalCoefficient;
    var n0 := InitialSize(count);
    var s, q := s0[..count], p0[..count];
    OnlyRootLeft(g, s0, p0, v, p, n, max1, max2);
    if !extended {
      EndsUnextended(s0, v, n0, started, max1, max2);
    }
    assert s[..n0] == s0[..n0];
    assert Covered(s) == n;
    assert s[..n] == s0[..n];
    var d := v[max1];
    if d >= 1 {
      SameCombination(g, Quotients(s, d), q, Quotients(s0, d), p0, n);
    } else {
      NothingLeft(g, p[max1], Root(g, s, q, n, d));
    }
  }

  lemma NothingLeft<P>(g: Group<P>, x: P, y: P)
    ensures FinalCoefficient(0) == Some(0) && Times(g, 0, x) == Times(g, 0, y)
  {
  }

  /** Lines 108-130. The second half of the scalars are the 128-bit random ones. */
  method MultiScalarMultVartime<P(!new)>(g: Group<P>, heap: Batch<P>, count: nat) returns (r: Option<P>)
    requires IsAbelian(g) && heap.Shaped()
    requires count % 2 == 1 && 3 <= count <= HEAP_BATCH_SIZE
    requires forall i :: InitialSize(count) <= i < count ==> heap.Values()[i] < TWO128
    modifies heap`size, heap`pos, heap.heap, heap.scalars, heap.points
    ensures r == Result(g, old(heap.Values()[..count]), old(heap.points[..count]))
  {
    hide LinearCombination, Gcd, TwoNonzero, LargePair, IsMaxHeap, IsPermutation, LimbPower, Normal, InitialSize,
         Phase, Tracks, Total, Result;
    ghost var s0, p0 := heap.Values(), heap.points[..];
    InitialSizeIsOdd(count);
    heap.HeapBuild(InitialSize(count));
    heap.WholeWindow();
    StartOfRun(g, s0, p0, InitialSize(count));
    var limbsize: nat, extended := LIMB_SIZE - 1, false;
    ghost var started := false;
    while true
      invariant Running(g, heap, count, s0, p0, limbsize, started, extended)
      invariant !started ==> limbsize == LIMB_SIZE - 1
      decreases !extended, Total(heap.Values()[..heap.size])
    {
      var max1, max2 := heap.HeapGetTop2(limbsize);
      var done := heap.IsZero(max2);
      if done {
        r := MultiScalarMultFinal(g, heap.points[max1], heap.scalars[max1]);
        ResultHolds(g, s0, p0, count, heap.Values(), heap.points[..], heap.size, started, extended, max1, max2, r);
        return;
      }
      limbsize, extended := Round(g, heap, count, max1, max2, limbsize, extended, s0, p0, started);
      started := true;
    }
  }

  lemma StartOfRun<P(!new)>(g: Group<P>, s0: seq<nat>, p0: seq<P>, n0: nat)
    requires IsAbelian(g) && |s0| == |p0| && n0 <= |s0|
    ensures Tracks(g, s0, p0, s0, p0, n0) && Phase(s0, s0, n0, false, false)
  {
    hide Spans;
    SpansStart(g, s0, p0, n0);
  }
}
