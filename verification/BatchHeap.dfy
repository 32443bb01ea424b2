/**
 The index heap of the batch verifier: an array of indices into `scalars`, ordered
 as a binary max-heap on the scalars they point at.

 Line numbers are those of src/ed25519-donna/ed25519-donna-batchverify.h.
 */
module BatchHeap {
  import opened Bits
  import opened Scalars

  const HEAP_BATCH_SIZE: nat := 129

  // ---- heaps as sequences ----

  function Parent(k: nat): nat
    requires k >= 1
  {
    (k - 1) / 2
  }

  /** `h` and `pos` are inverse permutations of 0..|h|. */
  ghost predicate IsPermutation(h: seq<nat>, pos: seq<nat>) {
    && |pos| == |h|
    && (forall k :: 0 <= k < |h| ==> h[k] < |h| && pos[h[k]] == k)
    && (forall i :: 0 <= i < |h| ==> pos[i] < |h| && h[pos[i]] == i)
  }

  ghost predicate InRange(h: seq<nat>, v: seq<nat>) {
    forall k :: 0 <= k < |h| ==> h[k] < |v|
  }

  /** Every node but `skip` is at most its parent. */
  ghost predicate HeapExcept(h: seq<nat>, v: seq<nat>, skip: nat)
  {
    InRange(h, v) && forall k :: 1 <= k < |h| && k != skip ==> v[h[k]] <= v[h[Parent(k)]]
  }

  /** Every node is at most its parent. Node 0 has none, so skipping it skips nothing. */
  ghost predicate IsMaxHeap(h: seq<nat>, v: seq<nat>)
  {
    HeapExcept(h, v, 0)
  }

  /** The children of `node` are at most the parent of `node`. */
  ghost predicate Bridged(h: seq<nat>, v: seq<nat>, node: nat)
  {
    InRange(h, v) && 1 <= node < |h| ==> forall k :: 1 <= k < |h| && Parent(k) == node ==> v[h[k]] <= v[h[Parent(node)]]
  }

  /** A heap but for one hole: nothing is said of the hole against its parent or its children. */
  ghost predicate HeapAround(h: seq<nat>, v: seq<nat>, hole: nat)
  {
    && InRange(h, v)
    && (forall k :: 1 <= k < |h| && k != hole && Parent(k) != hole ==> v[h[k]] <= v[h[Parent(k)]])
    && Bridged(h, v, hole)
  }

  function Swap(h: seq<nat>, a: nat, b: nat): (r: seq<nat>)
    requires a < |h| && b < |h|
    ensures |r| == |h|
  {
    h[a := h[b]][b := h[a]]
  }

  lemma SwapKeepsPermutation(h: seq<nat>, pos: seq<nat>, a: nat, b: nat)
    requires IsPermutation(h, pos) && a < |h| && b < |h|
    ensures IsPermutation(Swap(h, a, b), Swap(pos, h[a], h[b]))
  {
  }

  /** The root of a max-heap is a largest scalar. */
  lemma {:induction false} RootIsLargest(h: seq<nat>, v: seq<nat>, k: nat)
    requires IsMaxHeap(h, v) && k < |h|
    ensures v[h[k]] <= v[h[0]]
  {
    if k != 0 {
      RootIsLargest(h, v, Parent(k));
    }
  }

  /** Every node but the root is at most one of the two children of the root. */
  lemma {:induction false} ChildrenAreNextLargest(h: seq<nat>, v: seq<nat>, k: nat)
    requires IsMaxHeap(h, v) && 1 <= k < |h| && |h| >= 3
    ensures v[h[k]] <= v[h[1]] || v[h[k]] <= v[h[2]]
  {
    if k > 2 {
      ChildrenAreNextLargest(h, v, Parent(k));
    }
  }

  /** Shrinking the scalar at the root spoils the heap at the root only. */
  lemma ShrinkRoot(h: seq<nat>, pos: seq<nat>, v: seq<nat>, x: nat)
    requires IsPermutation(h, pos) && IsMaxHeap(h, v) && |h| >= 1
    ensures HeapAround(h, v[h[0] := x], 0)
  {
    var w := v[h[0] := x];
    forall k | 1 <= k < |h| && Parent(k) != 0
      ensures w[h[k]] <= w[h[Parent(k)]]
    {
      assert pos[h[k]] == k && pos[h[0]] == 0 && pos[h[Parent(k)]] == Parent(k);
    }
  }

  /**
   One step of the climb: a node above its parent trades places with it, and the
   only node that may still exceed its parent is the one that moved up.
   */
  lemma ClimbStep(h: seq<nat>, v: seq<nat>, node: nat)
    requires 1 <= node < |h|
    requires HeapExcept(h, v, node) && Bridged(h, v, node)
    requires v[h[Parent(node)]] <= v[h[node]]
    ensures var h' := Swap(h, Parent(node), node);
            HeapExcept(h', v, Parent(node)) && Bridged(h', v, Parent(node))
  {
    var p := Parent(node);
    var h' := Swap(h, p, node);
    forall k | 1 <= k < |h| && k != p
      ensures v[h'[k]] <= v[h'[Parent(k)]]
    {
    }
    if p >= 1 {
      assert v[h[p]] <= v[h[Parent(p)]];
    }
  }

  /**
   One step of the descent: the larger child of the hole moves up, and the hole
   moves to where that child was.
   */
  lemma DescendStep(h: seq<nat>, v: seq<nat>, hole: nat, child: nat)
    requires 2 * hole + 2 < |h|
    requires child == 2 * hole + 1 || child == 2 * hole + 2
    requires HeapAround(h, v, hole)
    requires v[h[2 * hole + 1]] <= v[h[child]] && v[h[2 * hole + 2]] <= v[h[child]]
    ensures var h' := Swap(h, hole, child);
            HeapAround(h', v, child)
  {
    var h' := Swap(h, hole, child);
    assert Parent(child) == hole;
    forall k | 1 <= k < |h| && k != child && Parent(k) != child
      ensures v[h'[k]] <= v[h'[Parent(k)]]
    {
      assert Parent(k) == hole ==> k == 2 * hole + 1 || k == 2 * hole + 2;
    }
    forall k | 1 <= k < |h| && Parent(k) == child
      ensures v[h'[k]] <= v[h'[hole]]
    {
      assert k > child && Parent(k) != hole;
    }
  }

  /** At a leaf the hole has no children, and only its parent matters. */
  lemma HoleAtLeaf(h: seq<nat>, v: seq<nat>, hole: nat)
    requires HeapAround(h, v, hole) && |h| <= 2 * hole + 1
    ensures HeapExcept(h, v, hole) && Bridged(h, v, hole)
  {
  }

  /** Growing the index array by the next index keeps a permutation. */
  lemma AppendKeepsPermutation(h: seq<nat>, pos: seq<nat>)
    requires IsPermutation(h, pos)
    ensures IsPermutation(h + [|h|], pos + [|h|])
  {
  }

  class Batch<P> {
    const points: array<P>
    const scalars: array<Bignum>
    const heap: array<nat>
    var size: nat
    ghost var pos: seq<nat>   // where each index sits in the heap

    /** The arrays have their sizes and every scalar is in normal form. */
    ghost predicate Shaped()
      reads this, scalars
    {
      && points.Length == HEAP_BATCH_SIZE && scalars.Length == HEAP_BATCH_SIZE && heap.Length == HEAP_BATCH_SIZE
      && (points as object) != heap && (points as object) != scalars
      && (forall i :: 0 <= i < HEAP_BATCH_SIZE ==> Normal(scalars[i]))
    }

    /** Moreover the heap holds the indices below `size`, each once. */
    ghost predicate Valid()
      reads this, points, scalars, heap
    {
      && Shaped()
      && size <= HEAP_BATCH_SIZE
      && IsPermutation(heap[..size], pos)
    }

    ghost function Values(): (v: seq<nat>)
      reads scalars
      ensures |v| == scalars.Length && forall i :: 0 <= i < |v| ==> v[i] == Val(scalars[i])
    {
      seq(scalars.Length, i requires 0 <= i < scalars.Length reads scalars => Val(scalars[i]))
    }

    ghost predicate Ordered()
      reads this, points, scalars, heap
      requires Valid()
    {
      IsMaxHeap(heap[..size], Values())
    }

    /** Every scalar in the heap is below 2^(56 (limbsize + 1)). */
    ghost predicate Window(limbsize: nat)
      reads this, points, scalars, heap
      requires Valid()
    {
      limbsize < LIMB_SIZE && forall i :: 0 <= i < size ==> Values()[i] < LimbPower(limbsize + 1)
    }

    /** A batch with room for all entries; its contents do not matter until they are written. */
    constructor (p: P)
      ensures Shaped() && fresh(points) && fresh(scalars) && fresh(heap)
    {
      points := new P[HEAP_BATCH_SIZE](i => p);
      scalars := new Bignum[HEAP_BATCH_SIZE](i => [0, 0, 0, 0, 0]);
      heap := new nat[HEAP_BATCH_SIZE](i => 0);
      size, pos := 0, [];
    }

    method HeapSwap(a: nat, b: nat)
      requires Valid() && a < size && b < size
      modifies heap, this`pos
      ensures Valid()
      ensures heap[..size] == Swap(old(heap[..size]), a, b)
    {
      SwapKeepsPermutation(heap[..size], pos, a, b);
      ghost var h := heap[..size];
      pos := Swap(pos, heap[a], heap[b]);
      var temp := heap[a];
      heap[a] := heap[b];
      heap[b] := temp;
      assert heap[..size] == Swap(h, a, b);
    }

    method LessAt(a: nat, b: nat, limbsize: nat) returns (lt: bool)
      requires Valid() && Window(limbsize) && a < size && b < size
      ensures lt <==> Values()[heap[a]] < Values()[heap[b]]
    {
      lt := LtBatch(scalars[heap[a]], scalars[heap[b]], limbsize);
      assert heap[..size][a] < size && heap[..size][b] < size;
      assert Values()[heap[a]] == Val(scalars[heap[a]]) && Values()[heap[b]] == Val(scalars[heap[b]]);
      BatchComparesValues(scalars[heap[a]], scalars[heap[b]], limbsize);
    }

    method LessEqualAt(a: nat, b: nat, limbsize: nat) returns (lte: bool)
      requires Valid() && Window(limbsize) && a < size && b < size
      ensures lte <==> Values()[heap[a]] <= Values()[heap[b]]
    {
      lte := LteBatch(scalars[heap[a]], scalars[heap[b]], limbsize);
      assert heap[..size][a] < size && heap[..size][b] < size;
      assert Values()[heap[a]] == Val(scalars[heap[a]]) && Values()[heap[b]] == Val(scalars[heap[b]]);
      BatchComparesValues(scalars[heap[a]], scalars[heap[b]], limbsize);
    }

    method HeapInsertNext()
      requires Valid() && size < HEAP_BATCH_SIZE && Ordered()
      modifies heap, this`size, this`pos
      ensures Valid() && Ordered()
      ensures size == old(size) + 1
    {
      var node := size;
      ghost var h0 := heap[..size];
      AppendKeepsPermutation(h0, pos);
      heap[node] := node;
      assert heap[..size] == h0;
      size := size + 1;
      pos := pos + [node];
      assert heap[..size] == h0 + [node];
      WholeWindow();
      Climb(node);
    }

    /** The climb that ends an insertion: up while strictly above the parent. */
    method Climb(start: nat)
      requires Valid() && start < size && Window(LIMB_SIZE - 1)
      requires HeapExcept(heap[..size], Values(), start) && Bridged(heap[..size], Values(), start)
      modifies heap, this`pos
      ensures Valid() && Ordered()
    {
      var node: nat := start;
      var parent: nat := Wrap64(node - 1) / 2;
      while node != 0
        invariant Valid() && node < size && Window(LIMB_SIZE - 1)
        invariant parent == Wrap64(node - 1) / 2
        invariant HeapExcept(heap[..size], Values(), node) && Bridged(heap[..size], Values(), node)
        decreases node
      {
        ParentIndex(node);
        var lt := LessAt(parent, node, LIMB_SIZE - 1);
        if !lt {
          return;
        }
        ClimbStep(heap[..size], Values(), node);
        HeapSwap(parent, node);
        node := parent;
        parent := Wrap64(node - 1) / 2;
      }
    }

    /**
     Restores the heap after the scalar at the root has shrunk: down to a leaf along
     the larger children, without looking at the scalar that is moved, and up again.
     */
    method HeapUpdatedRoot(limbsize: nat)
      requires Valid() && Window(limbsize) && size % 2 == 1 && size >= 3
      requires HeapAround(heap[..size], Values(), 0)
      modifies heap, this`pos
      ensures Valid() && Ordered()
    {
      var node := Descend(limbsize);
      HoleAtLeaf(heap[..size], Values(), node);
      ClimbOver(node, limbsize);
    }

    /** The climb that ends an update: up while at or above the parent. */
    method ClimbOver(start: nat, limbsize: nat)
      requires Valid() && start < size && Window(limbsize)
      requires HeapExcept(heap[..size], Values(), start) && Bridged(heap[..size], Values(), start)
      modifies heap, this`pos
      ensures Valid() && Ordered()
    {
      var node: nat := start;
      var parent: nat := Wrap64(node - 1) / 2;
      while node != 0
        invariant Valid() && node < size && Window(limbsize)
        invariant parent == Wrap64(node - 1) / 2
        invariant HeapExcept(heap[..size], Values(), node) && Bridged(heap[..size], Values(), node)
        decreases node
      {
        ParentIndex(node);
        var lte := LessEqualAt(parent, node, limbsize);
        if !lte {
          return;
        }
        ClimbStep(heap[..size], Values(), node);
        HeapSwap(parent, node);
        node := parent;
        parent := Wrap64(node - 1) / 2;
      }
    }

    method Descend(limbsize: nat) returns (node: nat)
      requires Valid() && Window(limbsize) && size % 2 == 1 && size >= 3
      requires HeapAround(heap[..size], Values(), 0)
      modifies heap, this`pos
      ensures Valid() && Window(limbsize) && node < size <= 2 * node + 1
      ensures HeapAround(heap[..size], Values(), node)
    {
      hide HeapAround, IsPermutation, LimbPower, Normal;
      var parent: nat, childl: nat, childr: nat := 0, 1, 2;
      node := 1;
      while childr < size
        invariant Valid() && Window(limbsize) && parent < size
        invariant childl == 2 * parent + 1 && childr == childl + 1
        invariant HeapAround(heap[..size], Values(), parent)
        invariant parent == 0 || node == parent
        decreases size - parent
      {
        node := LargerChildUp(parent, childl, childr, limbsize);
        parent := node;
        childl := parent * 2 + 1;
        childr := childl + 1;
      }
    }

    method LargerChildUp(parent: nat, childl: nat, childr: nat, limbsize: nat) returns (node: nat)
      requires Valid() && Window(limbsize)
      requires childl == 2 * parent + 1 && childr == childl + 1 < size
      requires HeapAround(heap[..size], Values(), parent)
      modifies heap, this`pos
      ensures Valid() && Window(limbsize) && (node == childl || node == childr)
      ensures HeapAround(heap[..size], Values(), node)
    {
      var lt := LessAt(childl, childr, limbsize);
      node := if lt then childr else childl;
      DescendStep(heap[..size], Values(), parent, node);
      HeapSwap(parent, node);
    }

    method HeapBuild(count: nat)
      requires Shaped() && count <= HEAP_BATCH_SIZE
      modifies heap, this`size, this`pos
      ensures Valid() && Ordered() && size == count
    {
      heap[0] := 0;
      size := 0;
      pos := [];
      while size < count
        invariant Valid() && Ordered() && size <= count
      {
        HeapInsertNext();
      }
    }

    method HeapExtend(newCount: nat)
      requires Valid() && Ordered() && size <= newCount <= HEAP_BATCH_SIZE
      modifies heap, this`size, this`pos
      ensures Valid() && Ordered() && size == newCount
    {
      while size < newCount
        invariant Valid() && Ordered() && size <= newCount
      {
        HeapInsertNext();
      }
    }

    /** The indices of the two largest scalars. */
    method HeapGetTop2(limbsize: nat) returns (max1: nat, max2: nat)
      requires Valid() && Ordered() && Window(limbsize) && size >= 3
      ensures max1 < size && max2 < size && max1 != max2 && max1 == heap[0]
      ensures forall i :: 0 <= i < size ==> Values()[i] <= Values()[max1]
      ensures forall i :: 0 <= i < size && i != max1 ==> Values()[i] <= Values()[max2]
    {
      ghost var h, v := heap[..size], Values();
      assert h[0] < size && h[1] < size && h[2] < size && pos[h[0]] == 0 && pos[h[1]] == 1 && pos[h[2]] == 2;
      max1, max2 := heap[0], heap[1];
      var lt := LessAt(1, 2, limbsize);
      if lt {
        max2 := heap[2];
      }
      forall i | 0 <= i < size
        ensures v[i] <= v[max1] && (i != max1 ==> v[i] <= v[max2])
      {
        assert h[pos[i]] == i;
        RootIsLargest(h, v, pos[i]);
        if i != max1 {
          ChildrenAreNextLargest(h, v, pos[i]);
        }
      }
    }

    /** scalars[a] -= scalars[b], in the limbs of the window. */
    method SubtractScalar(a: nat, b: nat, limbsize: nat)
      requires Shaped() && limbsize < LIMB_SIZE && a < HEAP_BATCH_SIZE && b < HEAP_BATCH_SIZE
      requires Values()[b] <= Values()[a] < LimbPower(limbsize + 1)
      modifies scalars
      ensures Shaped()
      ensures Values() == old(Values()[a := Values()[a] - Values()[b]])
    {
      ghost var v := Values();
      assert v[a] == Val(scalars[a]) && v[b] == Val(scalars[b]);
      SubBatchSubtracts(scalars[a], scalars[b], limbsize);
      var d := SubBatch(scalars[a], scalars[b], limbsize);
      assert Normal(d) && Val(d) == v[a] - v[b];
      scalars[a] := d;
      assert Values() == v[a := v[a] - v[b]];
    }

    /** Whether the scalar at index i is zero in the top limb of the window. */
    method TopLimbClear(i: nat, limbsize: nat) returns (clear: bool)
      requires Shaped() && limbsize < LIMB_SIZE && i < HEAP_BATCH_SIZE
      requires Values()[i] < LimbPower(limbsize + 1)
      ensures clear <==> Values()[i] < LimbPower(limbsize)
    {
      clear := scalars[i][limbsize] == 0;
      assert Values()[i] == Val(scalars[i]);
      TopLimbDecides(scalars[i], limbsize);
    }

    method FitsIn128(i: nat) returns (small: bool)
      requires Shaped() && i < HEAP_BATCH_SIZE
      ensures small <==> Values()[i] < TWO128
    {
      small := IsAtMost128BitsBatch(scalars[i]);
      assert Values()[i] == Val(scalars[i]);
      AtMost128Test(scalars[i]);
    }

    method IsZero(i: nat) returns (zero: bool)
      requires Shaped() && i < HEAP_BATCH_SIZE
      ensures zero <==> Values()[i] == 0
    {
      zero := IsZeroBatch(scalars[i]);
      assert Values()[i] == Val(scalars[i]);
      ZeroOneTests(scalars[i]);
    }

    lemma WholeWindow()
      requires Valid()
      ensures Window(LIMB_SIZE - 1)
    {
      forall i | 0 <= i < size
        ensures Values()[i] < LimbPower(LIMB_SIZE)
      {
        ValBound(scalars[i]);
      }
    }
  }

  /** The parent index of the C code, `(node - 1) / 2` in 64-bit words. */
  lemma ParentIndex(node: nat)
    requires node < HEAP_BATCH_SIZE
    ensures node != 0 ==> Wrap64(node - 1) / 2 == Parent(node)
  {
  }
}
