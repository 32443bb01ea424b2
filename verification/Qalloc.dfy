/**
 A block allocator. Allocations are cut from the current block one after the other,
 each with a back pointer to its block in front; a block whose allocations are all
 gone is recycled whole through a free list.

 Line numbers are those of src/ripple/basics/qalloc.h.
 */
module Qalloc {
  import opened Bits

  const PTR: nat := 8                 // sizeof(block*), and its alignment
  const HEADER: nat := 40                 // sizeof(block)
  const BLOCK_SIZE: nat := 256 * 1024
  const MALLOC_ALIGN: nat := 16

  // ---- arithmetic ----

  function Pad(p: nat, align: nat): (r: nat)
    requires align >= 1
    ensures r < align
  {
    (align - p % align) % align
  }

  lemma PadAligns(p: nat, align: nat)
    requires align >= 1
    ensures (p + Pad(p, align)) % align == 0
  {
    var q, r := p / align, p % align;
    assert p == q * align + r;
    if r == 0 {
      ModUnique(align, align, 1, 0);
      ModUnique(p, align, q, 0);
    } else {
      ModUnique(align - r, align, 0, align - r);
      Distribute(q, 1, align);
      ModUnique(p + (align - r), align, q + 1, 0);
    }
  }

  lemma PadOfAligned(p: nat, align: nat)
    requires align >= 1 && p % align == 0
    ensures Pad(p, align) == 0
  {
    ModUnique(align, align, 1, 0);
  }

  /** `x & ~(align - 1)` */
  function RoundDown(x: nat, align: nat): nat
    requires align <= W64
  {
    And(x, W64 - align)
  }

  lemma RoundDownIs(x: nat, k: nat)
    requires k <= 64 && x < W64
    ensures Pow2(k) <= W64 && RoundDown(x, Pow2(k)) == x - x % Pow2(k)
  {
    hide Pow2, And, Shl, Shr;
    ComplementIsShifted(k);
    AndShiftedMask(x, Pow2(64 - k) - 1, k);
    KeepHigh(x, k);
    ShlIsMul(x / Pow2(k), k);
    assert x == x / Pow2(k) * Pow2(k) + x % Pow2(k);
  }

  lemma ComplementIsShifted(k: nat)
    requires k <= 64
    ensures Pow2(k) <= W64 && Shl(Pow2(64 - k) - 1, k) == W64 - Pow2(k)
  {
    hide Pow2, Shl;
    Pow2Values();
    Pow2Add(64 - k, k);
    Pow2Monotone(k, 64);
    ShlIsMul(Pow2(64 - k) - 1, k);
    MulDifference(Pow2(64 - k), 1, Pow2(k));
  }

  lemma KeepHigh(x: nat, k: nat)
    requires k <= 64 && x < W64
    ensures And(Shr(x, k), Pow2(64 - k) - 1) == x / Pow2(k)
  {
    hide Pow2, And, Shr;
    Pow2Values();
    Pow2Add(k, 64 - k);
    ShrIsDiv(x, k);
    AndMask(Shr(x, k), 64 - k);
    QuotientBelow(x, Pow2(k), Pow2(64 - k));
    ModUnique(x / Pow2(k), Pow2(64 - k), 0, x / Pow2(k));
  }

  /** Lines 198-203: what is asked of malloc for a new block. */
  function FreshSize(bytes: nat, align: nat): nat
    requires align <= W64
  {
    var adj := Max(align, PTR);
    Max(BLOCK_SIZE, RoundDown(HEADER + PTR + bytes + (adj - 1), adj))
  }

  /** The room that an allocation takes from a block whose free space starts at free. */
  function Need(free: nat, bytes: nat, align: nat): nat {
    Pad(free + PTR, Max(align, PTR)) + PTR + bytes
  }

  ghost predicate IsAlignment(align: nat) {
    exists k :: 0 <= k < 63 && align == Pow2(k)
  }

  /** The larger of an alignment and that of a pointer is an alignment. */
  lemma AdjustedAlignment(align: nat) returns (k: nat)
    requires IsAlignment(align)
    ensures 3 <= k < 63 && Max(align, PTR) == Pow2(k)
  {
    assert Pow2(3) == PTR;
    k :| 0 <= k < 63 && align == Pow2(k);
    if k < 3 {
      Pow2Monotone(k, 3);
      k := 3;
    } else {
      Pow2Monotone(3, k);
    }
  }

  /** The size of a new block: the smallest multiple of the alignment that holds header, back pointer and bytes, or more. */
  lemma FreshSizeIs(bytes: nat, align: nat)
    requires IsAlignment(align) && bytes + 2 * align + 64 < W64
    ensures align <= W64
    ensures var adj := Max(align, PTR);
            var m := HEADER + PTR + bytes;
            FreshSize(bytes, align) == Max(BLOCK_SIZE, if m % adj == 0 then m else m + adj - m % adj)
  {
    hide And, Pow2;
    var k := AdjustedAlignment(align);
    var adj := Max(align, PTR);
    var m := HEADER + PTR + bytes;
    RoundDownIs(m + (adj - 1), k);
    hide RoundDown;
    var q, r := m / adj, m % adj;
    assert m == q * adj + r;
    if r == 0 {
      ModUnique(m + (adj - 1), adj, q, adj - 1);
    } else {
      Distribute(q, 1, adj);
      ModUnique(m + (adj - 1), adj, q + 1, r - 1);
    }
  }

  lemma FreshHolds(bytes: nat, align: nat)
    requires IsAlignment(align) && bytes + 2 * align + 64 < W64
    ensures align <= W64 && FreshSize(bytes, align) >= HEADER + PTR + bytes && FreshSize(bytes, align) >= BLOCK_SIZE
  {
    hide FreshSize;
    FreshSizeIs(bytes, align);
  }

  /** The first allocation in a new block at base succeeds. */
  predicate FitsFresh(base: nat, bytes: nat, align: nat)
    requires align <= W64
  {
    Need(base + HEADER, bytes, align) <= FreshSize(bytes, align) - HEADER
  }

  /** It does wherever malloc puts the block. */
  ghost predicate AlwaysFits(bytes: nat, align: nat)
    requires align <= W64
  {
    forall base: nat :: base % MALLOC_ALIGN == 0 ==> FitsFresh(base, bytes, align)
  }

  /** What a caller can check: the alignment is that of malloc, or the request leaves room, or rounding leaves enough. */
  predicate SureToFit(bytes: nat, align: nat)
    requires align >= 1
  {
    align <= MALLOC_ALIGN || align + 32 + bytes <= BLOCK_SIZE || 1 <= (HEADER + PTR + bytes) % align <= 16
  }

  /** Alignments above 16 are multiples of 32. */
  lemma WideAlignment(align: nat) returns (h: nat)
    requires IsAlignment(align)
    ensures align >= 1 && (align > MALLOC_ALIGN ==> h >= 1 && align == 32 * h)
    ensures align <= MALLOC_ALIGN ==> Max(align, PTR) == 8 || Max(align, PTR) == 16
  {
    hide Pow2;
    var k :| 0 <= k < 63 && align == Pow2(k);
    Pow2Small();
    h := 0;
    if k >= 5 {
      Pow2Add(k - 5, 5);
      h := Pow2(k - 5);
    } else {
      assert k == 0 || k == 1 || k == 2 || k == 3 || k == 4;
    }
  }

  lemma PadIs(x: nat, align: nat, q: nat, r: nat)
    requires 0 <= r < align && x == q * align + r
    ensures Pad(x, align) == if r == 0 then 0 else align - r
  {
    ModUnique(x, align, q, r);
    if r == 0 {
      ModUnique(align, align, 1, 0);
    } else {
      ModUnique(align - r, align, 0, align - r);
    }
  }

  lemma DivMod(x: nat, m: nat) returns (q: nat, r: nat)
    requires m >= 1
    ensures 0 <= r < m && x == q * m + r
  {
    q, r := x / m, x % m;
  }

  lemma RemainderOfSixteens(u: nat, q: nat, h: nat, r: nat) returns (w: int)
    requires 16 * u == q * (32 * h) + r
    ensures r == 16 * w
  {
    Reassociate(q, h, 32);
    w := u - 2 * (q * h);
  }

  /** In blocks that malloc aligned, the padding to such an alignment is at most 16 short of it. */
  lemma WidestPad(u: nat, h: nat)
    requires h >= 1
    ensures Pad(16 * u, 32 * h) <= 32 * h - 16
  {
    hide Pad;
    var q, r := DivMod(16 * u, 32 * h);
    var w := RemainderOfSixteens(u, q, h, r);
    PadIs(16 * u, 32 * h, q, r);
  }

  /** And on one of them it is that: a block at align - 32. */
  lemma WorstBase(align: nat, h: nat)
    requires h >= 1 && align == 32 * h
    ensures (align - 32) % MALLOC_ALIGN == 0 && Pad(align - 32 + HEADER + PTR, align) == align - 16
  {
    hide Pad;
    ModUnique(align - 32, 16, 2 * h - 2, 0);
    PadIs(align + 16, align, 1, 16);
  }

  /** A request fits a new block wherever malloc puts it, if and only if the caller's condition holds. */
  lemma AlwaysFitsIff(bytes: nat, align: nat)
    requires IsAlignment(align) && bytes + 2 * align + 64 < W64
    ensures 1 <= align <= W64 && (AlwaysFits(bytes, align) <==> SureToFit(bytes, align))
  {
    hide FreshSize, Pad;
    FreshSizeIs(bytes, align);
    var h := WideAlignment(align);
    if SureToFit(bytes, align) {
      forall base: nat | base % MALLOC_ALIGN == 0 ensures FitsFresh(base, bytes, align) {
        if align <= MALLOC_ALIGN {
          PadOfAligned(base + HEADER + PTR, Max(align, PTR));
        } else {
          WidestPad(base / 16 + 3, h);
        }
      }
    } else {
      WorstBase(align, h);
      assert !FitsFresh(align - 32, bytes, align);
    }
  }

  /** 32-byte alignment on a block at 32: the rounding and the padding together do not fit. */
  lemma OverAlignedFails()
    ensures IsAlignment(32) && !FitsFresh(32, BLOCK_SIZE + 16, 32)
  {
    assert Pow2(5) == 32;
    FreshSizeIs(BLOCK_SIZE + 16, 32);
    hide FreshSize;
  }

  lemma PlacedAligned(free: nat, align: nat)
    requires IsAlignment(align)
    ensures var adj := Max(align, PTR);
            var p := free + Pad(free + PTR, adj) + PTR;
            adj >= 1 && p % adj == 0 && p % PTR == 0 && Pad(p - PTR, PTR) == 0
  {
    hide Pow2, Pad;
    var adj := Max(align, PTR);
    PadAligns(free + PTR, adj);
    var k := AdjustedAlignment(align);
    var p := free + Pad(free + PTR, adj) + PTR;
    PowerOfAtLeastEight(p, k);
    PadOfAligned(p - PTR, PTR);
  }

  /** The least address that is aligned and leaves room for the back pointer behind free. */
  predicate Placed(p: nat, free: nat, align: nat) {
    p % Max(align, PTR) == 0 && free + PTR <= p < free + PTR + Max(align, PTR)
  }

  /** A request fits exactly when an aligned region with its back pointer does, anywhere in the free space. */
  lemma NeedIff(free: nat, remain: nat, bytes: nat, align: nat)
    ensures Need(free, bytes, align) <= remain <==>
              exists p: nat :: p % Max(align, PTR) == 0 && free + PTR <= p && p + bytes <= free + remain
  {
    var adj := Max(align, PTR);
    var q := free + PTR + Pad(free + PTR, adj);
    PadAligns(free + PTR, adj);
    if p: nat :| p % adj == 0 && free + PTR <= p && p + bytes <= free + remain {
      LeastAligned(p, q, adj);
    }
  }

  lemma LeastAligned(p: nat, q: nat, adj: nat)
    requires adj >= 1 && p % adj == 0 && q % adj == 0 && q < p + adj
    ensures q <= p
  {
    var i, j := p / adj, q / adj;
    assert p == i * adj && q == j * adj;
    if j > i {
      MulStrict(i, j, adj);
    }
  }

  // ---- blocks ----

  /** The back-pointer words: words[p] is the word in front of address p. */
  class Memory {
    var words: map<nat, Block>

    constructor ()
      ensures words == map[]
    {
      words := map[];
    }
  }

  class Block {
    const base: nat
    const bytes: nat
    var count: nat
    var remain: nat
    var free: nat
    var next: Block?

    constructor (base: nat, size: nat)
      requires size >= HEADER
      ensures this.base == base && this.bytes == size - HEADER && Full()
    {
      this.base := base;
      this.bytes := size - HEADER;
      count, remain, free, next := 0, size - HEADER, base + HEADER, null;
    }

    /** As new: nothing allocated, all of it free. */
    predicate Full()
      reads `count, `remain, `free
    {
      count == 0 && remain == bytes && free == base + HEADER
    }

    /** The free space is the tail of the block. */
    predicate Ok()
      reads `remain, `free
    {
      base + HEADER <= free && free + remain == base + HEADER + bytes
    }

    predicate Fits(bytes: nat, align: nat)
      reads this
    {
      Need(free, bytes, align) <= remain
    }

    /** An aligned address with its back pointer in the free space, or null, which is 0. */
    method Allocate(memory: Memory, bytes: nat, align: nat) returns (p: nat)
      requires Ok() && IsAlignment(align)
      modifies `count, `remain, `free, memory
      ensures p != 0 <==> old(Fits(bytes, align))
      ensures p == 0 ==> unchanged(this) && unchanged(memory)
      ensures p != 0 ==> Ok() && count == old(count) + 1 && free == p + bytes && old(free) + PTR <= p
      ensures p != 0 ==> Placed(p, old(free), align) && p % PTR == 0
      ensures p != 0 ==> memory.words == old(memory.words)[p := this]
    {
      hide Pad, Max, IsAlignment;
      PlacedAligned(free, align);
      var adj := Max(align, PTR);
      var n0 := Pad(free + PTR, adj);
      var n1 := n0 + PTR + bytes;
      if remain < n1 {
        return 0;
      }
      p := free + n0 + PTR;
      assert Pad(p - PTR, PTR) == 0;
      memory.words := memory.words[p := this];
      count := count + 1;
      free := free + n1;
      remain := remain - n1;
    }

    method Deallocate() returns (empty: bool)
      requires count > 0 && Ok()
      modifies `count, `remain, `free
      ensures Ok() && empty == (old(count) == 1) && count == old(count) - 1
      ensures if empty then Full() else free == old(free) && remain == old(remain)
    {
      count := count - 1;
      if count > 0 {
        return false;
      }
      remain := bytes;
      free := base + HEADER;
      return true;
    }
  }

  lemma PowerOfAtLeastEight(p: nat, k: nat)
    requires k >= 3 && p % Pow2(k) == 0
    ensures p % PTR == 0
  {
    assert Pow2(3) == PTR;
    hide Pow2;
    Pow2Add(k - 3, 3);
    var q := p / Pow2(k);
    assert p == q * Pow2(k);
    Reassociate(q, Pow2(k - 3), PTR);
    ModUnique(p, PTR, q * Pow2(k - 3), 0);
  }

  /** The sizes of that run. */
  lemma LeakingSizes()
    ensures IsAlignment(32) && IsAlignment(8) && !FitsFresh(32, BLOCK_SIZE + 16, 32)
    ensures FreshSize(BLOCK_SIZE + 16, 32) == BLOCK_SIZE + 64
    ensures Need(32 + HEADER, BLOCK_SIZE + 24, 8) > BLOCK_SIZE + 64 - HEADER && SureToFit(BLOCK_SIZE + 24, 8)
  {
    assert Pow2(5) == 32 && Pow2(3) == 8;
    OverAlignedFails();
    FreshSizeIs(BLOCK_SIZE + 16, 32);
    hide FreshSize;
  }

  // ---- what every operation keeps ----

  /** An allocation that has not been freed: its block and its size. */
  datatype Live = Live(block: Block, bytes: nat)

  function End(b: Block): nat {
    b.base + HEADER + b.bytes
  }

  /** Blocks do not overlap. */
  ghost predicate Apart(blocks: set<Block>) {
    forall b, c :: b in blocks && c in blocks && b != c ==> End(b) <= c.base || End(c) <= b.base
  }

  lemma ApartPair(blocks: set<Block>, b: Block, c: Block)
    requires Apart(blocks) && b in blocks && c in blocks
    ensures b == c || End(b) <= c.base || End(c) <= b.base
  {
  }

  ghost function LiveIn(live: map<nat, Live>, b: Block): set<nat> {
    set p | p in live && live[p].block == b
  }

  /** Every live region, back pointer and all, is in the used part of its block. */
  ghost predicate Inside(blocks: set<Block>, live: map<nat, Live>)
    reads blocks`free
  {
    forall p :: p in live ==>
      && live[p].block in blocks && live[p].block.base + HEADER + PTR <= p
      && p + live[p].bytes <= live[p].block.free && p % PTR == 0
  }

  /** Live regions of one block do not overlap. */
  ghost predicate Disjoint(live: map<nat, Live>) {
    forall p, q :: p in live && q in live && p < q && live[p].block == live[q].block ==> p + live[p].bytes + PTR <= q
  }

  ghost predicate Counted(blocks: set<Block>, live: map<nat, Live>)
    reads blocks`count, blocks`remain, blocks`free
  {
    forall b :: b in blocks ==> b.Ok() && b.count == |LiveIn(live, b)|
  }

  ghost predicate Remembered(words: map<nat, Block>, live: map<nat, Live>) {
    forall p :: p in live ==> p in words && words[p] == live[p].block
  }

  /** head is a list of the given blocks, each as new and none twice. */
  ghost predicate Listed(head: Block?, list: seq<Block>)
    reads list
  {
    if list == [] then head == null
    else head == list[0] && list[0].Full() && list[0] !in list[1..] && Listed(list[0].next, list[1..])
  }

  lemma {:induction false} ListedFull(head: Block?, list: seq<Block>)
    requires Listed(head, list)
    ensures forall b :: b in list ==> b.Full()
  {
    if list != [] {
      ListedFull(list[0].next, list[1..]);
      assert list == [list[0]] + list[1..];
    }
  }

  lemma {:induction false} ListedDistinct(head: Block?, list: seq<Block>)
    requires Listed(head, list)
    ensures forall i, j :: 0 <= i < j < |list| ==> list[i] != list[j]
  {
    if list != [] {
      ListedDistinct(list[0].next, list[1..]);
      forall i, j | 0 <= i < j < |list| ensures list[i] != list[j] {
        assert list[j] == list[1..][j - 1];
        assert i > 0 ==> list[i] == list[1..][i - 1];
      }
    }
  }

  lemma LiveInAdd(live: map<nat, Live>, p: nat, l: Live, b: Block)
    requires p !in live
    ensures |LiveIn(live[p := l], b)| == |LiveIn(live, b)| + (if l.block == b then 1 else 0)
  {
    assert LiveIn(live[p := l], b) == LiveIn(live, b) + (if l.block == b then {p} else {});
  }

  /** The block of a live region counts it. */
  lemma OwnerInUse(blocks: set<Block>, live: map<nat, Live>, p: nat)
    requires Inside(blocks, live) && Counted(blocks, live) && p in live
    ensures live[p].block in blocks && live[p].block.count > 0
  {
    assert p in LiveIn(live, live[p].block);
  }

  lemma NoneLeft(live: map<nat, Live>, b: Block)
    ensures |LiveIn(live, b)| == 0 ==> forall p :: p in live ==> live[p].block != b
  {
    if |LiveIn(live, b)| == 0 {
      forall p | p in live ensures live[p].block != b {
        assert p !in LiveIn(live, b);
      }
    }
  }

  lemma LiveInRemove(live: map<nat, Live>, p: nat, b: Block)
    requires p in live
    ensures |LiveIn(live - {p}, b)| == |LiveIn(live, b)| - (if live[p].block == b then 1 else 0)
  {
    assert LiveIn(live - {p}, b) == LiveIn(live, b) - (if live[p].block == b then {p} else {});
  }

  /** The addresses beyond the free pointer are clear of everything that is live. */
  lemma FreshAddresses(blocks: set<Block>, live: map<nat, Live>, b: Block)
    requires Apart(blocks) && Inside(blocks, live) && Counted(blocks, live) && b in blocks
    ensures forall p :: p in live ==> p < b.free + PTR || End(b) < p
    ensures forall q :: q in live && live[q].block == b ==> q + live[q].bytes <= b.free
  {
    forall p | p in live ensures p < b.free + PTR || End(b) < p {
      var c := live[p].block;
      assert c.Ok();
      assert b != c ==> End(b) <= c.base || End(c) <= b.base;
    }
  }

  lemma DisjointAdd(live: map<nat, Live>, p: nat, l: Live)
    requires Disjoint(live) && forall q :: q in live && live[q].block == l.block ==> q + live[q].bytes + PTR <= p
    ensures Disjoint(live[p := l])
  {
  }

  lemma RemoveLive(words: map<nat, Block>, live: map<nat, Live>, p: nat)
    requires Disjoint(live) && Remembered(words, live)
    ensures Disjoint(live - {p}) && Remembered(words, live - {p})
  {
  }

  lemma RememberedAdd(words: map<nat, Block>, live: map<nat, Live>, p: nat, l: Live)
    requires Remembered(words, live)
    ensures Remembered(words[p := l.block], live[p := l])
  {
  }

  /** A request either leaves the live regions alone or adds one that is new, aligned and of the size asked for. */
  ghost predicate Served(live: map<nat, Live>, live': map<nat, Live>, p: nat, bytes: nat, align: nat) {
    if p == 0 then live' == live
    else p !in live && p in live' && live' == live[p := live'[p]] && live'[p].bytes == bytes && p % Max(align, PTR) == 0
  }

  /** The memory that malloc gives overlaps no block. */
  ghost predicate Clear(blocks: set<Block>, base: nat, size: nat) {
    forall b :: b in blocks ==> base + size <= b.base || End(b) <= base
  }

  // ---- the allocator ----

  class Allocator {
    var used: Block?
    var free: Block?
    const memory: Memory

    ghost var blocks: set<Block>
    ghost var live: map<nat, Live>

    /** The free list. */
    ghost var list: seq<Block>

    /** Blocks given up while empty: current after a request that failed, and too small for the next one. */
    ghost var lost: set<Block>
    ghost var failed: bool

    /** The regions are where they should be, and are counted. */
    ghost predicate Core()
      reads `blocks, `live, memory, blocks`count, blocks`remain, blocks`free
    {
      Apart(blocks) && Inside(blocks, live) && Disjoint(live) && Counted(blocks, live) && Remembered(memory.words, live)
    }

    /** Each block is in one place. */
    ghost predicate Shape()
      reads this, blocks`count, list
    {
      && Listed(free, list)
      && (forall b :: b in list ==> b in blocks && b !in lost)
      && (used != null ==> used in blocks && used !in list && used !in lost)
      && (forall b :: b in lost ==> b in blocks && b.count == 0)
      && (forall b :: b in blocks && b.count == 0 ==> b == used || b in list || b in lost)
      && (!failed ==> lost == {} && (used != null ==> used.count > 0))
    }

    ghost predicate Valid()
      reads this, memory, blocks, list
    {
      Core() && Shape()
    }

    constructor ()
      ensures Valid() && used == null && free == null && blocks == {} && live == map[] && !failed && fresh(memory)
    {
      used, free := null, null;
      memory := new Memory();
      blocks, live, list, lost, failed := {}, map[], [], {}, false;
    }

    /** block::allocate, with the region it hands out. */
    method Cut(b: Block, bytes: nat, align: nat) returns (p: nat)
      requires Core() && b in blocks && IsAlignment(align)
      modifies b, memory, `live
      ensures Core() && b.next == old(b.next)
      ensures p != 0 <==> old(b.Fits(bytes, align))
      ensures p == 0 ==> unchanged(b) && unchanged(memory) && live == old(live)
      ensures p != 0 ==> p !in old(live) && live == old(live)[p := Live(b, bytes)] && b.count == old(b.count) + 1
      ensures p != 0 ==> Placed(p, old(b.free), align)
    {
      hide LiveIn, Max, IsAlignment, Need, Apart, Disjoint, Remembered;
      FreshAddresses(blocks, live, b);
      p := b.Allocate(memory, bytes, align);
      if p != 0 {
        ghost var l := Live(b, bytes);
        DisjointAdd(live, p, l);
        RememberedAdd(old(memory.words), live, p, l);
        forall c | c in blocks ensures |LiveIn(live[p := l], c)| == |LiveIn(live, c)| + (if c == b then 1 else 0) {
          LiveInAdd(live, p, l, c);
        }
        live := live[p := l];
      }
    }

    /** block::deallocate, with the region it takes back. */
    method Release(b: Block, p: nat) returns (empty: bool)
      requires Core() && p in live && b == live[p].block
      modifies b, `live
      ensures Core() && live == old(live) - {p} && b.next == old(b.next)
      ensures empty == (b.count == 0) && b.count == old(b.count) - 1 && (empty ==> b.Full())
    {
      hide Apart, LiveIn, Disjoint, Remembered;
      RemoveLive(memory.words, live, p);
      forall c | c in blocks ensures |LiveIn(live - {p}, c)| == |LiveIn(live, c)| - (if c == b then 1 else 0) {
        LiveInRemove(live, p, c);
      }
      NoneLeft(live - {p}, b);
      empty := b.Deallocate();
      live := live - {p};
    }

    /** Lines 179-186: the current block serves the request or is retired. */
    method TryUsed(bytes: nat, align: nat) returns (p: nat)
      requires Valid() && IsAlignment(align)
      modifies this, memory, blocks
      ensures Valid() && Served(old(live), live, p, bytes, align) && blocks == old(blocks) && failed == old(failed)
      ensures p != 0 <==> old(used != null && used.Fits(bytes, align))
      ensures p == 0 ==> used == null
      ensures p != 0 ==> used == old(used) == live[p].block && used.count == old(used.count) + 1 && Placed(p, old(used.free), align)
      ensures free == old(free) && list == old(list)
      ensures lost == old(lost) + (if old(used != null && used.count == 0 && !used.Fits(bytes, align)) then {old(used)} else {})
      ensures p == 0 && free != null ==> free.free == old(free.free) && free.remain == old(free.remain)
    {
      hide Apart, Disjoint, Inside, Counted, Remembered, Max, IsAlignment, Need;
      p := 0;
      if used != null {
        p := Cut(used, bytes, align);
        if p == 0 {
          if used.count == 0 {
            lost := lost + {used};
          }
          used := null;
        }
      }
    }

    /** Lines 187-197: the first block of the free list serves the request, and is current from then on. */
    method TryFree(bytes: nat, align: nat) returns (p: nat)
      requires Valid() && IsAlignment(align) && used == null
      modifies this, memory, blocks
      ensures Valid() && Served(old(live), live, p, bytes, align) && blocks == old(blocks) && failed == old(failed)
      ensures p != 0 <==> old(free != null && free.Fits(bytes, align))
      ensures p == 0 ==> used == null && free == old(free) && list == old(list)
      ensures p != 0 ==> used == old(free) == live[p].block && used.count == 1 && Placed(p, old(free.free), align)
      ensures p != 0 ==> |old(list)| > 0 && list == old(list)[1..]
      ensures lost == old(lost)
    {
      hide Apart, Disjoint, Inside, Counted, Remembered, Max, IsAlignment, Need;
      p := 0;
      if free != null {
        ghost var tail := list[1..];
        assert list == [list[0]] + tail;
        p := Cut(free, bytes, align);
        if p != 0 {
          assert Listed(free.next, tail);
          used := free;
          free := free.next;
          list := tail;
        }
      }
    }

    /** Lines 198-209: a new block at the address that malloc gives. */
    method FromNew(bytes: nat, align: nat, base: nat) returns (p: nat)
      requires Valid() && IsAlignment(align) && used == null && bytes + 2 * align + 64 < W64
      requires Clear(blocks, base, FreshSize(bytes, align))
      modifies this, memory, blocks
      ensures Valid() && Served(old(live), live, p, bytes, align) && old(blocks) <= blocks && fresh(blocks - old(blocks))
      ensures p != 0 <==> FitsFresh(base, bytes, align)
      ensures lost == old(lost) && used != null && used.base == base && (p == 0 ==> used.Full())
      ensures fresh(used) && blocks == old(blocks) + {used} && list == old(list)
      ensures p != 0 ==> live[p].block == used && used.count == 1 && Placed(p, base + HEADER, align)
      ensures used.bytes == FreshSize(bytes, align) - HEADER
      ensures failed == (old(failed) || p == 0)
    {
      hide Apart, Counted, Disjoint, Inside, Remembered, Max, IsAlignment, Need, FreshSize, Listed, Clear, LiveIn;
      FreshHolds(bytes, align);
      var b := AddBlock(base, FreshSize(bytes, align));
      used := b;
      p := Cut(b, bytes, align);
      assert Listed(free, list);
      if p == 0 {
        failed := true;
      }
    }

    method AddBlock(base: nat, size: nat) returns (b: Block)
      requires Core() && size >= HEADER && Clear(blocks, base, size)
      modifies `blocks
      ensures Core() && fresh(b) && blocks == old(blocks) + {b} && b.base == base && b.bytes == size - HEADER && b.Full()
    {
      hide Disjoint, Remembered;
      b := new Block(base, size);
      assert LiveIn(live, b) == {};
      blocks := blocks + {b};
    }

    /** The current block has room. */
    predicate InUsed(bytes: nat, align: nat)
      reads this, used
    {
      used != null && used.Fits(bytes, align)
    }

    /** The first block of the free list has room. */
    predicate InFree(bytes: nat, align: nat)
      reads this, free
    {
      free != null && free.Fits(bytes, align)
    }

    /**
     An aligned region of the size asked for, with its back pointer in front, apart from
     every other live region; base is where malloc would put a new block. It comes from
     the current block if that has room, else from the first free one if that has, and
     only else from a new one, and at the least address that will do. The result is
     null, which is 0, if and only if the request fits none of the three; the new block
     is then current, and empty. A block is lost exactly when it is current and empty
     and does not fit the request.
     */
    method Allocate(bytes: nat, align: nat, base: nat) returns (p: nat)
      requires Valid() && IsAlignment(align) && bytes + 2 * align + 64 < W64
      requires base % MALLOC_ALIGN == 0
      requires !InUsed(bytes, align) && !InFree(bytes, align) ==> Clear(blocks, base, FreshSize(bytes, align))
      modifies this, memory, blocks
      ensures Valid() && Served(old(live), live, p, bytes, align) && old(blocks) <= blocks && fresh(blocks - old(blocks))
      ensures p == 0 <==> !old(used != null && used.Fits(bytes, align)) && !old(free != null && free.Fits(bytes, align))
                          && !FitsFresh(base, bytes, align)
      ensures old(InUsed(bytes, align)) ==>
                && p != 0 && live[p].block == used == old(used) && blocks == old(blocks) && list == old(list)
                && used.count == old(used.count) + 1 && Placed(p, old(used.free), align)
      ensures old(!InUsed(bytes, align) && InFree(bytes, align)) ==>
                && p != 0 && live[p].block == used == old(free) && blocks == old(blocks) && |old(list)| > 0 && list == old(list)[1..]
                && used.count == 1 && Placed(p, old(free.free), align)
      ensures old(!InUsed(bytes, align) && !InFree(bytes, align)) ==>
                && used != null && fresh(used) && blocks == old(blocks) + {used} && list == old(list)
                && used.base == base && used.bytes == FreshSize(bytes, align) - HEADER
                && (p != 0 ==> live[p].block == used && used.count == 1 && Placed(p, base + HEADER, align))
      ensures SureToFit(bytes, align) ==> p != 0
      ensures p == 0 ==> used != null && used.Full() && used.base == base && used.bytes == FreshSize(bytes, align) - HEADER
      ensures blocks == old(blocks) || (used != null && blocks == old(blocks) + {used})
      ensures lost == old(lost) + (if old(used != null && used.count == 0 && !used.Fits(bytes, align)) then {old(used)} else {})
      ensures failed == (old(failed) || p == 0)
    {
      hide Apart, Disjoint, Inside, Counted, Remembered, Max, IsAlignment, Need, FreshSize, Listed, SureToFit, FitsFresh;
      AlwaysFitsIff(bytes, align);
      p := TryUsed(bytes, align);
      if p != 0 {
        return;
      }
      p := TryFree(bytes, align);
      if p != 0 {
        return;
      }
      p := FromNew(bytes, align, base);
    }

    /** Frees one live region; the last one of a block takes the whole block to the free list. */
    method Deallocate(p: nat)
      requires Valid() && p in live
      modifies this, blocks
      ensures Valid() && live == old(live) - {p} && blocks == old(blocks) && failed == old(failed) && lost == old(lost)
      ensures var b := old(live[p].block);
              if old(b.count) == 1 then b.Full() && list == [b] + old(list) && used == (if old(used) == b then null else old(used))
              else b.count == old(b.count) - 1 && list == old(list) && used == old(used)
    {
      hide Apart, Inside, Disjoint, Counted, LiveIn, Listed;
      OwnerInUse(blocks, live, p);
      var b := memory.words[p];
      hide Remembered;
      ListedFull(free, list);
      assert b !in list;
      var empty := Release(b, p);
      assert Listed(free, list);
      if empty {
        Recycle(b);
      }
    }

    /** Lines 219-222. */
    method Recycle(b: Block)
      requires Core() && Listed(free, list) && b !in list && b.Full() && b in blocks
      modifies `used, `free, `list, b`next
      ensures Core() && Listed(free, list) && list == [b] + old(list) && used == (if old(used) == b then null else old(used))
    {
      hide Apart, Inside, Disjoint, Counted, Remembered;
      if used == b {
        used := null;
      }
      b.next := free;
      free := b;
      list := [b] + list;
      assert list[1..] == old(list);
    }

    /** The destructor: the blocks it gives back to malloc, in order. */
    method Destroy() returns (freed: seq<Block>)
      requires Valid()
      modifies `free
      ensures free == null && freed == (if used == null then [] else [used]) + list
      ensures forall i, j :: 0 <= i < j < |freed| ==> freed[i] != freed[j]
      ensures live == map[] ==> forall b :: b in freed <==> b in blocks && b !in lost
      ensures live == map[] ==> ((forall b :: b in blocks ==> b in freed) <==> lost == {})
    {
      hide Apart, Inside, Disjoint, Remembered;
      if live == map[] {
        LeakedAreLost();
      }
      freed := if used == null then [] else [used];
      ghost var first := freed;
      ghost var rest := list;
      while free != null
        invariant Listed(free, rest) && first + list == freed + rest
        decreases |rest|
      {
        var next := free.next;
        assert rest == [free] + rest[1..];
        assert freed + rest == (freed + [free]) + rest[1..];
        freed := freed + [free];
        free := next;
        rest := rest[1..];
      }
      assert freed == first + list;
      ListedDistinct(old(free), list);
    }

    /** Lines 187-196 serve the request: there is no current block, and the first free one has room. */
    predicate Ready(bytes: nat, align: nat)
      reads this, free
    {
      used == null && InFree(bytes, align)
    }

    /** A request, and its region freed again. A block made for it is then ready for the next. */
    method Pair(bytes: nat, align: nat, base: nat)
      requires Valid() && IsAlignment(align) && bytes + 2 * align + 64 < W64
      requires base % MALLOC_ALIGN == 0 && FitsFresh(base, bytes, align)
      requires !Ready(bytes, align) ==> Clear(blocks, base, FreshSize(bytes, align))
      modifies this, memory, blocks
      ensures Valid() && live == old(live) && failed == old(failed)
      ensures blocks == old(blocks) || (Ready(bytes, align) && fresh(free) && blocks == old(blocks) + {free})
      ensures old(Ready(bytes, align)) ==> Ready(bytes, align) && free == old(free) && blocks == old(blocks)
    {
      hide Apart, Disjoint, Inside, Counted, Remembered, Max, IsAlignment, Need, FreshSize, Placed, SureToFit;
      ListedFull(free, list);
      var p := Allocate(bytes, align, base);
      Deallocate(p);
      assert live == old(live);
    }

    /** However often a request of one size that fits is made and freed again, at most one block is added. */
    method Pairs(n: nat, bytes: nat, align: nat, base: nat)
      requires Valid() && IsAlignment(align) && bytes + 2 * align + 64 < W64
      requires base % MALLOC_ALIGN == 0 && FitsFresh(base, bytes, align) && Clear(blocks, base, FreshSize(bytes, align))
      modifies this, memory, blocks
      ensures Valid() && live == old(live) && failed == old(failed)
      ensures old(blocks) <= blocks && |blocks| <= old(|blocks|) + 1
      ensures old(Ready(bytes, align)) ==> blocks == old(blocks)
    {
      hide Valid, IsAlignment, FitsFresh, Clear;
      for i := 0 to n
        invariant Valid() && live == old(live) && failed == old(failed) && fresh(blocks - old(blocks))
        invariant blocks == old(blocks) || (Ready(bytes, align) && free !in old(blocks) && blocks == old(blocks) + {free})
        invariant old(Ready(bytes, align)) ==> Ready(bytes, align) && blocks == old(blocks)
      {
        Pair(bytes, align, base);
      }
    }

    // ---- what it comes to ----

    /** Live regions, with their back pointers, are apart from one another and within their blocks. */
    lemma RegionsApart(p: nat, q: nat)
      requires Valid() && p in live && q in live && p < q
      ensures p + live[p].bytes <= q - PTR
      ensures live[p].block.base + HEADER <= p - PTR && p + live[p].bytes <= End(live[p].block)
    {
      hide Shape;
      var b, c := live[p].block, live[q].block;
      assert b.Ok() && c.Ok();
      ApartPair(blocks, b, c);
    }

    /** Each block is in exactly one place: current, on the free list, lost, or retired with a live allocation. */
    lemma OnePlace(b: Block)
      requires Valid() && b in blocks
      ensures b == used ==> b !in list && b !in lost
      ensures b in list ==> b != used && b !in lost && b.Full() && LiveIn(live, b) == {}
      ensures b in lost ==> b != used && b !in list && LiveIn(live, b) == {}
      ensures b != used && b !in list && b !in lost ==> LiveIn(live, b) != {}
      ensures !failed ==> lost == {} && (b == used ==> LiveIn(live, b) != {})
    {
      ListedFull(free, list);
      assert b.count == |LiveIn(live, b)|;
    }

    /** With nothing live, all blocks are current, listed or lost. */
    lemma LeakedAreLost()
      requires Valid() && live == map[]
      ensures forall b :: b in blocks <==> b == used || b in list || b in lost
      ensures forall b :: b in lost ==> b != used && b !in list
    {
      forall b | b in blocks ensures b.count == 0 {
        assert LiveIn(live, b) == {};
      }
    }
  }

  /**
   A run that leaks: a 32-byte aligned request of 256K + 16 bytes on a block at 32 fails,
   the next request does not fit the empty block, and after everything has been freed
   the destructor does not free it.
   */
  method LeakingRun() returns (a: Allocator, freed: seq<Block>)
    ensures a.live == map[] && exists b :: b in a.blocks && b !in freed
  {
    hide Apart, Disjoint, Inside, Counted, Remembered, Listed, FreshSize, Need, FitsFresh, IsAlignment;
    a := new Allocator();
    LeakingSizes();
    var p := a.Allocate(BLOCK_SIZE + 16, 32, 32);
    assert p == 0;
    ghost var b := a.used;
    var q := a.Allocate(BLOCK_SIZE + 24, 8, BLOCK_SIZE + 96);
    assert b in a.lost;
    a.Deallocate(q);
    freed := a.Destroy();
  }
}
