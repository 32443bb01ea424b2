/**
 Arithmetic modulo p = 2^255 - 19 in five 51-bit limbs: additions and subtractions
 without carries, and multiplication and squaring with one carry chain. Congruence
 modulo p is the meaning; the bounds on the limbs are what keeps the words from
 wrapping.

 Line numbers are those of src/ed25519-donna/curve25519-donna-64bit.h.
 */
module Field {
  import opened Bits

  const PRIME: nat := 0x7fff_ffff_ffff_ffff_ffff_ffff_ffff_ffff_ffff_ffff_ffff_ffff_ffff_ffff_ffff_ffed

  const R: nat := 0x8_0000_0000_0000      // 2^51
  const R2: nat := R * R
  const R3: nat := R2 * R
  const R4: nat := R3 * R

  /** A field element: five limbs. */
  type Fe = s: seq<nat> | |s| == 5 witness [0, 0, 0, 0, 0]

  function Value(a: Fe): nat {
    a[0] + a[1] * R + a[2] * R2 + a[3] * R3 + a[4] * R4
  }

  predicate Below(a: Fe, bound: nat) {
    a[0] < bound && a[1] < bound && a[2] < bound && a[3] < bound && a[4] < bound
  }

  const TIGHT: nat := R + 0x4_0000        // what products and reduced sums stay below
  const LOOSE: nat := 8 * R               // 2^54: what products take

  // ---- congruence modulo p ----

  /** a and b differ by k times p. */
  predicate Differ(a: int, b: int, k: int) {
    a == b + k * PRIME
  }

  predicate At<T>(m: T, a: int, b: int) { true }

  /** The multiple of p is looked at only through the mark, in the two lemmas that follow. */
  ghost predicate Cong(a: int, b: int) {
    forall m: bool {:trigger At(m, a, b)} :: At(m, a, b) ==> exists k :: Differ(a, b, k)
  }

  lemma CongBy(a: int, b: int, k: int)
    requires a == b + k * PRIME
    ensures Cong(a, b)
  {
    assert Differ(a, b, k);
  }

  lemma CongQuotient(a: int, b: int) returns (k: int)
    requires Cong(a, b)
    ensures a == b + k * PRIME
  {
    assert At(true, a, b);
    k :| Differ(a, b, k);
  }

  lemma CongRefl(a: int)
    ensures Cong(a, a)
  {
    CongBy(a, a, 0);
  }

  lemma CongSym(a: int, b: int)
    requires Cong(a, b)
    ensures Cong(b, a)
  {
    var k := CongQuotient(a, b);
    CongBy(b, a, -k);
  }

  lemma CongTrans(a: int, b: int, c: int)
    requires Cong(a, b) && Cong(b, c)
    ensures Cong(a, c)
  {
    var k := CongQuotient(a, b);
    var j := CongQuotient(b, c);
    CongBy(a, c, k + j);
  }

  lemma CongAdd(a: int, b: int, c: int, d: int)
    requires Cong(a, b) && Cong(c, d)
    ensures Cong(a + c, b + d) && Cong(a - c, b - d)
  {
    var k := CongQuotient(a, b);
    var j := CongQuotient(c, d);
    CongBy(a + c, b + d, k + j);
    CongBy(a - c, b - d, k - j);
  }

  lemma CongMul(a: int, b: int, c: int, d: int)
    requires Cong(a, b) && Cong(c, d)
    ensures Cong(a * c, b * d)
  {
    var k := CongQuotient(a, b);
    var j := CongQuotient(c, d);
    var q := k * d + b * j + k * j * PRIME;
    MulExpand(b, k, d, j, PRIME);
    CongBy(a * c, b * d, q);
  }

  lemma MulExpand(b: int, k: int, d: int, j: int, p: int)
    ensures (b + k * p) * (d + j * p) == b * d + (k * d + b * j + k * j * p) * p
  {
  }

  // ---- additions and subtractions ----

  const TWO_P0: nat := 0xf_ffff_ffff_ffda
  const TWO_P1234: nat := 0xf_ffff_ffff_fffe
  const FOUR_P0: nat := 0x1f_ffff_ffff_ffb4
  const FOUR_P1234: nat := 0x1f_ffff_ffff_fffc

  lemma MultiplesOfP()
    ensures Value([TWO_P0, TWO_P1234, TWO_P1234, TWO_P1234, TWO_P1234]) == 2 * PRIME
    ensures Value([FOUR_P0, FOUR_P1234, FOUR_P1234, FOUR_P1234, FOUR_P1234]) == 4 * PRIME
  {
  }

  /** Limb by limb, without carries. */
  method Add(a: Fe, b: Fe, ghost ba: nat, ghost bb: nat) returns (out: Fe)
    requires Below(a, ba) && Below(b, bb) && ba + bb <= W64
    ensures Below(out, ba + bb) && Value(out) == Value(a) + Value(b)
  {
    hide Value;
    var o0: u64, o1: u64, o2: u64, o3: u64, o4: u64 := a[0] + b[0], a[1] + b[1], a[2] + b[2], a[3] + b[3], a[4] + b[4];
    out := [o0, o1, o2, o3, o4];
    SumValue(a, b, out);
  }

  lemma SumValue(a: Fe, b: Fe, s: Fe)
    requires s == [a[0] + b[0], a[1] + b[1], a[2] + b[2], a[3] + b[3], a[4] + b[4]]
    ensures Value(s) == Value(a) + Value(b)
  {
  }

  /** a + 2p - b, limb by limb: no limb goes below zero. */
  method Sub(a: Fe, b: Fe, ghost ba: nat) returns (out: Fe)
    requires Below(a, ba) && ba <= LOOSE && Below(b, TWO_P0 + 1)
    ensures Below(out, ba + 2 * R) && Value(out) == Value(a) - Value(b) + 2 * PRIME
    ensures Cong(Value(out), Value(a) - Value(b))
  {
    var o0: u64, o1: u64, o2: u64, o3: u64, o4: u64 :=
      a[0] + TWO_P0 - b[0], a[1] + TWO_P1234 - b[1], a[2] + TWO_P1234 - b[2], a[3] + TWO_P1234 - b[3], a[4] + TWO_P1234 - b[4];
    out := [o0, o1, o2, o3, o4];
    MultiplesOfP();
    CongBy(Value(out), Value(a) - Value(b), 2);
  }

  /** a + 4p - b, limb by limb. */
  method SubAfterBasic(a: Fe, b: Fe, ghost ba: nat) returns (out: Fe)
    requires Below(a, ba) && ba <= LOOSE && Below(b, FOUR_P0 + 1)
    ensures Below(out, ba + 4 * R) && Value(out) == Value(a) - Value(b) + 4 * PRIME
    ensures Cong(Value(out), Value(a) - Value(b))
  {
    var o0: u64, o1: u64, o2: u64, o3: u64, o4: u64 :=
      a[0] + FOUR_P0 - b[0], a[1] + FOUR_P1234 - b[1], a[2] + FOUR_P1234 - b[2], a[3] + FOUR_P1234 - b[3],
      a[4] + FOUR_P1234 - b[4];
    out := [o0, o1, o2, o3, o4];
    MultiplesOfP();
    CongBy(Value(out), Value(a) - Value(b), 4);
  }

  /** Carries from limb to limb; c is what leaves the top limb. */
  method CarryChain(u: Fe) returns (o: Fe, c: nat)
    requires Below(u, W64 - 0x4000)
    ensures Below(o, R) && c <= 0x2000 && Value(u) == Value(o) + c * TWO255
  {
    var o0: u64 := u[0];        var c0: u64 := o0 / R; o0 := o0 % R;
    var o1: u64 := u[1] + c0;   var c1: u64 := o1 / R; o1 := o1 % R;
    var o2: u64 := u[2] + c1;   var c2: u64 := o2 / R; o2 := o2 % R;
    var o3: u64 := u[3] + c2;   var c3: u64 := o3 / R; o3 := o3 % R;
    var o4: u64 := u[4] + c3;   c := o4 / R;           o4 := o4 % R;
    o := [o0, o1, o2, o3, o4];
    ChainTelescopes(u, o, c0, c1, c2, c3, c);
  }

  lemma ChainTelescopes(u: Fe, o: Fe, c0: nat, c1: nat, c2: nat, c3: nat, c: nat)
    requires u[0] == o[0] + c0 * R
    requires u[1] + c0 == o[1] + c1 * R
    requires u[2] + c1 == o[2] + c2 * R
    requires u[3] + c2 == o[3] + c3 * R
    requires u[4] + c3 == o[4] + c * R
    ensures Value(u) == Value(o) + c * TWO255
  {
  }

  /** The carry chain, with what leaves the top folded in as 19 times itself. */
  method CarryFold(u: Fe) returns (out: Fe)
    requires Below(u, W64 - 0x4000)
    ensures Below(out, TIGHT) && Cong(Value(out), Value(u))
    ensures Folded(out, u)
  {
    hide Value, Cong;
    var o, c := CarryChain(u);
    var o0: u64 := o[0] + c * 19;
    out := o[0 := o0];
    AddToLowest(o, c * 19);
    BelowTWO255(o);
    ModUnique(Value(u), TWO255, c, Value(o));
    FoldedIs(Value(out), Value(u), c);
  }

  /** What a fold leaves, exactly: one p less for every 2^255. */
  ghost predicate Folded(out: Fe, u: Fe) {
    && Value(out) == Value(u) - Value(u) / TWO255 * PRIME
    && out[0] < R + 19 * (Value(u) / TWO255) && out[1] < R && out[2] < R && out[3] < R && out[4] < R
  }

  lemma FoldedIs(out: int, u: int, c: nat)
    requires out == u - c * TWO255 + c * 19
    ensures out == u - c * PRIME && Cong(out, u)
  {
    CongBy(out, u, 0 - c);
  }

  lemma AddToLowest(a: Fe, x: nat)
    ensures Value(a[0 := a[0] + x]) == Value(a) + x
  {
  }

  lemma BelowTWO255(a: Fe)
    requires Below(a, R)
    ensures Value(a) < TWO255
  {
  }

  method AddReduce(a: Fe, b: Fe) returns (out: Fe)
    requires Below(a, LOOSE) && Below(b, LOOSE)
    ensures Below(out, TIGHT) && Cong(Value(out), Value(a) + Value(b))
  {
    hide Value;
    var s := Add(a, b, LOOSE, LOOSE);
    out := CarryFold(s);
  }

  method SubReduce(a: Fe, b: Fe) returns (out: Fe)
    requires Below(a, LOOSE) && Below(b, FOUR_P0 + 1)
    ensures Below(out, TIGHT) && Cong(Value(out), Value(a) - Value(b))
  {
    hide Value, Cong;
    var s := SubAfterBasic(a, b, LOOSE);
    out := CarryFold(s);
    CongTrans(Value(out), Value(s), Value(a) - Value(b));
  }

  /** 2p - a, carried. */
  method Neg(a: Fe) returns (out: Fe)
    requires Below(a, TWO_P0 + 1)
    ensures Below(out, TIGHT) && Cong(Value(out), 0 - Value(a))
  {
    hide Value, Cong;
    var s := Sub([0, 0, 0, 0, 0], a, 1);
    ZeroValue();
    out := CarryFold(s);
    CongTrans(Value(out), Value(s), 0 - Value(a));
  }

  lemma ZeroValue()
    ensures Value([0, 0, 0, 0, 0]) == 0
  {
  }
}
