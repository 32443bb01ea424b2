/**
 A curve in the sense of the signature scheme exists: the integers modulo L, with 1 as
 base point and numbers encoded as themselves. So what is proved of all curves is not
 proved of none.
 */
module CurveModel {
  import opened Bits
  import opened Options
  import opened Bytes
  import opened Groups
  import opened Modm
  import Digits
  import opened ScalarMult
  import opened Ed25519

  type Residue = x: int | 0 <= x < L witness 0

  function Add(x: Residue, y: Residue): Residue { (x + y) % L }

  function Neg(x: Residue): Residue { (0 - x) % L }

  function Residues(): Group<Residue> { Group(0, Add, Neg) }

  lemma ResiduesAreAbelian()
    ensures IsAbelian(Residues())
  {
    hide Residues, Add, Neg;
    forall x: Residue ensures Residues().add(x, Residues().zero) == x && Residues().add(x, Residues().neg(x)) == Residues().zero {
      ZeroAndNegative(x);
    }
    forall x: Residue, y: Residue ensures Residues().add(x, y) == Residues().add(y, x) {
      Commutes(x, y);
    }
    forall x: Residue, y: Residue, z: Residue
      ensures Residues().add(Residues().add(x, y), z) == Residues().add(x, Residues().add(y, z))
    {
      Associates(x, y, z);
    }
  }

  lemma ZeroAndNegative(x: Residue)
    ensures Residues().add(x, Residues().zero) == x && Residues().add(x, Residues().neg(x)) == Residues().zero
  {
    ModUnique(x, L, 0, x);
    SumOfResidues(0 - x, x);
  }

  lemma Commutes(x: Residue, y: Residue)
    ensures Residues().add(x, y) == Residues().add(y, x)
  {
  }

  lemma Associates(x: Residue, y: Residue, z: Residue)
    ensures Residues().add(Residues().add(x, y), z) == Residues().add(x, Residues().add(y, z))
  {
    SumOfResidues(x + y, z);
    SumOfResidues(y + z, x);
  }

  lemma {:induction false} TimesOne(n: nat)
    ensures Times(Residues(), n, 1) == n % L
  {
    if n != 0 {
      TimesOne(n - 1);
      SumOfResidues(n - 1, 1);
    }
  }

  function Example(): Curve<Residue> {
    var g := Residues();
    Curve(g, 1,
          seq(256, k requires 0 <= k < 256 => Cached(Times(g, (k % 8 + 1) * Digits.Pow(256, k / 8), 1), k / 8 != 0)),
          seq(S2_TABLE_SIZE, i => Cached(Times(g, 2 * i + 1, 1), true)),
          x => ToLE(x, 32),
          b => Some(Neg(LE(b) % L)))
  }

  lemma ExampleIsCurve()
    ensures IsCurve(Example())
  {
    hide Times, LE, ToLE;
    var c := Example();
    ResiduesAreAbelian();
    TimesOne(L);
    ModUnique(L, L, 1, 0);
    forall pos, i | 0 <= pos < 32 && 0 <= i < 8 ensures TableEntry(c.g, c.base, c.baseTable, pos, i) {
      var k := pos * 8 + i;
      assert k % 8 == i && k / 8 == pos;
    }
    forall n: nat ensures DecodesNegative(c, n) {
      TimesOne(n);
      ScalarBytes(n % L);
      ModUnique(n % L, L, 0, n % L);
    }
  }
}
