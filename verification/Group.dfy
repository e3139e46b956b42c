/**
 * The curve as an abstract group with a generator of order L, and little-endian scalars.
 *
 * Curve arithmetic and point encodings belong to a library the relay calls; they are parameters with
 * the laws of an abelian group. Multiples of a point are defined here, and their laws proved.
 */
module Group {
  import opened Wrappers
  import opened Bits

  type Bytes32 = b: seq<byte> | |b| == 32 witness seq(32, _ => 0)
  type Bytes64 = b: seq<byte> | |b| == 64 witness seq(64, _ => 0)

  /** The order of the generator: 2^252 + 27742317777372353535851937790883648493. */
  const L: nat := 7237005577332262213973186563042994240857116359379907606001950938285454250989

  datatype Curve<!P> = Curve(
    zero: P, add: (P, P) -> P, neg: P -> P, base: P,
    encode: P -> Bytes32, decode: seq<byte> -> Option<P>)

  function Mul<P>(g: Curve<P>, n: nat, p: P): P {
    if n == 0 then g.zero else g.add(p, Mul(g, n - 1, p))
  }

  /** An abelian group, a generator of order exactly L, and encodings that decode to their point. */
  ghost predicate Lawful<P(!new)>(g: Curve<P>) {
    && (forall p, q, r :: g.add(g.add(p, q), r) == g.add(p, g.add(q, r)))
    && (forall p, q :: g.add(p, q) == g.add(q, p))
    && (forall p :: g.add(g.zero, p) == p)
    && (forall p :: g.add(g.neg(p), p) == g.zero)
    && (forall p :: g.decode(g.encode(p)) == Some(p))
    && Mul(g, L, g.base) == g.zero
    && (forall n: nat :: 0 < n < L ==> Mul(g, n, g.base) != g.zero)
  }

  /** The order as section 5.1 of RFC 8032 writes it. */
  lemma OrderIsThatOfTheStandard()
    ensures L == Power(2, 252) + 27742317777372353535851937790883648493
  {
    hide Power;
    TwoToTheFourteenth();
    PowerAdds(2, 14, 14);
    assert Power(2, 28) == 0x1000_0000;
    PowerAdds(2, 28, 28);
    assert Power(2, 56) == 0x100_0000_0000_0000;
    PowerAdds(2, 56, 28);
    assert Power(2, 84) == 0x10_0000_0000_0000_0000_0000;
    PowerAdds(2, 84, 84);
    PowerAdds(2, 168, 84);
  }

  lemma TwoToTheFourteenth()
    ensures Power(2, 14) == 0x4000
  {
  }

  // ---------- one instance of each law ----------

  lemma Assoc<P(!new)>(g: Curve<P>, p: P, q: P, r: P)
    requires Lawful(g)
    ensures g.add(g.add(p, q), r) == g.add(p, g.add(q, r))
  {
  }

  lemma Commutes<P(!new)>(g: Curve<P>, p: P, q: P)
    requires Lawful(g)
    ensures g.add(p, q) == g.add(q, p)
  {
  }

  lemma Unit<P(!new)>(g: Curve<P>, p: P)
    requires Lawful(g)
    ensures g.add(g.zero, p) == p && g.add(g.neg(p), p) == g.zero
  {
  }

  lemma Decodes<P(!new)>(g: Curve<P>, p: P)
    requires Lawful(g)
    ensures g.decode(g.encode(p)) == Some(p)
  {
  }

  lemma OrderOfBase<P(!new)>(g: Curve<P>, n: nat)
    requires Lawful(g) && n <= L
    ensures Mul(g, n, g.base) == g.zero <==> n == 0 || n == L
  {
  }

  // ---------- multiples ----------

  lemma {:induction false} MulAdds<P(!new)>(g: Curve<P>, m: nat, n: nat, p: P)
    requires Lawful(g)
    ensures Mul(g, m + n, p) == g.add(Mul(g, m, p), Mul(g, n, p))
  {
    hide Lawful;
    if m == 0 {
      Unit(g, Mul(g, n, p));
    } else {
      MulAdds(g, m - 1, n, p);
      Assoc(g, p, Mul(g, m - 1, p), Mul(g, n, p));
    }
  }

  lemma {:induction false} MulMul<P(!new)>(g: Curve<P>, m: nat, n: nat, p: P)
    requires Lawful(g)
    ensures Mul(g, m * n, p) == Mul(g, m, Mul(g, n, p))
  {
    hide Lawful;
    if m > 0 {
      MulMul(g, m - 1, n, p);
      MulAdds(g, n, (m - 1) * n, p);
      assert m * n == n + (m - 1) * n;
    }
  }

  lemma {:induction false} MulOfZero<P(!new)>(g: Curve<P>, n: nat)
    requires Lawful(g)
    ensures Mul(g, n, g.zero) == g.zero
  {
    hide Lawful;
    Unit(g, g.zero);
    if n > 0 {
      MulOfZero(g, n - 1);
    }
  }

  /** Multiples of the generator only depend on the factor modulo L. */
  lemma MulMod<P(!new)>(g: Curve<P>, n: nat)
    requires Lawful(g)
    ensures Mul(g, n % L, g.base) == Mul(g, n, g.base)
  {
    hide Lawful, Mul;
    var q, r := n / L, n % L;
    MulAdds(g, q * L, r, g.base);
    MulMul(g, q, L, g.base);
    OrderOfBase(g, L);
    MulOfZero(g, q);
    Unit(g, Mul(g, r, g.base));
    assert n == q * L + r;
  }

  lemma Cancel<P(!new)>(g: Curve<P>, p: P, q: P)
    requires Lawful(g)
    ensures g.add(p, q) == p <==> q == g.zero
  {
    hide Lawful;
    Assoc(g, g.neg(p), p, q);
    Commutes(g, p, q);
    Unit(g, p);
    Unit(g, q);
  }

  /** Below L, a multiple of the generator has one factor. */
  lemma MulDiffers<P(!new)>(g: Curve<P>, m: nat, d: nat)
    requires Lawful(g) && 0 < d < L
    ensures Mul(g, m + d, g.base) != Mul(g, m, g.base)
  {
    hide Lawful, Mul;
    MulAdds(g, m, d, g.base);
    OrderOfBase(g, d);
    if Mul(g, m + d, g.base) == Mul(g, m, g.base) {
      Cancel(g, Mul(g, m, g.base), Mul(g, d, g.base));
    }
  }

  lemma MulInjective<P(!new)>(g: Curve<P>, m: nat, n: nat)
    requires Lawful(g) && m < L && n < L
    ensures Mul(g, m, g.base) == Mul(g, n, g.base) <==> m == n
  {
    hide Lawful, Mul;
    if m < n {
      MulDiffers(g, m, n - m);
    } else if n < m {
      MulDiffers(g, n, m - n);
    }
  }

  // ---------- little-endian numbers ----------

  function FromLE(b: seq<byte>): nat {
    if b == [] then 0 else b[0] + 256 * FromLE(b[1..])
  }

  function ToLE(n: nat, len: nat): (b: seq<byte>)
    ensures |b| == len
  {
    if len == 0 then [] else [n % 256] + ToLE(n / 256, len - 1)
  }

  lemma {:induction false} ToLEOfFromLE(b: seq<byte>)
    ensures ToLE(FromLE(b), |b|) == b
  {
    if b != [] {
      ToLEOfFromLE(b[1..]);
      assert FromLE(b) % 256 == b[0] && FromLE(b) / 256 == FromLE(b[1..]);
    }
  }

  lemma {:induction false} FromLEOfToLE(n: nat, len: nat)
    requires n < Power(256, len)
    ensures FromLE(ToLE(n, len)) == n
  {
    if len > 0 {
      FromLEOfToLE(n / 256, len - 1);
    }
  }

  /** Little-endian numbers put the first bytes lowest. */
  lemma {:induction false} FromLEAppend(a: seq<byte>, b: seq<byte>)
    ensures FromLE(a + b) == FromLE(a) + Power(256, |a|) * FromLE(b)
  {
    if a == [] {
      assert a + b == b;
    } else {
      FromLEAppend(a[1..], b);
      assert (a + b)[1..] == a[1..] + b;
      Scaled(FromLE(a[1..]), Power(256, |a| - 1), FromLE(b));
    }
  }

  lemma Scaled(x: nat, p: nat, y: nat)
    ensures 256 * (x + p * y) == 256 * x + 256 * p * y
  {
  }

  lemma {:induction false} FromLEBound(b: seq<byte>)
    ensures FromLE(b) < Power(256, |b|)
  {
    if b != [] {
      FromLEBound(b[1..]);
    }
  }

  lemma ScalarsFit(n: nat)
    requires n < L
    ensures FromLE(ToLE(n, 32)) == n
  {
    hide FromLE, ToLE;
    assert Power(256, 8) == 0x1_0000_0000_0000_0000;
    hide Power;
    PowerAdds(256, 8, 8);
    PowerAdds(256, 16, 16);
    FromLEOfToLE(n, 32);
  }

  lemma {:induction false} PowerAdds(base: nat, a: nat, b: nat)
    ensures Power(base, a + b) == Power(base, a) * Power(base, b)
  {
    if a > 0 {
      PowerAdds(base, a - 1, b);
      var x, y := Power(base, a - 1), Power(base, b);
      assert base * (x * y) == (base * x) * y;
    }
  }

  // ---------- the laws can be met ----------

  type Residue = n: nat | n < L

  function AddResidues(p: Residue, q: Residue): Residue {
    if p + q < L then p + q else p + q - L
  }

  function NegResidue(p: Residue): Residue {
    if p == 0 then 0 else L - p
  }

  function EncodeResidue(p: Residue): Bytes32 {
    ToLE(p, 32)
  }

  function DecodeResidue(b: seq<byte>): Option<Residue> {
    Some(FromLE(b) % L)
  }

  /** The residues modulo L under addition, written as scalars. */
  function Residues(): Curve<Residue> {
    var g: Curve<Residue> := Curve(0, AddResidues, NegResidue, 1, EncodeResidue, DecodeResidue);
    g
  }

  lemma {:induction false} ResidueMultiples(n: nat)
    requires n <= L
    ensures Mul(Residues(), n, 1) == if n == L then 0 else n
  {
    if n > 0 {
      ResidueMultiples(n - 1);
    }
  }

  lemma ResidueLaws(p: Residue, q: Residue, r: Residue)
    ensures AddResidues(AddResidues(p, q), r) == AddResidues(p, AddResidues(q, r))
    ensures AddResidues(p, q) == AddResidues(q, p)
    ensures AddResidues(0, p) == p && AddResidues(NegResidue(p), p) == 0
  {
  }

  lemma ResidueDecodes(p: Residue)
    ensures DecodeResidue(EncodeResidue(p)) == Some(p)
  {
    hide FromLE, ToLE;
    ScalarsFit(p);
  }

  /** So nothing proved from the laws is proved from a contradiction. */
  lemma LawsCanBeMet()
    ensures Lawful(Residues())
  {
    hide AddResidues, NegResidue, EncodeResidue, DecodeResidue, Mul;
    var g := Residues();
    forall p: Residue, q: Residue, r: Residue
      ensures g.add(g.add(p, q), r) == g.add(p, g.add(q, r))
    {
      ResidueLaws(p, q, r);
    }
    forall p: Residue, q: Residue
      ensures g.add(p, q) == g.add(q, p)
    {
      ResidueLaws(p, q, 0);
    }
    forall p: Residue
      ensures g.add(g.zero, p) == p && g.add(g.neg(p), p) == g.zero
    {
      ResidueLaws(p, 0, 0);
    }
    forall p: Residue
      ensures g.decode(g.encode(p)) == Some(p)
    {
      ResidueDecodes(p);
    }
    forall n: nat | n <= L
      ensures Mul(g, n, g.base) == if n == L then 0 else n
    {
      ResidueMultiples(n);
    }
  }
}
