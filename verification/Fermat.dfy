/** Fermat's little theorem, from the reordering of a product. */
module Fermat {
  import opened Arith
  import opened Folds

  function MulInt(x: int, y: int): int {
    x * y
  }

  function Product(s: seq<int>): int {
    Fold(MulInt, 1, s)
  }

  lemma MulIntIsMonoid()
    ensures IsCommutativeMonoid(MulInt, 1)
  {
    forall x, y, z
      ensures AssocAt(MulInt, x, y, z)
    {
      MulSwap(x, 1, y, z);
    }
  }

  lemma ProductPermuted(s: seq<int>, pi: seq<nat>)
    requires IsPermutation(pi) && |pi| == |s|
    ensures Product(Gather(s, pi)) == Product(s)
  {
    MulIntIsMonoid();
    FoldPermuted(MulInt, 1, s, pi);
  }

  lemma ProductCons(x: int, s: seq<int>)
    ensures Product([x] + s) == x * Product(s)
  {
    assert ([x] + s)[1..] == s;
  }

  lemma {:induction false} ProductNonzero(p: int, s: seq<int>)
    requires IsPrime(p)
    requires forall i :: 0 <= i < |s| ==> !Cong(p, s[i], 0)
    ensures !Cong(p, Product(s), 0)
  {
    if s == [] {
      SmallIsNonzero(p, 1);
    } else {
      ProductNonzero(p, s[1..]);
      NonzeroProduct(p, s[0], Product(s[1..]));
    }
  }

  lemma {:induction false} ProductScaled(p: int, a: int, s: seq<int>, t: seq<int>)
    requires |s| == |t|
    requires forall i :: 0 <= i < |s| ==> Cong(p, t[i], a * s[i])
    ensures Cong(p, Product(t), Pow(a, |s|) * Product(s))
  {
    if s == [] {
      CongRefl(p, 1);
    } else {
      ProductScaled(p, a, s[1..], t[1..]);
      var w, r := Pow(a, |s| - 1), Product(s[1..]);
      CongMul(p, t[0], a * s[0], Product(t[1..]), w * r);
      MulSwap(a, s[0], w, r);
    }
  }

  /** Where multiplication by a sends the residue i + 1, counted from zero. */
  function ShiftAt(p: int, a: int, i: int): nat
    requires p > 0
  {
    var r := Canonical(p, a * (i + 1));
    if r == 0 then 0 else r - 1
  }

  lemma ShiftAtRange(p: int, a: int, i: int)
    requires IsPrime(p) && !Cong(p, a, 0) && 0 <= i < p - 1
    ensures ShiftAt(p, a, i) == Canonical(p, a * (i + 1)) - 1 < p - 1
  {
    SmallIsNonzero(p, i + 1);
    NonzeroProduct(p, a, i + 1);
    CanonicalCong(p, a * (i + 1));
  }

  lemma ShiftAtInjective(p: int, a: int, i: int, j: int)
    requires IsPrime(p) && !Cong(p, a, 0) && 0 <= i < j < p - 1
    ensures ShiftAt(p, a, i) != ShiftAt(p, a, j)
  {
    ShiftAtRange(p, a, i);
    ShiftAtRange(p, a, j);
    if ShiftAt(p, a, i) == ShiftAt(p, a, j) {
      CongIffCanonical(p, a * (i + 1), a * (j + 1));
      Cancel(p, a, i + 1, j + 1);
      var k := CongWitness(p, i + 1, j + 1);
      MultipleInRangeIsZero(p, k);
    }
  }

  lemma FermatLittle(p: int, a: int)
    requires IsPrime(p) && !Cong(p, a, 0)
    ensures Cong(p, Pow(a, p - 1), 1)
  {
    var s := seq(p - 1, i => i + 1);
    var pi := seq(p - 1, i => ShiftAt(p, a, i));
    forall i | 0 <= i < p - 1
      ensures pi[i] < p - 1
    {
      ShiftAtRange(p, a, i);
    }
    forall i, j | 0 <= i < j < p - 1
      ensures pi[i] != pi[j]
    {
      ShiftAtInjective(p, a, i, j);
    }
    var t := Gather(s, pi);
    forall i | 0 <= i < |s|
      ensures Cong(p, t[i], a * s[i]) && !Cong(p, s[i], 0)
    {
      ShiftAtRange(p, a, i);
      CanonicalCong(p, a * s[i]);
      SmallIsNonzero(p, s[i]);
    }
    ProductScaled(p, a, s, t);
    ProductPermuted(s, pi);
    ProductNonzero(p, s);
    var q := Product(s);
    CongSym(p, q, Pow(a, p - 1) * q);
    assert Pow(a, p - 1) * q == q * Pow(a, p - 1);
    Cancel(p, q, Pow(a, p - 1), 1);
  }

  /** The inverse computed as a power: the zero residue gives zero. */
  lemma FermatInverse(p: int, a: int)
    requires IsPrime(p) && p > 2
    ensures !Cong(p, a, 0) ==> Cong(p, a * Pow(a, p - 2), 1)
    ensures Cong(p, a, 0) ==> Cong(p, Pow(a, p - 2), 0)
  {
    if Cong(p, a, 0) {
      CongBy(p, Pow(a, p - 2), 0, a, 0, Pow(a, p - 3));
    } else {
      FermatLittle(p, a);
    }
  }
}
