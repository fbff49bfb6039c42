/** The field of 2^255 - 19 elements: addition chains, inversion and the merged
    square-root-of-a-ratio routine (curve25519-dalek/src/field.rs). */
module FieldAlgorithms {
  import opened Arith
  import opened Fermat

  /** The prime p = 2^(k+3) - 19 and the chosen square root i of -1. */
  datatype Field = Field(p: int, i: int, k: nat)

  ghost predicate Valid(f: Field) {
    && IsPrime(f.p)
    && f.k == 252
    && f.p == 8 * Pow(2, f.k) - 19
    && f.p > 1000000
    && 0 < f.i < f.p
    && Cong(f.p, f.i * f.i, -1)
  }

  /** The modulus and the constant SQRT_M1 of the library form such a field. */
  lemma ConstantsAreValid()
    requires IsPrime(0x7fffffffffffffffffffffffffffffffffffffffffffffffffffffffffffffed)
    ensures Valid(Field(0x7fffffffffffffffffffffffffffffffffffffffffffffffffffffffffffffed,
      19681161376707505956807079304988542015446066515923890162744021073123829784752, 252))
  {
    var p := 0x7fffffffffffffffffffffffffffffffffffffffffffffffffffffffffffffed;
    var i := 19681161376707505956807079304988542015446066515923890162744021073123829784752;
    CongIntro(p, i * i, -1, (i * i + 1) / p);
    assert Pow(2, 4) == 16 && Pow(16, 7) == 0x10000000
      && Pow(0x10000000, 9) == 0x1000000000000000000000000000000000000000000000000000000000000000;
    PowPow(2, 4, 7);
    PowPow(2, 28, 9);
  }

  /** The low bit of the canonical representative. */
  predicate IsNegative(f: Field, x: int)
    requires f.p > 0
  {
    Canonical(f.p, x) % 2 == 1
  }

  function ConditionalNegate(x: int, c: bool): int {
    if c then -x else x
  }

  lemma CanonicalOfNegative(p: int, x: int)
    requires p > 1
    ensures var r := Canonical(p, x);
      Canonical(p, -x) == (if r == 0 then 0 else p - r) && (Cong(p, x, 0) <==> r == 0)
  {
    hide Cong, Canonical;
    CanonicalCong(p, x);
    var r := Canonical(p, x);
    CongIntro(p, p, 0, 1);
    CongBy2(p, -x, p - r, x, r, -1, p, 0, -1);
    if r == 0 {
      CongBy(p, -x, 0, x, 0, -1);
      CanonicalUnique(p, -x, 0);
    } else {
      CanonicalUnique(p, -x, p - r);
      if Cong(p, x, 0) { CanonicalUnique(p, x, 0); }
    }
  }

  lemma OddModulus(f: Field)
    requires Valid(f)
    ensures f.p % 2 == 1 && f.p > 1
  {
    hide IsPrime, Cong, Pow;
  }

  lemma SignsOfOpposites(f: Field, x: int)
    requires Valid(f)
    ensures IsNegative(f, -x) <==> !Cong(f.p, x, 0) && !IsNegative(f, x)
    ensures IsNegative(f, x) ==> !Cong(f.p, x, 0)
  {
    hide Cong, Canonical, Valid;
    OddModulus(f);
    CanonicalOfNegative(f.p, x);
  }

  lemma SignCong(f: Field, x: int, y: int)
    requires f.p > 0 && Cong(f.p, x, y)
    ensures IsNegative(f, x) <==> IsNegative(f, y)
  {
    CongIffCanonical(f.p, x, y);
  }

  // ---------- addition chains ----------

  /** k successive squarings. The measure mentions x, so that calls with a literal k alone are
      not unrolled. */
  function Pow2k(x: int, k: nat): int
    decreases if x < 0 then k else k
  {
    if k == 0 then x else Pow2k(x * x, k - 1)
  }

  lemma {:induction false} Pow2kIsPow(x: int, k: nat)
    ensures Pow(2, k) > 0 && Pow2k(x, k) == Pow(x, Pow(2, k))
    decreases k
  {
    PowSmall(x);
    if k > 0 {
      Pow2kIsPow(x * x, k - 1);
      PowPow(x, 2, Pow(2, k - 1));
    }
  }

  /** x^(2^j - 1). */
  function OnesPower(x: int, j: nat): int
  {
    Pow2kIsPow(x, j);
    Pow(x, Pow(2, j) - 1)
  }

  /** The chain's doubling rule: shift j ones by k places and fill in k ones. */
  lemma OnesStep(x: int, j: nat, k: nat)
    ensures Pow2k(OnesPower(x, j), k) * OnesPower(x, k) == OnesPower(x, j + k)
  {
    Pow2kIsPow(x, j);
    Pow2kIsPow(x, k);
    Pow2kIsPow(OnesPower(x, j), k);
    PowAdd(2, j, k);
    var a, b := Pow(2, j), Pow(2, k);
    PowPow(x, a - 1, b);
    assert (a - 1) * b + (b - 1) == a * b - 1;
    PowAdd(x, (a - 1) * b, b - 1);
  }

  function Pow22501(x: int): (int, int) {
    var t0 := x * x;
    var t1 := (t0 * t0) * (t0 * t0);
    var t2 := x * t1;
    var t3 := t0 * t2;
    var t4 := t3 * t3;
    var t5 := t2 * t4;
    var t6 := Pow2k(t5, 5);
    var t7 := t6 * t5;
    var t8 := Pow2k(t7, 10);
    var t9 := t8 * t7;
    var t10 := Pow2k(t9, 20);
    var t11 := t10 * t9;
    var t12 := Pow2k(t11, 10);
    var t13 := t12 * t7;
    var t14 := Pow2k(t13, 50);
    var t15 := t14 * t13;
    var t16 := Pow2k(t15, 100);
    var t17 := t16 * t15;
    var t18 := Pow2k(t17, 50);
    var t19 := t18 * t13;
    (t19, t3)
  }

  /** The first chain entries: exponents 11 and 31 = 2^5 - 1. */
  lemma ChainStart(x: int)
    ensures var t0 := x * x; var t2 := x * ((t0 * t0) * (t0 * t0)); var t3 := t0 * t2;
            t3 == Pow(x, 11) && t2 * (t3 * t3) == OnesPower(x, 5)
  {
    var t0 := x * x;
    var t1 := (t0 * t0) * (t0 * t0);
    PowSmall(x);
    PowAdd(x, 2, 2);
    PowAdd(x, 4, 4);
    assert t1 == Pow(x, 8);
    PowAdd(x, 1, 8);
    PowAdd(x, 2, 9);
    PowAdd(x, 11, 11);
    PowAdd(x, 9, 22);
    assert Pow(2, 5) == 32;
  }

  lemma Pow22501Correct(x: int)
    ensures Pow22501(x) == (OnesPower(x, 250), Pow(x, 11))
  {
    ChainStart(x);
    OnesStep(x, 5, 5);
    OnesStep(x, 10, 10);
    OnesStep(x, 20, 20);
    OnesStep(x, 40, 10);
    OnesStep(x, 50, 50);
    OnesStep(x, 100, 100);
    OnesStep(x, 200, 50);
  }

  function Invert(x: int): int {
    var (t19, t3) := Pow22501(x);
    Pow2k(t19, 5) * t3
  }

  function PowP58(x: int): int {
    var (t19, _) := Pow22501(x);
    x * Pow2k(t19, 2)
  }

  /** Both chains end at the exponents their comments claim: p - 2 and (p - 5) / 8. */
  lemma ChainExponents(f: Field, x: int)
    requires Valid(f)
    ensures Invert(x) == Pow(x, f.p - 2)
    ensures PowP58(x) == Pow(x, (f.p - 5) / 8)
  {
    Pow22501Correct(x);
    PowAdd(2, 250, 2);
    var n := Pow(2, 250) - 1;
    var t19 := Pow(x, n);
    Pow2kIsPow(t19, 5);
    Pow2kIsPow(t19, 2);
    assert Pow(2, 5) == 32 && Pow(2, 2) == 4;
    PowPow(x, n, 32);
    PowAdd(x, 32 * n, 11);
    PowPow(x, n, 4);
    PowAdd(x, 1, 4 * n);
    PowSmall(x);
  }

  /** Inversion by Fermat: the inverse of every nonzero element, and zero at zero. */
  lemma InvertCorrect(f: Field, x: int)
    requires Valid(f)
    ensures !Cong(f.p, x, 0) ==> Cong(f.p, x * Invert(x), 1)
    ensures Cong(f.p, x, 0) ==> Cong(f.p, Invert(x), 0)
  {
    ChainExponents(f, x);
    FermatInverse(f.p, x);
  }

  // ---------- square roots ----------

  ghost predicate IsSquare(f: Field, a: int) {
    exists x :: Cong(f.p, x * x, a)
  }

  /** 1, -1, i and -i are different. */
  lemma UnitsDiffer(f: Field)
    requires Valid(f)
    ensures !Cong(f.p, 1, -1) && !Cong(f.p, f.i, -f.i)
    ensures !Cong(f.p, f.i, 1) && !Cong(f.p, f.i, -1) && !Cong(f.p, -f.i, 1) && !Cong(f.p, -f.i, -1)
    ensures !Cong(f.p, 1, -f.i)
  {
    hide Cong, IsPrime;
    var p, i := f.p, f.i;
    SmallIsNonzero(p, 2);
    SmallIsNonzero(p, i);
    if Cong(p, 1, -1) {
      CongBy(p, 2, 0, 1, -1, 1);
    }
    if Cong(p, i, -i) {
      CongBy(p, 2 * i, 0, i, -i, 1);
      NoZeroDivisors(p, 2, i);
    }
    RealUnit(f, i, 1);
    RealUnit(f, i, -1);
    RealUnit(f, -i, 1);
    RealUnit(f, -i, -1);
    if Cong(p, 1, -i) {
      CongSym(p, 1, -i);
    }
  }

  lemma RealUnit(f: Field, c: int, d: int)
    requires Valid(f) && (c == f.i || c == -f.i) && (d == 1 || d == -1)
    ensures !Cong(f.p, c, d)
  {
    hide Cong, IsPrime;
    if Cong(f.p, c, d) {
      assert c * c == f.i * f.i && d * d == 1;
      assert c * c - 1 == (c + d) * (c - d);
      CongBy(f.p, f.i * f.i, 1, c, d, c + d);
      CongBy2(f.p, 2, 0, f.i * f.i, 1, -1, f.i * f.i, -1, 1);
      SmallIsNonzero(f.p, 2);
    }
  }

  lemma RootIsNotZero(p: int, j: int, x: int)
    requires p > 2 && Cong(p, j * j, -1) && Cong(p, x * x, j)
    ensures !Cong(p, x, 0)
  {
    hide Cong;
    if Cong(p, x, 0) {
      CongBy2(p, j, 0, x * x, j, -1, x, 0, x);
      CongBy2(p, -1, 0, j * j, -1, -1, j, 0, j);
      SmallIsNonzero(p, -1);
    }
  }

  /** x^4 = -1 raised to an odd power h. */
  lemma FourthRootPower(p: int, x: int, h: nat)
    requires Cong(p, (x * x) * (x * x), -1) && h % 2 == 1
    ensures Cong(p, Pow(x, 4 * h), -1)
  {
    PowSmall(x);
    hide Cong, Pow;
    PowAdd(x, 2, 2);
    PowPow(x, 4, h);
    PowCong(p, Pow(x, 4), -1, h);
    PowMinusOneOdd((h - 1) / 2);
  }

  /** An element whose square is -1 is not a square, because (p - 1) / 4 is odd. */
  lemma RootOfMinusOneIsNonsquare(f: Field, j: int)
    requires Valid(f) && Cong(f.p, j * j, -1)
    ensures !IsSquare(f, j)
  {
    hide Cong, IsPrime;
    if IsSquare(f, j) {
      var x :| Cong(f.p, x * x, j);
      var h := 2 * Pow(2, f.k) - 5;
      assert f.p - 1 == 4 * h && h > 0 && f.p > 2;
      hide Valid, Pow;
      RootIsNotZero(f.p, j, x);
      FermatLittle(f.p, x);
      CongMul(f.p, x * x, j, x * x, j);
      CongTrans(f.p, (x * x) * (x * x), j * j, -1);
      FourthRootPower(f.p, x, h);
      CongSym(f.p, Pow(x, f.p - 1), 1);
      CongTrans(f.p, 1, Pow(x, f.p - 1), -1);
      UnitsDiffer(f);
    }
  }

  lemma IIsNonsquare(f: Field)
    requires Valid(f)
    ensures !IsSquare(f, f.i) && !IsSquare(f, -f.i)
  {
    RootOfMinusOneIsNonsquare(f, f.i);
    assert (-f.i) * (-f.i) == f.i * f.i;
    RootOfMinusOneIsNonsquare(f, -f.i);
  }

  /** The fourth roots of unity. */
  lemma FourthRoots(f: Field, s: int)
    requires Valid(f)
    requires Cong(f.p, (s * s) * (s * s), 1)
    ensures Cong(f.p, s, 1) || Cong(f.p, s, -1) || Cong(f.p, s, f.i) || Cong(f.p, s, -f.i)
  {
    hide Cong, IsPrime;
    var i := f.i;
    assert (s * s) * (s * s) - 1 == (s * s) * (s * s) - 1 * 1;
    SquareRoots(f.p, s * s, 1);
    if Cong(f.p, s * s, 1) {
      SquareRoots(f.p, s, 1);
    } else {
      CongSym(f.p, i * i, -1);
      CongTrans(f.p, s * s, -1, i * i);
      SquareRoots(f.p, s, i);
    }
  }

  /** Rotate and negate a candidate root r as the check v r^2 demands. */
  function SelectRoot(f: Field, u: int, v: int, r: int): (bool, int)
    requires f.p > 0
  {
    var check := v * (r * r);
    var correctSign := Eq(f.p, check, u);
    var flippedSign := Eq(f.p, check, -u);
    var flippedSignI := Eq(f.p, check, (-u) * f.i);
    var r' := if flippedSign || flippedSignI then f.i * r else r;
    (correctSign || flippedSign, ConditionalNegate(r', IsNegative(f, r')))
  }

  function SqrtRatioI(f: Field, u: int, v: int): (bool, int)
    requires f.p > 0
  {
    var v3 := (v * v) * v;
    var v7 := (v3 * v3) * v;
    SelectRoot(f, u, v, (u * v3) * PowP58(u * v7))
  }

  /** The check value is u times a fourth root of unity. */
  lemma CheckIsRotated(f: Field, u: int, v: int, s: int)
    requires Valid(f) && !Cong(f.p, u, 0) && !Cong(f.p, v, 0)
    requires var w := u * (v * v * v * (v * v * v) * v); s == w * (PowP58(w) * PowP58(w))
    ensures Cong(f.p, (s * s) * (s * s), 1)
  {
    hide Cong, IsPrime, PowP58, Pow;
    SeventhNonzero(f.p, u, v);
    UnitFourthPower(f, u * (v * v * v * (v * v * v) * v), s);
  }

  lemma UnitFourthPower(f: Field, w: int, s: int)
    requires Valid(f) && !Cong(f.p, w, 0) && s == w * (PowP58(w) * PowP58(w))
    ensures Cong(f.p, (s * s) * (s * s), 1)
  {
    var k := Pow(2, f.k) - 3;
    assert f.p - 5 == 8 * k && k >= 0 && f.p - 1 == 8 * k + 4;
    hide Cong, IsPrime, PowP58, Pow;
    ChainExponents(f, w);
    FourthPower(w, k, s);
    FermatLittle(f.p, w);
  }

  lemma SeventhNonzero(p: int, u: int, v: int)
    requires IsPrime(p) && !Cong(p, u, 0) && !Cong(p, v, 0)
    ensures !Cong(p, u * (v * v * v * (v * v * v) * v), 0)
  {
    hide Cong, IsPrime;
    var v3 := v * v * v;
    NonzeroProduct(p, v, v);
    NonzeroProduct(p, v * v, v);
    NonzeroProduct(p, v3, v3);
    NonzeroProduct(p, v3 * v3, v);
    NonzeroProduct(p, u, v3 * v3 * v);
  }

  lemma FourthPower(w: int, k: nat, s: int)
    requires s == w * (Pow(w, k) * Pow(w, k))
    ensures (s * s) * (s * s) == Pow(w, 8 * k + 4)
  {
    hide Pow;
    PowAdd(w, k, k);
    PowAdd(w, 1, 2 * k);
    PowSmall(w);
    assert s == Pow(w, 2 * k + 1);
    PowAdd(w, 2 * k + 1, 2 * k + 1);
    PowAdd(w, 4 * k + 2, 4 * k + 2);
  }

  lemma RatioAlgebra(u: int, v: int, q: int)
    ensures var v3 := (v * v) * v; var v7 := (v3 * v3) * v; var r := (u * v3) * q;
            v * (r * r) == u * ((u * v7) * (q * q))
  {
    var v3 := (v * v) * v;
    var r := (u * v3) * q;
    assert r * r == (u * u) * (v3 * v3) * (q * q);
    assert v * ((u * u) * (v3 * v3) * (q * q)) == u * ((u * ((v3 * v3) * v)) * (q * q));
  }

  ghost predicate IsSquareRatio(f: Field, u: int, v: int) {
    exists y :: Cong(f.p, v * (y * y), u)
  }

  /** The contract in the routine's comment. */
  ghost predicate IsRootOfRatio(f: Field, u: int, v: int, isSquare: bool, r: int)
    requires f.p > 0
  {
    && !IsNegative(f, r)
    && (Cong(f.p, u, 0) ==> isSquare && Cong(f.p, r, 0))
    && (Cong(f.p, v, 0) && !Cong(f.p, u, 0) ==> !isSquare && Cong(f.p, r, 0))
    && (!Cong(f.p, v, 0) ==> (isSquare <==> IsSquareRatio(f, u, v)))
    && (!Cong(f.p, v, 0) ==> Cong(f.p, v * (r * r), if isSquare then u else f.i * u))
  }

  /** For all u and v: the nonnegative root of u/v or of i u/v, with the flag telling
      which; zero when u or v is zero. */
  lemma SqrtRatioCorrect(f: Field, u: int, v: int)
    requires Valid(f)
    ensures IsRootOfRatio(f, u, v, SqrtRatioI(f, u, v).0, SqrtRatioI(f, u, v).1)
  {
    hide PowP58;
    var v3 := (v * v) * v;
    var v7 := (v3 * v3) * v;
    var q := PowP58(u * v7);
    var r := (u * v3) * q;
    if Cong(f.p, u, 0) || Cong(f.p, v, 0) {
      if Cong(f.p, u, 0) {
        CongBy(f.p, r, 0, u, 0, v3 * q);
      } else {
        assert r == v * (v * v * u * q);
        CongBy(f.p, r, 0, v, 0, v * v * u * q);
      }
      SelectZeroRoot(f, u, v, r);
    } else {
      RatioAlgebra(u, v, q);
      CheckIsRotated(f, u, v, (u * v7) * (q * q));
      SelectNonzeroRoot(f, u, v, r, (u * v7) * (q * q));
    }
  }

  lemma SelectNonzeroRoot(f: Field, u: int, v: int, r: int, s: int)
    requires Valid(f) && !Cong(f.p, u, 0) && !Cong(f.p, v, 0)
    requires v * (r * r) == u * s && Cong(f.p, (s * s) * (s * s), 1)
    ensures IsRootOfRatio(f, u, v, SelectRoot(f, u, v, r).0, SelectRoot(f, u, v, r).1)
  {
    hide Cong, Eq, IsNegative, IsPrime;
    GenericRatio(f, u, v, s, r);
    var check := v * (r * r);
    var r' := if Eq(f.p, check, -u) || Eq(f.p, check, (-u) * f.i) then f.i * r else r;
    var (isSquare, root) := SelectRoot(f, u, v, r);
    SignsOfOpposites(f, r');
    assert root * root == r' * r';
    if isSquare {
      assert IsSquareRatio(f, u, v);
    } else {
      forall y
        ensures !Cong(f.p, v * (y * y), u)
      {
        NotBothSquares(f, u, v, r', y);
      }
    }
  }

  lemma SelectZeroRoot(f: Field, u: int, v: int, r: int)
    requires Valid(f) && Cong(f.p, r, 0) && (Cong(f.p, u, 0) || Cong(f.p, v, 0))
    ensures IsRootOfRatio(f, u, v, SelectRoot(f, u, v, r).0, SelectRoot(f, u, v, r).1)
  {
    hide Cong, Eq, IsNegative, IsPrime;
    var check := v * (r * r);
    CongBy(f.p, check, 0, r, 0, v * r);
    if !Cong(f.p, u, 0) {
      if Cong(f.p, check, u) { CongBy2(f.p, u, 0, check, 0, 1, check, u, -1); }
      if Cong(f.p, check, -u) { CongBy2(f.p, u, 0, check, -u, 1, check, 0, -1); }
    } else {
      CongBy2(f.p, check, u, check, 0, 1, u, 0, -1);
      assert IsSquareRatio(f, u, v);
    }
    var root := SelectRoot(f, u, v, r).1;
    CongBy(f.p, f.i * r, 0, r, 0, f.i);
    CongBy(f.p, -r, 0, r, 0, -1);
    CongBy(f.p, -(f.i * r), 0, r, 0, -f.i);
    SignsOfOpposites(f, r);
    SignsOfOpposites(f, f.i * r);
    if Cong(f.p, u, 0) {
      CongBy2(f.p, v * (root * root), u, root, 0, v * root, u, 0, -1);
    }
  }

  lemma RotatedSquare(v: int, i: int, r: int)
    ensures v * ((i * r) * (i * r)) == (i * i) * (v * (r * r))
  {
    MulSwap(i, r, i, r);
    MulSwap(v, i * i, 1, r * r);
  }

  /** Multiplying by a unit rotation tells the four cases apart. */
  lemma GenericRatio(f: Field, u: int, v: int, s: int, r: int)
    requires Valid(f) && !Cong(f.p, u, 0)
    requires Cong(f.p, (s * s) * (s * s), 1)
    requires v * (r * r) == u * s
    ensures var check := v * (r * r); var i := f.i;
      var flag := Cong(f.p, check, u) || Cong(f.p, check, -u);
      var r' := if Cong(f.p, check, -u) || Cong(f.p, check, (-u) * i) then i * r else r;
      Cong(f.p, v * (r' * r'), if flag then u else i * u)
  {
    hide Cong, IsPrime;
    var i := f.i;
    FourthRoots(f, s);
    var check := u * s;
    RotatedSquare(v, i, r);
    if Cong(f.p, s, 1) {
      CongBy(f.p, check, u, s, 1, u);
      if Cong(f.p, check, -u) || Cong(f.p, check, (-u) * i) {
        RotationsDiffer(f, u, s, 1);
      }
    } else if Cong(f.p, s, -1) {
      CongBy(f.p, check, -u, s, -1, u);
      CongBy2(f.p, (i * i) * check, u, i * i, -1, check, check, -u, -1);
    } else if Cong(f.p, s, i) {
      CongBy(f.p, check, i * u, s, i, u);
      RotationsDiffer(f, u, s, i);
    } else {
      CongBy(f.p, check, (-u) * i, s, -i, u);
      RotationsDiffer(f, u, s, -i);
      CongBy2(f.p, (i * i) * check, i * u, i * i, -1, check, check, (-u) * i, -1);
    }
  }

  /** u s determines the rotation s. */
  lemma RotationsDiffer(f: Field, u: int, s: int, t: int)
    requires Valid(f) && !Cong(f.p, u, 0) && Cong(f.p, s, t)
    requires t == 1 || t == f.i || t == -f.i
    ensures t != 1 ==> !Cong(f.p, u * s, u) && !Cong(f.p, u * s, -u)
    ensures t != -f.i ==> !Cong(f.p, u * s, (-u) * f.i)
    ensures t == 1 ==> !Cong(f.p, u * s, -u)
  {
    hide Cong, IsPrime;
    var i := f.i;
    UnitsDiffer(f);
    assert u * 1 == u && u * (-1) == -u && u * (-i) == (-u) * i;
    RotationCancels(f, u, s, t, 1);
    RotationCancels(f, u, s, t, -1);
    RotationCancels(f, u, s, t, -i);
  }

  lemma RotationCancels(f: Field, u: int, s: int, t: int, c: int)
    requires Valid(f) && !Cong(f.p, u, 0) && Cong(f.p, s, t)
    ensures Cong(f.p, u * s, u * c) ==> Cong(f.p, t, c)
  {
    if Cong(f.p, u * s, u * c) {
      Cancel(f.p, u, s, c);
      CongSym(f.p, s, t);
      CongTrans(f.p, t, s, c);
    }
  }

  /** u/v and i u/v are not both squares. */
  lemma NotBothSquares(f: Field, u: int, v: int, r: int, y: int)
    requires Valid(f) && !Cong(f.p, u, 0) && !Cong(f.p, v, 0)
    requires Cong(f.p, v * (r * r), f.i * u)
    ensures !Cong(f.p, v * (y * y), u)
  {
    hide Cong, IsPrime;
    if Cong(f.p, v * (y * y), u) {
      BothSquaresClash(f, u, v, r, y);
    }
  }

  lemma BothSquaresClash(f: Field, u: int, v: int, r: int, y: int)
    requires Valid(f) && !Cong(f.p, v, 0)
    requires Cong(f.p, v * (r * r), f.i * u) && Cong(f.p, v * (y * y), u)
    ensures Cong(f.p, u, 0)
  {
    hide Cong, IsPrime;
    var i := f.i;
    CongBy2(f.p, v * (r * r), v * (i * (y * y)), v * (r * r), i * u, 1, v * (y * y), u, -i);
    Cancel(f.p, v, r * r, i * (y * y));
    if Cong(f.p, y, 0) {
      CongBy(f.p, v * (y * y), 0, y, 0, v * y);
      CongBy2(f.p, u, 0, v * (y * y), u, -1, v * (y * y), 0, 1);
    } else {
      var z := InverseExists(f.p, y);
      var one := y * z;
      assert (r * z) * (r * z) - i == (z * z) * (r * r - i * (y * y)) + i * (one + 1) * (one - 1) by {
        assert (y * y) * (z * z) == one * one by { MulSwap(y, y, z, z); }
        assert (r * z) * (r * z) == (z * z) * (r * r) by { MulSwap(r, z, r, z); }
      }
      CongBy2(f.p, (r * z) * (r * z), i, r * r, i * (y * y), z * z, one, 1, i * (one + 1));
      assert IsSquare(f, i);
      IIsNonsquare(f);
    }
  }

  /** Two nonnegative elements with equal squares are equal. */
  lemma NonnegativeRootUnique(f: Field, a: int, b: int)
    requires Valid(f) && Cong(f.p, a * a, b * b)
    requires !IsNegative(f, a) && !IsNegative(f, b)
    ensures Cong(f.p, a, b)
  {
    hide Cong, IsPrime;
    SquareRoots(f.p, a, b);
    if !Cong(f.p, a, b) {
      SignCong(f, a, -b);
      SignsOfOpposites(f, b);
      CongBy2(f.p, a, b, a, -b, 1, b, 0, -2);
    }
  }

  /** The contract determines the routine's answer: any flag and root that satisfy it are the
      ones returned. */
  lemma SqrtRatioUnique(f: Field, u: int, v: int, isSquare: bool, r: int)
    requires Valid(f) && IsRootOfRatio(f, u, v, isSquare, r)
    ensures isSquare == SqrtRatioI(f, u, v).0 && Cong(f.p, r, SqrtRatioI(f, u, v).1)
  {
    SqrtRatioCorrect(f, u, v);
    var (flag, s) := SqrtRatioI(f, u, v);
    hide Cong, IsPrime, SqrtRatioI, IsSquareRatio, IsNegative;
    var p := f.p;
    if Cong(p, v, 0) || Cong(p, u, 0) {
      CongSym(p, s, 0);
      CongTrans(p, r, 0, s);
    } else {
      var t := if flag then u else f.i * u;
      CongSym(p, v * (s * s), t);
      CongTrans(p, v * (r * r), t, v * (s * s));
      Cancel(p, v, r * r, s * s);
      NonnegativeRootUnique(f, r, s);
    }
  }
}
