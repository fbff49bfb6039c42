/** Point encoding on the Edwards curve -x^2 + y^2 = 1 + d x^2 y^2 and the passage to and
    from the Montgomery u-line (curve25519-dalek/src/edwards.rs, montgomery.rs).
    A 32-byte string is its little-endian integer: the top bit is worth 2^255 = p + 19. */
module EdwardsCodec {
  import opened Wrappers
  import opened Arith
  import opened FieldAlgorithms
  import opened Squares

  /** a and d are the Montgomery and Edwards constants; c and e are roots showing that
      -(a+2) is a square and that a-2 is not. */
  datatype Curve = Curve(f: Field, a: int, d: int, c: int, e: int)

  ghost predicate ValidCurve(k: Curve) {
    && Valid(k.f)
    && 2 < k.a < 1000000
    && Cong(k.f.p, k.d * (k.a + 2), -(k.a - 2))
    && Cong(k.f.p, k.c * k.c, -(k.a + 2))
    && Cong(k.f.p, k.e * k.e, k.f.i * (k.a - 2))
  }

  /** The library's constants A, EDWARDS_D and SQRT_M1 satisfy the hypotheses. */
  lemma CurveConstantsAreValid()
    requires IsPrime(0x7fffffffffffffffffffffffffffffffffffffffffffffffffffffffffffffed)
    ensures ValidCurve(Curve(
      Field(0x7fffffffffffffffffffffffffffffffffffffffffffffffffffffffffffffed,
        19681161376707505956807079304988542015446066515923890162744021073123829784752, 252),
      486662,
      37095705934669439343138083508754565189542113879843219016388785533085940283555,
      6853475219497561581579357271197624642482790079785650197046958215289687604742,
      9040400001612943502159182652787181983953226843471450606752476981541868067858))
  {
    var p := 0x7fffffffffffffffffffffffffffffffffffffffffffffffffffffffffffffed;
    var i := 19681161376707505956807079304988542015446066515923890162744021073123829784752;
    var d := 37095705934669439343138083508754565189542113879843219016388785533085940283555;
    var c := 6853475219497561581579357271197624642482790079785650197046958215289687604742;
    var e := 9040400001612943502159182652787181983953226843471450606752476981541868067858;
    ConstantsAreValid();
    CongIntro(p, d * 486664, -486660, (d * 486664 + 486660) / p);
    CongIntro(p, c * c, -486664, (c * c + 486664) / p);
    CongIntro(p, e * e, i * 486660, (e * e - i * 486660) / p);
  }

  ghost predicate OnEdwards(k: Curve, x: int, y: int) {
    Cong(k.f.p, y * y - x * x, 1 + k.d * (x * x) * (y * y))
  }

  ghost predicate OnMontgomery(k: Curve, u: int) {
    IsSquare(k.f, u * (u * u + k.a * u + 1))
  }

  lemma CurveFacts(k: Curve)
    requires ValidCurve(k)
    ensures !Cong(k.f.p, k.a, 0) && !Cong(k.f.p, k.a + 2, 0) && !Cong(k.f.p, k.c, 0)
    ensures !IsSquare(k.f, k.a - 2) && !IsSquare(k.f, k.d)
  {
    hide Cong, IsPrime;
    var p := k.f.p;
    SmallIsNonzero(p, k.a);
    SmallIsNonzero(p, k.a + 2);
    SmallIsNonzero(p, k.a - 2);
    if Cong(p, k.c, 0) {
      CongBy2(p, k.a + 2, 0, k.c * k.c, -(k.a + 2), 1, k.c, 0, -k.c);
    }
    IIsNonsquare(k.f);
    if IsSquare(k.f, k.a - 2) {
      SquareIntro(k.f, k.f.i * (k.a - 2), k.e);
      assert k.f.i * (k.a - 2) == (k.a - 2) * k.f.i;
      SquareTimesNonsquare(k.f, k.a - 2, k.f.i);
    }
    if IsSquare(k.f, k.d) {
      // d c^2 = a - 2
      CongBy2(p, k.d * (k.c * k.c), k.a - 2, k.c * k.c, -(k.a + 2), k.d, k.d * (k.a + 2), -(k.a - 2), -1);
      SquareFactor(k.f, k.d, k.c);
      SquareCong(k.f, k.d * (k.c * k.c), k.a - 2);
    }
  }

  /** The decoding denominator d y^2 + 1 never vanishes, because d is not a square. */
  lemma DenominatorNonzero(k: Curve, y: int)
    requires ValidCurve(k)
    ensures !Cong(k.f.p, (y * y) * k.d + 1, 0)
  {
    hide Cong, IsPrime;
    var p := k.f.p;
    CurveFacts(k);
    if Cong(p, (y * y) * k.d + 1, 0) {
      if Cong(p, y, 0) {
        CongBy2(p, 1, 0, (y * y) * k.d + 1, 0, 1, y, 0, -(y * k.d));
        SmallIsNonzero(p, 1);
      } else {
        assert (y * y) * k.d == k.d * (y * y);
        SquareFactor(k.f, k.d, y);
        CongBy2(p, k.f.i * k.f.i, k.d * (y * y), k.f.i * k.f.i, -1, 1, (y * y) * k.d + 1, 0, -1);
        SquareIntro(k.f, k.d * (y * y), k.f.i);
      }
    }
  }

  // ---------- affine encoding ----------

  /** The weight of the top bit: 2^255. */
  function TopBit(f: Field): int {
    f.p + 19
  }

  function Encode(k: Curve, x: int, y: int): int
    requires k.f.p > 0
  {
    Canonical(k.f.p, y) + (if IsNegative(k.f, x) then TopBit(k.f) else 0)
  }

  function Decode(k: Curve, n: int): Option<(int, int)>
    requires k.f.p > 0
  {
    var y := n % TopBit(k.f);
    var sign := n / TopBit(k.f) == 1;
    var (isSquare, x) := SqrtRatioI(k.f, y * y - 1, (y * y) * k.d + 1);
    if isSquare then Some((ConditionalNegate(x, sign), y)) else None
  }

  /** The square root that decoding extracts, for any y. */
  lemma DecodeRoot(k: Curve, y: int)
    requires ValidCurve(k)
    ensures var u, v := y * y - 1, (y * y) * k.d + 1; var (isSquare, r) := SqrtRatioI(k.f, u, v);
      && !IsNegative(k.f, r)
      && (isSquare <==> IsSquare(k.f, u * v))
      && (isSquare ==> OnEdwards(k, r, y) && OnEdwards(k, -r, y))
      && (forall x :: OnEdwards(k, x, y) ==> isSquare && Cong(k.f.p, r * r, x * x))
  {
    hide Cong, IsPrime, SqrtRatioI, IsNegative;
    var p := k.f.p;
    var u, v := y * y - 1, (y * y) * k.d + 1;
    var (isSquare, r) := SqrtRatioI(k.f, u, v);
    DenominatorNonzero(k, y);
    SquareTest(k.f, u, v);
    assert (-r) * (-r) == r * r;
    if isSquare {
      RootIsOnCurve(k, r, y);
      RootIsOnCurve(k, -r, y);
    }
    forall x | OnEdwards(k, x, y)
      ensures isSquare && Cong(p, r * r, x * x)
    {
      CurveGivesRoot(k, x, y);
      RatioIsProduct(k.f, u, v);
      assert IsSquareRatio(k.f, u, v);
      CongSym(p, v * (x * x), u);
      CongTrans(p, v * (r * r), u, v * (x * x));
      Cancel(p, v, r * r, x * x);
    }
  }

  lemma RootIsOnCurve(k: Curve, r: int, y: int)
    requires Cong(k.f.p, ((y * y) * k.d + 1) * (r * r), y * y - 1)
    ensures OnEdwards(k, r, y)
  {
    hide Cong;
    CurveTerm(k.d, r, y);
    CongBy(k.f.p, y * y - r * r, 1 + k.d * (r * r) * (y * y), ((y * y) * k.d + 1) * (r * r), y * y - 1, -1);
  }

  lemma CurveGivesRoot(k: Curve, x: int, y: int)
    requires OnEdwards(k, x, y)
    ensures Cong(k.f.p, ((y * y) * k.d + 1) * (x * x), y * y - 1)
  {
    hide Cong;
    CurveTerm(k.d, x, y);
    CongBy(k.f.p, ((y * y) * k.d + 1) * (x * x), y * y - 1, y * y - x * x, 1 + k.d * (x * x) * (y * y), -1);
  }

  lemma CurveTerm(d: int, x: int, y: int)
    ensures ((y * y) * d + 1) * (x * x) == d * (x * x) * (y * y) + x * x
  {
    MulSwap(y * y, d, x * x, 1);
    assert ((y * y) * d + 1) * (x * x) == ((y * y) * d) * (x * x) + x * x;
  }

  /** Signs pick out one of two opposite roots. */
  lemma SignSelects(f: Field, r: int, x: int)
    requires Valid(f) && !IsNegative(f, r) && Cong(f.p, r * r, x * x)
    ensures Cong(f.p, ConditionalNegate(r, IsNegative(f, x)), x)
  {
    hide Cong, IsPrime, IsNegative;
    SquareRoots(f.p, r, x);
    SignsOfOpposites(f, x);
    if Cong(f.p, r, x) {
      SignCong(f, r, x);
    } else {
      SignCong(f, r, -x);
      if IsNegative(f, x) {
        CongBy(f.p, -r, x, r, -x, -1);
      } else {
        CongBy2(f.p, r, x, r, -x, 1, x, 0, -2);
      }
    }
  }

  lemma EncodeParts(k: Curve, x: int, y: int)
    requires Valid(k.f)
    ensures var n := Encode(k, x, y);
      n % TopBit(k.f) == Canonical(k.f.p, y) && n / TopBit(k.f) == (if IsNegative(k.f, x) then 1 else 0)
  {
    hide IsNegative;
    var s := if IsNegative(k.f, x) then 1 else 0;
    DivModUnique(Encode(k, x, y), TopBit(k.f), s, Canonical(k.f.p, y));
  }

  /** Decoding undoes encoding on every point of the curve. */
  lemma DecodeEncode(k: Curve, x: int, y: int)
    requires ValidCurve(k) && OnEdwards(k, x, y)
    ensures var r := Decode(k, Encode(k, x, y));
      r.Some? && Cong(k.f.p, r.value.0, x) && Cong(k.f.p, r.value.1, y)
  {
    hide Cong, IsPrime, SqrtRatioI, IsNegative, Encode;
    var p := k.f.p;
    var y' := Canonical(p, y);
    EncodeParts(k, x, y);
    CanonicalCong(p, y);
    CongRefl(k.f.p, x);
    CongSym(k.f.p, y, y');
    OnEdwardsCong(k, x, y, x, y');
    DecodeRoot(k, y');
    var r := SqrtRatioI(k.f, y' * y' - 1, (y' * y') * k.d + 1).1;
    SignSelects(k.f, r, x);
  }

  lemma OnEdwardsCong(k: Curve, x: int, y: int, x': int, y': int)
    requires OnEdwards(k, x, y) && Cong(k.f.p, x', x) && Cong(k.f.p, y', y)
    ensures OnEdwards(k, x', y')
  {
    hide Cong;
    var p, d := k.f.p, k.d;
    var X, Y, X', Y' := x * x, y * y, x' * x', y' * y';
    CongMul(p, x', x, x', x);
    CongMul(p, y', y, y', y);
    CongBy2(p, Y' - X', Y - X, Y', Y, 1, X', X, -1);
    CongRefl(p, d);
    CongMul(p, d, d, X', X);
    CongMul(p, d * X', d * X, Y', Y);
    CongSym(p, (d * X') * Y', (d * X) * Y);
    CongBy(p, 1 + (d * X) * Y, 1 + (d * X') * Y', (d * X) * Y, (d * X') * Y', 1);
    CongTrans(p, Y' - X', Y - X, 1 + (d * X) * Y);
    CongTrans(p, Y' - X', 1 + (d * X) * Y, 1 + (d * X') * Y');
  }

  /** Everything that decodes is on the curve, and it encodes back to the same string
      exactly when y is reduced and the sign bit of x = 0 is clear. */
  lemma EncodeDecode(k: Curve, n: int)
    requires ValidCurve(k) && 0 <= n < 2 * TopBit(k.f) && Decode(k, n).Some?
    ensures var (x, y) := Decode(k, n).value;
      && OnEdwards(k, x, y)
      && (Encode(k, x, y) == n <==> n % TopBit(k.f) < k.f.p && !(Cong(k.f.p, x, 0) && n / TopBit(k.f) == 1))
  {
    hide Cong, IsPrime, SqrtRatioI, IsNegative, Encode;
    var (x, y) := Decode(k, n).value;
    var p, h := k.f.p, TopBit(k.f);
    DecodeRoot(k, y);
    var r := SqrtRatioI(k.f, y * y - 1, (y * y) * k.d + 1).1;
    SignsOfOpposites(k.f, r);
    SignsOfOpposites(k.f, x);
    if Cong(p, -r, 0) { CongBy(p, r, 0, -r, 0, -1); }
    if Cong(p, r, 0) { CongBy(p, -r, 0, r, 0, -1); }
    EncodeParts(k, x, y);
    SameParts(h, Encode(k, x, y), n);
    CanonicalFixed(p, y);
    TopBitIsBit(h, n);
  }

  lemma SameParts(h: int, m: int, n: int)
    requires h > 0
    ensures m == n <==> m / h == n / h && m % h == n % h
  {
    assert m == (m / h) * h + m % h && n == (n / h) * h + n % h;
  }

  lemma TopBitIsBit(h: int, n: int)
    requires h > 0 && 0 <= n < 2 * h
    ensures n / h == (if n < h then 0 else 1)
  {
    if n < h {
      DivModUnique(n, h, 0, n);
    } else {
      DivModUnique(n, h, 1, n - h);
    }
  }

  lemma CanonicalFixed(m: int, x: int)
    requires m > 0 && x >= 0
    ensures Canonical(m, x) == x <==> x < m
  {
  }

  // ---------- extended coordinates ----------

  datatype EdwardsPoint = EdwardsPoint(X: int, Y: int, Z: int, T: int)

  /** P is a valid extended representation of the affine point (x, y). */
  ghost predicate Represents(k: Curve, P: EdwardsPoint, x: int, y: int) {
    && !Cong(k.f.p, P.Z, 0)
    && Cong(k.f.p, P.X, x * P.Z)
    && Cong(k.f.p, P.Y, y * P.Z)
    && Cong(k.f.p, P.T, x * y * P.Z)
  }

  function Compress(k: Curve, P: EdwardsPoint): int
    requires k.f.p > 0
  {
    var recip := Invert(P.Z);
    var x := P.X * recip;
    var y := P.Y * recip;
    Canonical(k.f.p, y) + (if IsNegative(k.f, x) then TopBit(k.f) else 0)
  }

  function Decompress(k: Curve, n: int): Option<EdwardsPoint>
    requires k.f.p > 0
  {
    match Decode(k, n)
    case None => None
    case Some((x, y)) => Some(EdwardsPoint(x, y, 1, x * y))
  }

  /** Dividing by Z recovers the affine coordinate. */
  lemma Dehomogenize(f: Field, v: int, x: int, z: int)
    requires Valid(f) && !Cong(f.p, z, 0) && Cong(f.p, v, x * z)
    ensures Cong(f.p, v * Invert(z), x)
  {
    hide Cong, IsPrime, Invert;
    InvertCorrect(f, z);
    var w := Invert(z);
    assert v * w - x == w * (v - x * z) + x * (z * w - 1) by {
      assert w * (x * z) == x * (z * w);
    }
    CongBy2(f.p, v * w, x, v, x * z, w, z * w, 1, x);
  }

  /** Section 5.1.2 and 5.1.3 of RFC 8032: decompression undoes compression on every
      curve point, whatever its projective representation. */
  lemma DecompressCompress(k: Curve, P: EdwardsPoint, x: int, y: int)
    requires ValidCurve(k) && OnEdwards(k, x, y) && Represents(k, P, x, y)
    ensures Compress(k, P) == Encode(k, x, y)
    ensures var r := Decompress(k, Compress(k, P)); r.Some? && Represents(k, r.value, x, y)
  {
    hide Cong, IsPrime, Invert, Decode, IsNegative;
    var p := k.f.p;
    Dehomogenize(k.f, P.X, x, P.Z);
    Dehomogenize(k.f, P.Y, y, P.Z);
    CongIffCanonical(p, P.Y * Invert(P.Z), y);
    SignCong(k.f, P.X * Invert(P.Z), x);
    DecodeEncode(k, x, y);
    var (x', y') := Decode(k, Encode(k, x, y)).value;
    SmallIsNonzero(p, 1);
    CongMul(p, x', x, y', y);
    assert x * 1 == x && y * 1 == y && x * y * 1 == x * y;
  }

  // ---------- Montgomery u-line ----------

  /** u = (1 + y) / (1 - y), zero at the identity y = 1. */
  function MontgomeryU(y: int): int {
    (1 + y) * Invert(1 - y)
  }

  function ToMontgomery(k: Curve, P: EdwardsPoint): int
    requires k.f.p > 0
  {
    Canonical(k.f.p, (P.Z + P.Y) * Invert(P.Z - P.Y))
  }

  function ToEdwards(k: Curve, u: int, sign: bool): Option<(int, int)>
    requires k.f.p > 0
  {
    if Eq(k.f.p, u, -1) then None
    else
      var y := (u - 1) * Invert(u + 1);
      Decode(k, Canonical(k.f.p, y) + (if sign then TopBit(k.f) else 0))
  }

  lemma EdwardsY(f: Field, u: int)
    requires Valid(f) && !Cong(f.p, u, -1)
    ensures var y := (u - 1) * Invert(u + 1);
      !Cong(f.p, u + 1, 0) && Cong(f.p, y * (u + 1), u - 1) && Cong(f.p, (1 - y) * (u + 1), 2)
  {
    hide Cong, IsPrime, Invert;
    if Cong(f.p, u + 1, 0) { CongBy(f.p, u, -1, u + 1, 0, 1); }
    InvertCorrect(f, u + 1);
    var w := Invert(u + 1);
    var y := (u - 1) * w;
    assert y * (u + 1) - (u - 1) == (u - 1) * ((u + 1) * w - 1) by {
      assert ((u - 1) * w) * (u + 1) == (u - 1) * ((u + 1) * w);
    }
    CongBy(f.p, y * (u + 1), u - 1, (u + 1) * w, 1, u - 1);
    CongBy(f.p, (1 - y) * (u + 1), 2, y * (u + 1), u - 1, -1);
  }

  lemma NumeratorAlgebra(u: int, y: int)
    ensures var m := u + 1; var x := y * m;
      (y * y - 1) * (m * m) - (-4 * u) == (x + (u - 1)) * (x - (u - 1))
  {
    var m, v := u + 1, u - 1;
    var x, M := y * m, m * m;
    MulSwap(y, m, y, m);
    assert (y * y - 1) * M == (y * y) * M - M;
    assert (x + v) * (x - v) == x * x - v * v;
    assert M - v * v == 4 * u;
  }

  /** Quadratic character of the decoding ratio at the Edwards image of u. */
  lemma RatioCharacter(k: Curve, u: int, y: int)
    requires ValidCurve(k) && !Cong(k.f.p, u + 1, 0) && Cong(k.f.p, y * (u + 1), u - 1)
    ensures IsSquare(k.f, (y * y - 1) * ((y * y) * k.d + 1)) <==> OnMontgomery(k, u)
  {
    hide Cong, IsPrime;
    var p, m := k.f.p, u + 1;
    var q, v := y * y - 1, (y * y) * k.d + 1;
    var w := u * (u * u + k.a * u + 1);
    CurveFacts(k);
    hide IsSquare;
    var x := y * m;
    // q m^2 = -4 u
    NumeratorAlgebra(u, y);
    CongBy(p, q * (m * m), -4 * u, x, u - 1, x + (u - 1));
    // (a + 2) v m^2 = 4 (u^2 + a u + 1)
    DenominatorScaled(k, u, y);
    // c^2 q v m^4 = 16 w
    ProductScaled(k, u, q, v);
    var s := k.c * (m * m);
    NonzeroProduct(p, m, m);
    NonzeroProduct(p, k.c, m * m);
    SquareFactor(k.f, q * v, s);
    SquareCong(k.f, (q * v) * (s * s), w * (4 * 4));
    SmallIsNonzero(p, 4);
    SquareFactor(k.f, w, 4);
  }

  lemma DenominatorAlgebra(a: int, d: int, u: int, y: int)
    ensures var m := u + 1; var x := y * m;
      && (a + 2) * (((y * y) * d + 1) * (m * m)) == (d * (a + 2)) * (x * x) + (a + 2) * (m * m)
      && -(a - 2) * ((u - 1) * (u - 1)) + (a + 2) * (m * m) == 4 * (u * u + a * u + 1)
  {
    var m := u + 1;
    MulSwap(y, m, y, m);
    ScaledDenominator(a + 2, d, y * y, m * m);
    QuadraticAlgebra(a, u);
  }

  lemma ScaledDenominator(b: int, d: int, Y: int, M: int)
    ensures b * ((Y * d + 1) * M) == (d * b) * (Y * M) + b * M
  {
    var z := Y * M;
    assert (Y * d + 1) * M == (Y * d) * M + M;
    Rotate(Y, d, M);
    assert (Y * M) * d == d * z;
    assert b * (d * z + M) == b * (d * z) + b * M;
    Rotate(d, b, z);
    assert b * (d * z) == (d * b) * z by { MulSwap(b, d, 1, z); }
  }

  lemma QuadraticAlgebra(a: int, u: int)
    ensures -(a - 2) * ((u - 1) * (u - 1)) + (a + 2) * ((u + 1) * (u + 1)) == 4 * (u * u + a * u + 1)
  {
    var U := u * u;
    assert (u - 1) * (u - 1) == U - 2 * u + 1 && (u + 1) * (u + 1) == U + 2 * u + 1;
    assert (a - 2) * (U - 2 * u + 1) == a * U - 2 * (a * u) + a - 2 * U + 4 * u - 2;
    assert (a + 2) * (U + 2 * u + 1) == a * U + 2 * (a * u) + a + 2 * U + 4 * u + 2;
    assert -(a - 2) * (U - 2 * u + 1) == -((a - 2) * (U - 2 * u + 1));
  }

  lemma DenominatorScaled(k: Curve, u: int, y: int)
    requires ValidCurve(k) && Cong(k.f.p, y * (u + 1), u - 1)
    ensures Cong(k.f.p, (k.a + 2) * (((y * y) * k.d + 1) * ((u + 1) * (u + 1))), 4 * (u * u + k.a * u + 1))
  {
    hide Cong, IsPrime;
    var p, m := k.f.p, u + 1;
    var x := y * m;
    var b := k.d * (k.a + 2);
    DenominatorAlgebra(k.a, k.d, u, y);
    CongMul(p, x, u - 1, x, u - 1);
    CongMul(p, b, -(k.a - 2), x * x, (u - 1) * (u - 1));
    CongBy(p, b * (x * x) + (k.a + 2) * (m * m), 4 * (u * u + k.a * u + 1),
           b * (x * x), -(k.a - 2) * ((u - 1) * (u - 1)), 1);
  }

  lemma ScaledSquare(q: int, v: int, c: int, n: int)
    ensures (q * v) * ((c * n) * (c * n)) == (c * c) * ((q * n) * (v * n))
  {
    MulSwap(c, n, c, n);
    MulSwap(q, v, n, n);
    MulSwap(q * v, c * c, 1, n * n);
  }

  lemma ProductScaled(k: Curve, u: int, q: int, v: int)
    requires ValidCurve(k)
    requires Cong(k.f.p, q * ((u + 1) * (u + 1)), -4 * u)
    requires Cong(k.f.p, (k.a + 2) * (v * ((u + 1) * (u + 1))), 4 * (u * u + k.a * u + 1))
    ensures var s := k.c * ((u + 1) * (u + 1));
      Cong(k.f.p, (q * v) * (s * s), (u * (u * u + k.a * u + 1)) * (4 * 4))
  {
    hide Cong, IsPrime;
    var p, n := k.f.p, (u + 1) * (u + 1);
    ScaledSquare(q, v, k.c, n);
    NegatedProduct(p, k.c * k.c, k.a + 2, q * n, v * n, u, u * u + k.a * u + 1);
  }

  lemma NegatedProduct(p: int, cc: int, b: int, x: int, y: int, u: int, t: int)
    requires Cong(p, cc, -b) && Cong(p, x, -4 * u) && Cong(p, b * y, 4 * t)
    ensures Cong(p, cc * (x * y), (u * t) * (4 * 4))
  {
    hide Cong;
    CongMul(p, x, -4 * u, b * y, 4 * t);
    assert x * (b * y) == b * (x * y) by { MulSwap(x, 1, b, y); }
    assert (-4 * u) * (4 * t) == -(u * t * (4 * 4)) by { MulSwap(-4, u, 4, t); }
    CongBy2(p, cc * (x * y), (u * t) * (4 * 4), cc, -b, x * y, x * (b * y), (-4 * u) * (4 * t), -1);
  }

  /** to_edwards succeeds exactly on the u-coordinates of curve points, with the
      nonnegative x for sign 0, and to_montgomery takes the result back to u. */
  lemma ToEdwardsCorrect(k: Curve, u: int)
    requires ValidCurve(k)
    ensures ToEdwards(k, u, false).Some? <==> OnMontgomery(k, u)
    ensures ToEdwards(k, u, false).Some? ==>
      var (x, y) := ToEdwards(k, u, false).value;
      OnEdwards(k, x, y) && !IsNegative(k.f, x) && Cong(k.f.p, MontgomeryU(y), u)
  {
    hide Cong, IsPrime, Invert, SqrtRatioI, IsNegative, Eq;
    var p := k.f.p;
    if Cong(p, u, -1) {
      CurveFacts(k);
      MinusOneIsOnTwist(k, u);
    } else {
      EdwardsY(k.f, u);
      var y0 := (u - 1) * Invert(u + 1);
      var y := Canonical(p, y0);
      CanonicalCong(p, y0);
      DivModUnique(y, TopBit(k.f), 0, y);
      CongBy2(p, y * (u + 1), u - 1, y, y0, u + 1, y0 * (u + 1), u - 1, 1);
      CongBy(p, (1 - y) * (u + 1), 2, y * (u + 1), u - 1, -1);
      RatioCharacter(k, u, y);
      DecodeRoot(k, y);
      MontgomeryUOf(k.f, u, y);
    }
  }

  lemma TwistAlgebra(a: int, u: int)
    ensures u * (u * u + a * u + 1) - (a - 2) == (u * u + (a - 1) * u + (2 - a)) * (u + 1)
  {
    var n := u * u;
    assert (n + (a - 1) * u + (2 - a)) * (u + 1) == (n + (a - 1) * u + (2 - a)) * u + (n + (a - 1) * u + (2 - a));
    assert (n + (a - 1) * u + (2 - a)) * u == n * u + ((a - 1) * u) * u + (2 - a) * u;
    assert u * (n + a * u + 1) == u * n + u * (a * u) + u;
    assert ((a - 1) * u) * u == (a - 1) * n && u * (a * u) == a * n;
  }

  lemma MinusOneIsOnTwist(k: Curve, u: int)
    requires ValidCurve(k) && Cong(k.f.p, u, -1) && !IsSquare(k.f, k.a - 2)
    ensures !OnMontgomery(k, u)
  {
    hide Cong, IsPrime;
    var w := u * (u * u + k.a * u + 1);
    TwistAlgebra(k.a, u);
    CongBy(k.f.p, w, k.a - 2, u, -1, u * u + (k.a - 1) * u + (2 - k.a));
    SquareCong(k.f, w, k.a - 2);
  }

  lemma MontgomeryUOf(f: Field, u: int, y: int)
    requires Valid(f) && !Cong(f.p, u + 1, 0)
    requires Cong(f.p, y * (u + 1), u - 1) && Cong(f.p, (1 - y) * (u + 1), 2)
    ensures !Cong(f.p, 1 - y, 0) && Cong(f.p, MontgomeryU(y), u)
  {
    hide Cong, IsPrime, Invert;
    var p, m := f.p, u + 1;
    if Cong(p, 1 - y, 0) {
      CongBy2(p, 2, 0, (1 - y) * m, 2, -1, 1 - y, 0, m);
      SmallIsNonzero(p, 2);
    }
    // (1 + y) m = 2 u = u (1 - y) m
    CongBy2(p, m * (1 + y), m * (u * (1 - y)), y * m, u - 1, 1, (1 - y) * m, 2, -u);
    Cancel(p, m, 1 + y, u * (1 - y));
    Dehomogenize(f, 1 + y, u, 1 - y);
  }

  /** Going to the u-line and back gives the point or its opposite, except at the identity. */
  lemma ToEdwardsOfMontgomeryU(k: Curve, x: int, y: int, u: int)
    requires ValidCurve(k) && OnEdwards(k, x, y) && !Cong(k.f.p, y, 1)
    requires Cong(k.f.p, u, MontgomeryU(y))
    ensures var r := ToEdwards(k, u, false);
      && r.Some? && Cong(k.f.p, r.value.1, y)
      && (Cong(k.f.p, r.value.0, x) || Cong(k.f.p, r.value.0, -x))
      && OnMontgomery(k, u)
  {
    hide Cong, IsPrime, Invert, SqrtRatioI, IsNegative, Eq, OnMontgomery;
    var p := k.f.p;
    if Cong(p, 1 - y, 0) { CongBy(p, y, 1, 1 - y, 0, -1); }
    UTimesDenominator(k.f, y);
    CongBy2(p, u * (1 - y), 1 + y, u, MontgomeryU(y), 1 - y, MontgomeryU(y) * (1 - y), 1 + y, 1);
    if Cong(p, u, -1) {
      CongBy2(p, 2, 0, u * (1 - y), 1 + y, -1, u, -1, 1 - y);
      SmallIsNonzero(p, 2);
    }
    EdwardsY(k.f, u);
    var y0 := (u - 1) * Invert(u + 1);
    SameEdwardsY(k.f, u, y, y0);
    var y' := Canonical(p, y0);
    CanonicalCong(p, y0);
    CongTrans(p, y', y0, y);
    CongSym(p, y', y);
    DivModUnique(y', TopBit(k.f), 0, y');
    CongRefl(k.f.p, x);
    CongSym(k.f.p, y, y');
    OnEdwardsCong(k, x, y, x, y');
    DecodeRoot(k, y');
    var r := SqrtRatioI(k.f, y' * y' - 1, (y' * y') * k.d + 1).1;
    SquareRoots(p, r, x);
    ToEdwardsCorrect(k, u);
  }

  /** The u-coordinate depends on the residue of y only. */
  lemma MontgomeryUCong(f: Field, y: int, y': int)
    requires Valid(f) && Cong(f.p, y, y')
    ensures Cong(f.p, MontgomeryU(y), MontgomeryU(y'))
  {
    hide Cong, IsPrime, Invert;
    ChainExponents(f, 1 - y);
    ChainExponents(f, 1 - y');
    CongBy(f.p, 1 - y, 1 - y', y, y', -1);
    CongBy(f.p, 1 + y, 1 + y', y, y', 1);
    PowCong(f.p, 1 - y, 1 - y', f.p - 2);
    CongMul(f.p, 1 + y, 1 + y', Invert(1 - y), Invert(1 - y'));
  }

  lemma QuotientAlgebra(y: int, Z: int, u: int, W: int)
    ensures (1 + y) * Z - u * W == -u * (W - (1 - y) * Z) + -Z * (u * (1 - y) - (1 + y))
  {
    var n, m := 1 - y, 1 + y;
    assert -u * (W - n * Z) == -(u * W) + u * (n * Z);
    assert -Z * (u * n - m) == -(Z * (u * n)) + Z * m;
    Rotate(u, n, Z);
    assert Z * (u * n) == (u * n) * Z && (u * n) * Z == u * (n * Z);
  }

  /** to_montgomery on extended coordinates computes the affine formula. */
  lemma ToMontgomeryIsMontgomeryU(k: Curve, P: EdwardsPoint, x: int, y: int)
    requires ValidCurve(k) && Represents(k, P, x, y)
    ensures ToMontgomery(k, P) == Canonical(k.f.p, MontgomeryU(y))
  {
    hide Cong, IsPrime, Invert;
    var p := k.f.p;
    var U, W := P.Z + P.Y, P.Z - P.Y;
    CongBy(p, U, (1 + y) * P.Z, P.Y, y * P.Z, 1);
    CongBy(p, W, (1 - y) * P.Z, P.Y, y * P.Z, -1);
    InvertCorrect(k.f, W);
    InvertCorrect(k.f, 1 - y);
    NonzeroProduct(p, 1 - y, P.Z);
    if Cong(p, 1 - y, 0) {
      CongTrans(p, W, (1 - y) * P.Z, 0);
      CongBy(p, U * Invert(W), 0, Invert(W), 0, U);
      CongBy(p, MontgomeryU(y), 0, Invert(1 - y), 0, 1 + y);
      CongSym(p, MontgomeryU(y), 0);
      CongTrans(p, U * Invert(W), 0, MontgomeryU(y));
    } else {
      UTimesDenominator(k.f, y);
      var u := MontgomeryU(y);
      if Cong(p, W, 0) {
        CongSym(p, W, (1 - y) * P.Z);
        CongTrans(p, (1 - y) * P.Z, W, 0);
      }
      // U = (1 + y) Z = u (1 - y) Z = u W
      QuotientAlgebra(y, P.Z, u, W);
      CongBy2(p, (1 + y) * P.Z, u * W, W, (1 - y) * P.Z, -u, u * (1 - y), 1 + y, -P.Z);
      CongTrans(p, U, (1 + y) * P.Z, u * W);
      Dehomogenize(k.f, U, u, W);
    }
    CongIffCanonical(p, U * Invert(W), MontgomeryU(y));
  }

  lemma UTimesDenominator(f: Field, y: int)
    requires Valid(f) && !Cong(f.p, 1 - y, 0)
    ensures Cong(f.p, MontgomeryU(y) * (1 - y), 1 + y)
  {
    hide Cong, IsPrime, Invert;
    InvertCorrect(f, 1 - y);
    var w := Invert(1 - y);
    Rotate(1 + y, w, 1 - y);
    CongBy(f.p, ((1 + y) * w) * (1 - y), 1 + y, (1 - y) * w, 1, 1 + y);
  }

  lemma SameEdwardsY(f: Field, u: int, y: int, y0: int)
    requires Valid(f) && Cong(f.p, u * (1 - y), 1 + y)
    requires Cong(f.p, y0 * (u + 1), u - 1)
    ensures Cong(f.p, y0, y)
  {
    hide Cong, IsPrime;
    var p := f.p;
    // (u + 1)(1 - y) = 2 and (u - 1)(1 - y) = 2 y
    CongBy2(p, 2 * y0, 2 * y, u * (1 - y), 1 + y, 1 - y0, y0 * (u + 1), u - 1, 1 - y);
    SmallIsNonzero(p, 2);
    Cancel(p, 2, y0, y);
  }
}
