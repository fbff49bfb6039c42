/** Squares and nonsquares of the field, as the Elligator map and point decoding use them. */
module Squares {
  import opened Arith
  import opened FieldAlgorithms

  lemma SquareIntro(f: Field, a: int, x: int)
    requires Cong(f.p, x * x, a)
    ensures IsSquare(f, a)
  {
  }

  lemma SquareCong(f: Field, a: int, b: int)
    requires Cong(f.p, a, b)
    ensures IsSquare(f, a) <==> IsSquare(f, b)
  {
    hide Cong;
    if IsSquare(f, a) {
      var x :| Cong(f.p, x * x, a);
      CongTrans(f.p, x * x, a, b);
      SquareIntro(f, b, x);
    }
    if IsSquare(f, b) {
      var x :| Cong(f.p, x * x, b);
      CongSym(f.p, a, b);
      CongTrans(f.p, x * x, b, a);
      SquareIntro(f, a, x);
    }
  }

  lemma SquareTimesSquare(f: Field, a: int, b: int)
    requires IsSquare(f, a) && IsSquare(f, b)
    ensures IsSquare(f, a * b)
  {
    hide Cong;
    var x :| Cong(f.p, x * x, a);
    var y :| Cong(f.p, y * y, b);
    CongMul(f.p, x * x, a, y * y, b);
    MulSwap(x, x, y, y);
    SquareIntro(f, a * b, x * y);
  }

  /** A nonzero square factor does not matter. */
  lemma SquareFactor(f: Field, a: int, s: int)
    requires Valid(f) && !Cong(f.p, s, 0)
    ensures IsSquare(f, a * (s * s)) <==> IsSquare(f, a)
  {
    hide Cong, IsPrime;
    CongRefl(f.p, s * s);
    SquareIntro(f, s * s, s);
    if IsSquare(f, a) {
      SquareTimesSquare(f, a, s * s);
    }
    if IsSquare(f, a * (s * s)) {
      var t := InverseExists(f.p, s);
      CongRefl(f.p, t * t);
      SquareIntro(f, t * t, t);
      SquareTimesSquare(f, a * (s * s), t * t);
      var one := s * t;
      assert a * (s * s) * (t * t) == a * (one * one) by {
        MulSwap(s, s, t, t);
        MulSwap(a, s * s, 1, t * t);
      }
      assert a * (one * one) - a == (a * (one + 1)) * (one - 1);
      CongBy(f.p, a * (s * s) * (t * t), a, one, 1, a * (one + 1));
      SquareCong(f, a * (s * s) * (t * t), a);
    }
  }

  lemma RatioIsProduct(f: Field, u: int, v: int)
    requires Valid(f) && !Cong(f.p, v, 0)
    ensures IsSquareRatio(f, u, v) <==> IsSquare(f, u * v)
  {
    hide Cong, IsPrime, Valid;
    if y :| Cong(f.p, v * (y * y), u) {
      RatioToProduct(f, u, v, y);
    }
    if s :| Cong(f.p, s * s, u * v) {
      ProductToRatio(f, u, v, s);
    }
  }

  lemma RatioToProduct(f: Field, u: int, v: int, y: int)
    requires Cong(f.p, v * (y * y), u)
    ensures IsSquare(f, u * v)
  {
    hide Cong;
    var Y := y * y;
    MulSwap(v, y, v, y);
    ScaleBoth(v, Y, u);
    CongBy(f.p, (v * v) * Y, u * v, v * Y, u, v);
    SquareIntro(f, u * v, v * y);
  }

  lemma ScaleBoth(v: int, Y: int, u: int)
    ensures (v * v) * Y - u * v == v * (v * Y - u)
  {
  }

  lemma ProductToRatio(f: Field, u: int, v: int, s: int)
    requires Valid(f) && !Cong(f.p, v, 0) && Cong(f.p, s * s, u * v)
    ensures IsSquareRatio(f, u, v)
  {
    hide Cong, IsPrime;
    var w := InverseExists(f.p, v);
    var one, c := v * w, v * (w * w);
    RatioAlgebra2(u, v, w, s);
    CongBy2(f.p, v * ((s * w) * (s * w)), u, s * s, u * v, c, one, 1, u * (one + 1));
  }

  lemma RatioAlgebra2(u: int, v: int, w: int, s: int)
    ensures v * ((s * w) * (s * w)) - u == (v * (w * w)) * (s * s - u * v) + (u * (v * w + 1)) * (v * w - 1)
  {
    var S, W, o := s * s, w * w, v * w;
    MulSwap(s, w, s, w);
    Rotate(v, W, S);
    ClearedSquare(u, v, w);
    DifferenceTerm(v * W, S, u * v);
    UnitTerm(u, o);
  }

  lemma ClearedSquare(u: int, v: int, w: int)
    ensures (v * (w * w)) * (u * v) == u * ((v * w) * (v * w))
  {
    MulSwap(v, w, v, w);
    MulSwap(v, w * w, u, v);
    MulSwap(v, u, w * w, v);
    Rotate(u, v * v, w * w);
  }

  lemma DifferenceTerm(c: int, S: int, t: int)
    ensures c * (S - t) == c * S - c * t
  {
  }

  lemma UnitTerm(u: int, o: int)
    ensures (u * (o + 1)) * (o - 1) == u * (o * o) - u
  {
    var q := o * o;
    assert (o + 1) * (o - 1) == q - 1;
    Rotate(u, o + 1, o - 1);
  }

  /** What the library's square test tells, for every numerator and nonzero denominator. */
  lemma SquareTest(f: Field, u: int, v: int)
    requires Valid(f) && !Cong(f.p, v, 0)
    ensures var (isSquare, r) := SqrtRatioI(f, u, v);
      && !IsNegative(f, r)
      && (isSquare <==> IsSquare(f, u * v))
      && Cong(f.p, v * (r * r), if isSquare then u else f.i * u)
  {
    hide Cong, IsPrime, SqrtRatioI, IsNegative;
    SqrtRatioCorrect(f, u, v);
    RatioIsProduct(f, u, v);
  }

  /** i times a nonsquare is a square. */
  lemma NonsquareRotated(f: Field, a: int)
    requires Valid(f)
    ensures IsSquare(f, a) || IsSquare(f, f.i * a)
  {
    hide Cong, IsPrime, SqrtRatioI, IsNegative;
    SmallIsNonzero(f.p, 1);
    SquareTest(f, a, 1);
    var r := SqrtRatioI(f, a, 1).1;
    assert 1 * (r * r) == r * r && a * 1 == a;
    if !IsSquare(f, a) {
      SquareIntro(f, f.i * a, r);
    }
  }

  lemma NonsquareTimesNonsquare(f: Field, a: int, b: int)
    requires Valid(f) && !IsSquare(f, a) && !IsSquare(f, b)
    ensures IsSquare(f, a * b)
  {
    hide Cong, IsPrime;
    NonsquareRotated(f, a);
    NonsquareRotated(f, b);
    SquareTimesSquare(f, f.i * a, f.i * b);
    MulSwap(f.i, a, f.i, b);
    var i := f.i;
    SmallIsNonzero(f.p, i);
    assert (i * i) * (a * b) == (a * b) * (i * i);
    SquareFactor(f, a * b, i);
  }

  lemma SquareTimesNonsquare(f: Field, a: int, b: int)
    requires Valid(f) && IsSquare(f, a) && !Cong(f.p, a, 0) && !IsSquare(f, b)
    ensures !IsSquare(f, a * b)
  {
    hide Cong, IsPrime;
    var x :| Cong(f.p, x * x, a);
    if Cong(f.p, x, 0) {
      CongBy2(f.p, a, 0, x * x, a, -1, x, 0, x);
    }
    CongBy(f.p, b * (x * x), a * b, x * x, a, b);
    SquareCong(f, b * (x * x), a * b);
    SquareFactor(f, b, x);
  }

  /** 2 is not a square: 2 i = (1 + i)^2 and i is not a square. */
  lemma TwoIsNonsquare(f: Field)
    requires Valid(f)
    ensures !IsSquare(f, 2)
  {
    hide Cong, IsPrime;
    var i := f.i;
    IIsNonsquare(f);
    SmallIsNonzero(f.p, 2);
    if IsSquare(f, 2) {
      SquareTimesNonsquare(f, 2, i);
      assert (1 + i) * (1 + i) - 2 * i == 1 + i * i;
      CongBy(f.p, (1 + i) * (1 + i), 2 * i, i * i, -1, 1);
      SquareIntro(f, 2 * i, 1 + i);
    }
  }
}
