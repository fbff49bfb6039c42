/** The Montgomery ladder (curve25519-dalek/src/montgomery.rs). The curve is any group whose
    affine points satisfy B y^2 = x^3 + A x^2 + x and add by chords and tangents, so B ranging
    over squares and nonsquares covers Curve25519 and its twist. The u-only differential
    step is derived from that law, its exceptional cases included. */
module Ladder {
  import opened Arith
  import opened Groups
  import opened FieldAlgorithms
  import opened Powers
  import opened Recoding

  datatype Mont<!G> = Mont(f: Field, a: int, b: int, a24: int, g: Group<G>, x: G -> int, y: G -> int)

  // ---------- the chord and tangent law ----------

  function Cubic(a: int, x: int): int {
    x * (x * x + a * x + 1)
  }

  function Sq(x: int): int {
    x * x
  }

  ghost predicate PointAt<G>(m: Mont<G>, P: G) {
    P != m.g.zero ==>
      && Cong(m.f.p, m.b * Sq(m.y(P)), Cubic(m.a, m.x(P)))
      && Cong(m.f.p, m.x(m.g.neg(P)), m.x(P))
      && Cong(m.f.p, m.y(m.g.neg(P)), -m.y(P))
  }

  ghost predicate SameAt<G>(m: Mont<G>, P: G, Q: G) {
    P != m.g.zero && Q != m.g.zero && Cong(m.f.p, m.x(P), m.x(Q)) && Cong(m.f.p, m.y(P), m.y(Q)) ==> P == Q
  }

  /** The third point of the chord: slope (yQ - yP)/(xQ - xP), cleared of denominators. */
  ghost predicate ChordAt<G>(m: Mont<G>, P: G, Q: G) {
    P != m.g.zero && Q != m.g.zero && !Cong(m.f.p, m.x(P), m.x(Q)) ==>
      && m.g.add(P, Q) != m.g.zero
      && Cong(m.f.p, m.x(m.g.add(P, Q)) * Sq(m.x(Q) - m.x(P)),
              m.b * Sq(m.y(Q) - m.y(P)) - (m.a + m.x(P) + m.x(Q)) * Sq(m.x(Q) - m.x(P)))
  }

  /** The tangent at a point with y nonzero: slope (3x^2 + 2Ax + 1)/(2By). */
  ghost predicate TangentAt<G>(m: Mont<G>, P: G) {
    P != m.g.zero && !Cong(m.f.p, m.y(P), 0) ==>
      && m.g.add(P, P) != m.g.zero
      && Cong(m.f.p, m.x(m.g.add(P, P)) * (4 * (m.b * Sq(m.y(P)))),
              Sq(3 * Sq(m.x(P)) + 2 * m.a * m.x(P) + 1) - (m.a + 2 * m.x(P)) * (4 * (m.b * Sq(m.y(P)))))
  }

  ghost predicate IsMontgomery<G(!new)>(m: Mont<G>) {
    && Valid(m.f) && IsGroup(m.g)
    && Cong(m.f.p, 4 * m.a24, m.a + 2)
    && !Cong(m.f.p, m.b, 0) && !Cong(m.f.p, m.a - 2, 0) && !Cong(m.f.p, m.a + 2, 0)
    && (forall P :: PointAt(m, P) && TangentAt(m, P))
    && (forall P, Q :: SameAt(m, P, Q) && ChordAt(m, P, Q))
  }

  // ---------- the code ----------

  datatype Proj = Proj(U: int, W: int)

  /** differential_add_and_double: the new P and the new Q. */
  function DifferentialAddAndDouble(a24: int, P: Proj, Q: Proj, affinePmQ: int): (Proj, Proj) {
    var t0 := P.U + P.W;
    var t1 := P.U - P.W;
    var t2 := Q.U + Q.W;
    var t3 := Q.U - Q.W;
    var t4 := t0 * t0;
    var t5 := t1 * t1;
    var t6 := t4 - t5;
    var t7 := t0 * t3;
    var t8 := t1 * t2;
    var t9 := t7 + t8;
    var t10 := t7 - t8;
    var t11 := t9 * t9;
    var t12 := t10 * t10;
    var t13 := a24 * t6;
    var t14 := t4 * t5;
    var t15 := t13 + t5;
    var t16 := t6 * t15;
    var t17 := affinePmQ * t12;
    var t18 := t11;
    (Proj(t14, t16), Proj(t18, t17))
  }

  function AsAffine(f: Field, P: Proj): int
    requires f.p > 0
  {
    Canonical(f.p, P.U * Invert(P.W))
  }

  // ---------- representation ----------

  /** (U : W) is the image of P on the u-line; the identity goes to (1 : 0). */
  ghost predicate Rep<G>(m: Mont<G>, P: G, X: Proj) {
    if P == m.g.zero then Cong(m.f.p, X.W, 0) && !Cong(m.f.p, X.U, 0)
    else !Cong(m.f.p, X.W, 0) && Cong(m.f.p, X.U, m.x(P) * X.W)
  }

  lemma CongSub(m: int, a: int, b: int, c: int, d: int)
    requires Cong(m, a, b) && Cong(m, c, d)
    ensures Cong(m, a - c, b - d)
  {
    CongBy2(m, a - c, b - d, a, b, 1, c, d, -1);
  }

  /** Multiply two quantities each known up to a common weight. */
  lemma WeightedMul(p: int, a: int, s: int, v: int, b: int, t: int, w: int)
    requires Cong(p, a, s * v) && Cong(p, b, t * w)
    ensures Cong(p, a * b, (s * t) * (v * w))
  {
    CongMul(p, a, s * v, b, t * w);
    MulSwap(s, v, t, w);
  }

  lemma WeightedAdd(p: int, a: int, s: int, b: int, t: int, v: int)
    requires Cong(p, a, s * v) && Cong(p, b, t * v)
    ensures Cong(p, a + b, (s + t) * v) && Cong(p, a - b, (s - t) * v)
  {
    CongAdd(p, a, s * v, b, t * v);
    CongSub(p, a, s * v, b, t * v);
    assert (s + t) * v == s * v + t * v && (s - t) * v == s * v - t * v;
  }

  lemma Weights(p: int, X: Proj, x: int)
    requires Cong(p, X.U, x * X.W)
    ensures Cong(p, X.U + X.W, (x + 1) * X.W) && Cong(p, X.U - X.W, (x - 1) * X.W)
  {
    assert X.W == 1 * X.W;
    CongRefl(p, X.W);
    WeightedAdd(p, X.U, x, X.W, 1, X.W);
  }

  /** The doubled coordinates of an affine point: W^4 (x^2-1)^2 and W^4 4 f(x). */
  lemma DoubledForm(p: int, a: int, a24: int, X: Proj, Y: Proj, u: int, x: int)
    requires Cong(p, 4 * a24, a + 2) && Cong(p, X.U, x * X.W)
    ensures var R := DifferentialAddAndDouble(a24, X, Y, u).0; var V := Sq(X.W) * Sq(X.W);
      && Cong(p, R.U, Sq(x * x - 1) * V)
      && Cong(p, R.W, (4 * Cubic(a, x)) * V)
  {
    hide Cong;
    var w := X.W * X.W;
    var t0, t1 := X.U + X.W, X.U - X.W;
    Weights(p, X, x);
    WeightedMul(p, t0, x + 1, X.W, t0, x + 1, X.W);
    WeightedMul(p, t1, x - 1, X.W, t1, x - 1, X.W);
    var t4, t5 := t0 * t0, t1 * t1;
    var s, d := (x + 1) * (x + 1), (x - 1) * (x - 1);
    WeightedMul(p, t4, s, w, t5, d, w);
    WeightedAdd(p, t4, s, t5, d, w);
    var t6 := t4 - t5;
    assert s - d == 4 * x;
    // t13 = a24 t6 = (a + 2) x w
    CongBy2(p, a24 * t6, ((a + 2) * x) * w, t6, (4 * x) * w, a24, 4 * a24, a + 2, x * w) by {
      ScaledDifference(a24, t6, a, x, w);
    }
    WeightedAdd(p, a24 * t6, (a + 2) * x, t5, d, w);
    assert (a + 2) * x + d == x * x + a * x + 1;
    WeightedMul(p, t6, 4 * x, w, a24 * t6 + t5, x * x + a * x + 1, w);
    assert (4 * x) * (x * x + a * x + 1) == 4 * Cubic(a, x) by { Outer(4, x, x * x + a * x + 1); }
    assert s * d == Sq(x * x - 1) by { SquareOfDifference(x); }
  }

  lemma SquareOfDifference(x: int)
    ensures ((x + 1) * (x + 1)) * ((x - 1) * (x - 1)) == (x * x - 1) * (x * x - 1)
  {
    MulSwap(x + 1, x + 1, x - 1, x - 1);
    assert (x + 1) * (x - 1) == x * x - 1;
  }

  lemma ScaledDifference(k: int, t: int, a: int, x: int, w: int)
    ensures k * t - ((a + 2) * x) * w == k * (t - (4 * x) * w) + (x * w) * (4 * k - (a + 2))
  {
    Outer(4, x, w);
    Outer(a + 2, x, w);
    var z := x * w;
    assert k * (4 * z) == z * (4 * k);
    assert (a + 2) * z == z * (a + 2);
  }

  lemma SumOutput(a24: int, X: Proj, Y: Proj, u: int)
    ensures var t7, t8 := (X.U + X.W) * (Y.U - Y.W), (X.U - X.W) * (Y.U + Y.W);
      DifferentialAddAndDouble(a24, X, Y, u).1 == Proj((t7 + t8) * (t7 + t8), u * ((t7 - t8) * (t7 - t8)))
  {
  }

  /** The summed coordinates of two affine points. */
  lemma SummedForm(p: int, a24: int, X: Proj, Y: Proj, u: int, x: int, y: int)
    requires Cong(p, X.U, x * X.W) && Cong(p, Y.U, y * Y.W)
    ensures var R := DifferentialAddAndDouble(a24, X, Y, u).1; var V := Sq(X.W * Y.W);
      && Cong(p, R.U, (4 * Sq(x * y - 1)) * V)
      && Cong(p, R.W, (4 * (u * Sq(y - x))) * V)
  {
    hide Cong, Sq, DifferentialAddAndDouble;
    SumOutput(a24, X, Y, u);
    var v := X.W * Y.W;
    var t7, t8 := (X.U + X.W) * (Y.U - Y.W), (X.U - X.W) * (Y.U + Y.W);
    CrossSums(p, X, Y, x, y);
    SquaredWeights(p, t7 + t8, x * y - 1, v);
    SquaredWeights(p, t7 - t8, y - x, v);
    WeightedByU(p, u, (t7 - t8) * (t7 - t8), Sq(y - x), Sq(v));
  }

  lemma WeightedByU(p: int, u: int, t: int, s: int, v: int)
    requires Cong(p, t, (4 * s) * v)
    ensures Cong(p, u * t, (4 * (u * s)) * v)
  {
    CongRefl(p, u);
    CongMul(p, u, u, t, (4 * s) * v);
    Rearrange(u, s, v);
  }

  lemma CrossSums(p: int, X: Proj, Y: Proj, x: int, y: int)
    requires Cong(p, X.U, x * X.W) && Cong(p, Y.U, y * Y.W)
    ensures var t7, t8 := (X.U + X.W) * (Y.U - Y.W), (X.U - X.W) * (Y.U + Y.W); var v := X.W * Y.W;
      Cong(p, t7 + t8, (2 * (x * y - 1)) * v) && Cong(p, t7 - t8, (2 * (y - x)) * v)
  {
    hide Cong;
    Weights(p, X, x);
    Weights(p, Y, y);
    WeightedMul(p, X.U + X.W, x + 1, X.W, Y.U - Y.W, y - 1, Y.W);
    WeightedMul(p, X.U - X.W, x - 1, X.W, Y.U + Y.W, y + 1, Y.W);
    var s, d := (x + 1) * (y - 1), (x - 1) * (y + 1);
    CrossTerms(x, y);
    WeightedAdd(p, (X.U + X.W) * (Y.U - Y.W), s, (X.U - X.W) * (Y.U + Y.W), d, X.W * Y.W);
  }

  lemma CrossTerms(x: int, y: int)
    ensures (x + 1) * (y - 1) + (x - 1) * (y + 1) == 2 * (x * y - 1)
    ensures (x + 1) * (y - 1) - (x - 1) * (y + 1) == 2 * (y - x)
  {
  }

  lemma SquaredWeights(p: int, t: int, c: int, v: int)
    requires Cong(p, t, (2 * c) * v)
    ensures Cong(p, t * t, (4 * Sq(c)) * Sq(v))
  {
    hide Cong;
    WeightedMul(p, t, 2 * c, v, t, 2 * c, v);
    assert (2 * c) * (2 * c) == 4 * (c * c);
  }

  lemma Rearrange(u: int, s: int, v: int)
    ensures u * ((4 * s) * v) == (4 * (u * s)) * v
  {
    Outer(4, s, v);
    Outer(4, u * s, v);
    Outer(u, s, v);
  }

  // ---------- from the law to the u-line ----------

  lemma NegNonzero<G(!new)>(m: Mont<G>, P: G)
    requires IsGroup(m.g) && P != m.g.zero
    ensures m.g.neg(P) != m.g.zero && m.g.neg(m.g.neg(P)) == P
  {
    hide IsGroup;
    Neg(m.g, P);
    Unit(m.g, P);
    NegUnique(m.g, m.g.neg(P), P);
  }

  /** Affine points with the same x are equal or opposite. */
  lemma SameX<G(!new)>(m: Mont<G>, P: G, Q: G)
    requires IsMontgomery(m) && P != m.g.zero && Q != m.g.zero && Cong(m.f.p, m.x(P), m.x(Q))
    ensures P == Q || P == m.g.neg(Q)
  {
    assert PointAt(m, P) && PointAt(m, Q) && SameAt(m, P, Q) && SameAt(m, P, m.g.neg(Q));
    NegNonzero(m, Q);
    hide Cong, IsPrime, IsGroup;
    var p, x, z := m.f.p, m.x(P), m.x(Q);
    var y, w := m.y(P), m.y(Q);
    CubicCong(p, m.a, x, z);
    CongTrans(p, m.b * Sq(y), Cubic(m.a, x), Cubic(m.a, z));
    CongSym(p, m.b * Sq(w), Cubic(m.a, z));
    CongTrans(p, m.b * Sq(y), Cubic(m.a, z), m.b * Sq(w));
    Cancel(p, m.b, Sq(y), Sq(w));
    SquareRoots(p, y, w);
    if Cong(p, y, -w) {
      CongSym(p, m.y(m.g.neg(Q)), -w);
      CongTrans(p, y, -w, m.y(m.g.neg(Q)));
      CongSym(p, m.x(m.g.neg(Q)), z);
      CongTrans(p, x, z, m.x(m.g.neg(Q)));
    }
  }

  lemma CubicCong(p: int, a: int, x: int, z: int)
    requires Cong(p, x, z)
    ensures Cong(p, Cubic(a, x), Cubic(a, z))
  {
    hide Cong;
    CongMul(p, x, z, x, z);
    CongRefl(p, a);
    CongRefl(p, 1);
    CongMul(p, a, a, x, z);
    CongAdd(p, x * x, z * z, a * x, a * z);
    CongAdd(p, x * x + a * x, z * z + a * z, 1, 1);
    CongMul(p, x, z, x * x + a * x + 1, z * z + a * z + 1);
  }

  /** x(2P) 4 f(x) = (x^2 - 1)^2. */
  lemma DoublingLaw<G(!new)>(m: Mont<G>, P: G)
    requires IsMontgomery(m) && P != m.g.zero && !Cong(m.f.p, m.y(P), 0)
    ensures var x := m.x(P);
      && m.g.add(P, P) != m.g.zero && !Cong(m.f.p, Cubic(m.a, x), 0)
      && Cong(m.f.p, m.x(m.g.add(P, P)) * (4 * Cubic(m.a, x)), Sq(x * x - 1))
  {
    assert PointAt(m, P) && TangentAt(m, P);
    hide Cong, IsPrime, IsGroup, Cubic;
    var p, x, c, e := m.f.p, m.x(P), Cubic(m.a, m.x(P)), m.b * Sq(m.y(P));
    var d := m.x(m.g.add(P, P));
    var t := Sq(3 * Sq(x) + 2 * m.a * x + 1);
    assert t == Sq(x * x - 1) + (m.a + 2 * x) * (4 * c) by { TangentAlgebra(m.a, x); }
    CongBy2(p, d * (4 * c), Sq(x * x - 1), d * (4 * e), t - (m.a + 2 * x) * (4 * e), 1, e, c,
      -4 * (d + m.a + 2 * x)) by {
      TangentCofactor(d, c, e, m.a + 2 * x);
    }
    if Cong(p, c, 0) {
      CongTrans(p, e, c, 0);
      NonzeroProduct(p, m.b, Sq(m.y(P)));
      NonzeroProduct(p, m.y(P), m.y(P));
    }
  }

  lemma TangentAlgebra(a: int, x: int)
    ensures Sq(3 * Sq(x) + 2 * a * x + 1) == Sq(x * x - 1) + (a + 2 * x) * (4 * Cubic(a, x))
  {
    var y, z := x * x, a * x;
    assert 2 * a * x == 2 * z;
    // f = x g with g = y + z + 1, and 3y + 2z + 1 = (y - 1) + 2 (y + z + 1) = (y - 1) + 2 g
    var g := y + z + 1;
    assert Sq(y - 1 + 2 * g) == Sq(y - 1) + 4 * (g * (y - 1 + g)) by { SquareOfSum(y - 1, g); }
    assert y - 1 + g == (a + 2 * x) * x;
    assert (a + 2 * x) * (4 * (x * g)) == 4 * (g * ((a + 2 * x) * x)) by { FourFactors(a + 2 * x, x, g); }
  }

  lemma SquareOfSum(u: int, g: int)
    ensures (u + 2 * g) * (u + 2 * g) == u * u + 4 * (g * (u + g))
  {
  }

  lemma FourFactors(s: int, x: int, g: int)
    ensures s * (4 * (x * g)) == 4 * (g * (s * x))
  {
    Outer(s, x, g);
    assert s * (4 * (x * g)) == 4 * (s * (x * g));
  }

  lemma TangentCofactor(d: int, c: int, e: int, s: int)
    ensures d * (4 * c) + s * (4 * c)
         == d * (4 * e) + s * (4 * e) + (-4 * (d + s)) * (e - c)
  {
    assert d * (4 * c) == 4 * (d * c) && s * (4 * c) == 4 * (s * c);
    assert d * (4 * e) == 4 * (d * e) && s * (4 * e) == 4 * (s * e);
    assert (d + s) * (e - c) == d * e - d * c + s * e - s * c;
    assert (-4 * (d + s)) * (e - c) == -4 * ((d + s) * (e - c));
  }

  /** x(P+Q) x(P-Q) (xQ - xP)^2 = (xP xQ - 1)^2. */
  lemma DifferentialLaw<G(!new)>(m: Mont<G>, P: G, Q: G)
    requires IsMontgomery(m) && P != m.g.zero && Q != m.g.zero && !Cong(m.f.p, m.x(P), m.x(Q))
    ensures var x, z := m.x(P), m.x(Q); var E := m.g.add(P, m.g.neg(Q));
      && m.g.add(P, Q) != m.g.zero && E != m.g.zero
      && Cong(m.f.p, m.x(m.g.add(P, Q)) * (m.x(E) * Sq(z - x)), Sq(x * z - 1))
  {
    hide Cong, IsPrime, IsGroup, Cubic, Sq, IsMontgomery, ChordAt;
    TwoChords(m, P, Q);
    var p, x, z, y, w := m.f.p, m.x(P), m.x(Q), m.y(P), m.y(Q);
    DistinctSquare(p, x, z);
    var d, e := m.x(m.g.add(P, Q)), m.x(m.g.add(P, m.g.neg(Q)));
    ChordProduct(p, m.a, m.b, x, z, y, w, d, e);
    CancelSquare(p, Sq(z - x), d, e, Sq(x * z - 1));
  }

  /** The chords through P and Q and through P and -Q. */
  lemma TwoChords<G(!new)>(m: Mont<G>, P: G, Q: G)
    requires IsMontgomery(m) && P != m.g.zero && Q != m.g.zero && !Cong(m.f.p, m.x(P), m.x(Q))
    ensures IsPrime(m.f.p)
    ensures var p, a, b, x, z, y, w := m.f.p, m.a, m.b, m.x(P), m.x(Q), m.y(P), m.y(Q);
      var D, E := m.g.add(P, Q), m.g.add(P, m.g.neg(Q));
      && D != m.g.zero && E != m.g.zero
      && Cong(p, b * Sq(y), Cubic(a, x)) && Cong(p, b * Sq(w), Cubic(a, z))
      && Cong(p, m.x(D) * Sq(z - x), b * Sq(w - y) - (a + x + z) * Sq(z - x))
      && Cong(p, m.x(E) * Sq(z - x), b * Sq(y + w) - (a + x + z) * Sq(z - x))
  {
    hide Cong, IsPrime, IsGroup, Cubic, Sq, IsMontgomery;
    var N := m.g.neg(Q);
    AtPoints(m, P, Q);
    AtPoints(m, P, N);
    NegNonzero(m, Q);
    var p, x, z := m.f.p, m.x(P), m.x(Q);
    if Cong(p, x, m.x(N)) { CongTrans(p, x, m.x(N), z); }
    SecondChord(p, m.a, m.b, x, z, m.y(P), m.x(N), m.y(N), m.y(Q), m.x(m.g.add(P, N)));
  }

  lemma AtPoints<G(!new)>(m: Mont<G>, P: G, Q: G)
    requires IsMontgomery(m)
    ensures IsPrime(m.f.p) && IsGroup(m.g) && PointAt(m, P) && PointAt(m, Q) && ChordAt(m, P, Q)
  {
    hide Cong, IsPrime, IsGroup;
  }

  lemma DistinctSquare(p: int, x: int, z: int)
    requires IsPrime(p) && !Cong(p, x, z)
    ensures !Cong(p, Sq(z - x), 0)
  {
    hide Cong, IsPrime;
    NonzeroProduct(p, z - x, z - x);
    if Cong(p, z - x, 0) {
      CongBy(p, x, z, z - x, 0, -1);
    }
  }

  lemma CancelSquare(p: int, D: int, d: int, e: int, r: int)
    requires IsPrime(p) && !Cong(p, D, 0) && Cong(p, (d * D) * (e * D), D * r)
    ensures Cong(p, d * (e * D), r)
  {
    hide Cong, IsPrime;
    assert D * (d * (e * D)) == (d * D) * (e * D) by { Outer(d, D, e * D); Outer(D, d, e * D); }
    Cancel(p, D, d * (e * D), r);
  }

  /** The chord through P and -Q, in Q's coordinates. */
  lemma SecondChord(p: int, a: int, b: int, x: int, z: int, y: int, z': int, w': int, w: int, e: int)
    requires Cong(p, z', z) && Cong(p, w', -w)
    requires Cong(p, e * Sq(z' - x), b * Sq(w' - y) - (a + x + z') * Sq(z' - x))
    ensures Cong(p, e * Sq(z - x), b * Sq(y + w) - (a + x + z) * Sq(z - x))
  {
    hide Cong;
    var S, S', T, T' := Sq(z - x), Sq(z' - x), Sq(y + w), Sq(w' - y);
    CongRefl(p, x);
    CongRefl(p, y);
    CongRefl(p, e);
    CongRefl(p, b);
    CongSub(p, z', z, x, x);
    CongMul(p, z' - x, z - x, z' - x, z - x);
    CongSub(p, w', -w, y, y);
    CongMul(p, w' - y, -w - y, w' - y, -w - y);
    assert (-w - y) * (-w - y) == T;
    CongMul(p, b, b, T', T);
    CongBy(p, a + x + z', a + x + z, z', z, 1);
    CongMul(p, a + x + z', a + x + z, S', S);
    CongSub(p, b * T', b * T, (a + x + z') * S', (a + x + z) * S);
    CongMul(p, e, e, S', S);
    CongSym(p, e * S', e * S);
    CongTrans(p, e * S, e * S', b * T' - (a + x + z') * S');
    CongTrans(p, e * S, b * T' - (a + x + z') * S', b * T - (a + x + z) * S);
  }

  /** Multiplying the two chord equations removes the y-coordinates. */
  lemma ChordProduct(p: int, a: int, b: int, x: int, z: int, y: int, w: int, d: int, e: int)
    requires Cong(p, b * Sq(y), Cubic(a, x)) && Cong(p, b * Sq(w), Cubic(a, z))
    requires Cong(p, d * Sq(z - x), b * Sq(w - y) - (a + x + z) * Sq(z - x))
    requires Cong(p, e * Sq(z - x), b * Sq(y + w) - (a + x + z) * Sq(z - x))
    ensures Cong(p, (d * Sq(z - x)) * (e * Sq(z - x)), Sq(z - x) * Sq(x * z - 1))
  {
    hide Cong;
    var S, K, F, H := Sq(z - x), (a + x + z) * Sq(z - x), Cubic(a, x), Cubic(a, z);
    var yy, ww, c, M := b * Sq(y), b * Sq(w), b * (y * w), Cubic(a, x) + Cubic(a, z) - (a + x + z) * Sq(z - x);
    assert b * Sq(w - y) == yy + ww - 2 * c && b * Sq(y + w) == yy + ww + 2 * c by { SquareTerms(b, y, w); }
    hide Sq, Cubic;
    CongBy2(p, yy + ww - K, M, yy, F, 1, ww, H, 1);
    CongBy(p, yy + ww - K - 2 * c, M - 2 * c, yy + ww - K, M, 1);
    CongBy(p, yy + ww - K + 2 * c, M + 2 * c, yy + ww - K, M, 1);
    CongTrans(p, d * S, yy + ww - 2 * c - K, M - 2 * c);
    CongTrans(p, e * S, yy + ww + 2 * c - K, M + 2 * c);
    CongMul(p, d * S, M - 2 * c, e * S, M + 2 * c);
    assert c * c == yy * ww by { SquareOfProduct(b, y, w); }
    CongMul(p, yy, F, ww, H);
    assert (M - 2 * c) * (M + 2 * c) == M * M - 4 * (c * c);
    CongBy(p, M * M - 4 * (yy * ww), M * M - 4 * (F * H), yy * ww, F * H, -4);
    CongTrans(p, (d * S) * (e * S), M * M - 4 * (yy * ww), M * M - 4 * (F * H));
    ChordIdentity(a, x, z);
  }

  lemma SquareTerms(b: int, y: int, w: int)
    ensures b * Sq(w - y) == b * Sq(y) + b * Sq(w) - 2 * (b * (y * w))
    ensures b * Sq(y + w) == b * Sq(y) + b * Sq(w) + 2 * (b * (y * w))
  {
    var s, t, u := y * y, w * w, y * w;
    assert Sq(w - y) == s + t - 2 * u && Sq(y + w) == s + t + 2 * u;
  }

  lemma SquareOfProduct(b: int, y: int, w: int)
    ensures (b * (y * w)) * (b * (y * w)) == (b * Sq(y)) * (b * Sq(w))
  {
    MulSwap(b, y * w, b, y * w);
    MulSwap(y, w, y, w);
    MulSwap(b, y * y, b, w * w);
  }

  /** With q = xz and t = x + z: M = t (q+1) + 2aq and M^2 - 4 f(x) f(z) = (t^2 - 4q)(q - 1)^2. */
  lemma ChordIdentity(a: int, x: int, z: int)
    ensures var M := Cubic(a, x) + Cubic(a, z) - (a + x + z) * Sq(z - x);
      M * M - 4 * (Cubic(a, x) * Cubic(a, z)) == Sq(z - x) * Sq(x * z - 1)
  {
    var q, t := x * z, x + z;
    ChordSum(a, x, z);
    CubicProduct(a, x, z);
    Discriminant(a, q, t);
    assert Sq(z - x) == t * t - 4 * q;
  }

  lemma Distribute(c: int, u: int, v: int, w: int)
    ensures c * (u + v + w) == c * u + c * v + c * w && (u + v + w) * c == c * u + c * v + c * w
  {
  }

  lemma ChordSum(a: int, x: int, z: int)
    ensures Cubic(a, x) + Cubic(a, z) - (a + x + z) * Sq(z - x) == (x + z) * (x * z + 1) + 2 * (a * (x * z))
  {
    hide Cubic, Sq;
    CubicTerms(a, x);
    CubicTerms(a, z);
    SquareOfGap(x, z);
    Outer(x, z, z);
    Outer(z, x, x);
    ChordSumExpanded(a, x, z, x * x, z * z, x * z, Sq(z - x), Cubic(a, x), Cubic(a, z));
  }

  lemma SquareOfGap(x: int, z: int)
    ensures Sq(z - x) == x * x + z * z + -2 * (x * z)
  {
  }

  lemma ChordSumExpanded(a: int, x: int, z: int, X: int, Z: int, q: int, S: int, F: int, H: int)
    requires x * Z == z * q && z * X == x * q && S == X + Z + -2 * q
    requires F == x * X + a * X + x && H == z * Z + a * Z + z
    ensures F + H - (a + x + z) * S == (x + z) * (q + 1) + 2 * (a * q)
  {
    Distribute(S, a, x, z);
    GapTerms(a, X, Z, q, S);
    GapTerms(x, X, Z, q, S);
    GapTerms(z, X, Z, q, S);
    Distribute(q + 1, x, z, 0);
    Distribute(x, q, 1, 0);
    Distribute(z, q, 1, 0);
  }

  lemma GapTerms(c: int, X: int, Z: int, q: int, S: int)
    requires S == X + Z + -2 * q
    ensures S * c == c * X + c * Z - 2 * (c * q) && c * S == c * X + c * Z - 2 * (c * q)
  {
    Distribute(c, X, Z, -2 * q);
  }

  lemma CubicTerms(a: int, x: int)
    ensures Cubic(a, x) == x * (x * x) + a * (x * x) + x
  {
    assert x * (a * x) == a * (x * x);
  }

  lemma CubicProduct(a: int, x: int, z: int)
    ensures var q, t := x * z, x + z;
      Cubic(a, x) * Cubic(a, z) == q * (q * q + (a * t) * q + (t * t - 2 * q) + (a * a) * q + a * t + 1)
  {
    var q, t := x * z, x + z;
    MulSwap(x, x * x + a * x + 1, z, z * z + a * z + 1);
    QuadraticProduct(a, x, z);
  }

  lemma QuadraticProduct(a: int, x: int, z: int)
    ensures var q, t := x * z, x + z;
      (x * x + a * x + 1) * (z * z + a * z + 1) == q * q + (a * t) * q + (t * t - 2 * q) + (a * a) * q + a * t + 1
  {
    var q, t := x * z, x + z;
    var X, Z, u, v := x * x, z * z, a * x, a * z;
    assert X * Z == q * q by { MulSwap(x, x, z, z); }
    assert u * v == (a * a) * q by { MulSwap(a, x, a, z); }
    assert X * v == u * q by { MulSwap(x, x, a, z); }
    assert u * Z == v * q by { MulSwap(a, x, z, z); }
    assert a * t == u + v && X + Z == t * t - 2 * q;
    assert (u + v) * q == u * q + v * q;
    Distribute(Z + v + 1, X, u, 1);
    Distribute(X, Z, v, 1);
    Distribute(u, Z, v, 1);
  }

  lemma Discriminant(a: int, q: int, t: int)
    ensures Sq(t * (q + 1) + 2 * (a * q)) - 4 * (q * (q * q + (a * t) * q + (t * t - 2 * q) + (a * a) * q + a * t + 1))
         == (t * t - 4 * q) * Sq(q - 1)
  {
    var u, v := t * (q + 1), a * q;
    SquareOfSum(u, v);
    Split3(v, u, v);
    MulSwap(t, q + 1, t, q + 1);
    MulSwap(a, q, a, q);
    MulSwap(t, q + 1, a, q);
    QSquares(q);
    DiscriminantLeft(t * t, a * t, q * q, q, a * a);
    DiscriminantRight(t * t, q * q, q);
    DiscriminantTotal(t * t, a * t, q * q, q, a * a, u * u, u * v, v * v, (q + 1) * (q + 1), (q + 1) * q);
  }

  lemma Split3(c: int, u: int, v: int)
    ensures c * (u + v) == c * u + c * v && u * v == v * u
  {
  }

  lemma QSquares(q: int)
    ensures (q + 1) * (q + 1) == q * q + 2 * q + 1 && (q + 1) * q == q * q + q && Sq(q - 1) == q * q - 2 * q + 1
  {
  }

  lemma DiscriminantTotal(T: int, r: int, Q: int, q: int, A: int, uu: int, uv: int, vv: int, ss: int, sq: int)
    requires Q == q * q && ss == Q + 2 * q + 1 && sq == Q + q
    requires uu == T * ss && uv == r * sq && vv == A * Q
    ensures uu + 4 * uv + 4 * vv - 4 * (q * (Q + r * q + (T - 2 * q) + A * q + r + 1)) == (T - 4 * q) * (Q - 2 * q + 1)
  {
    DiscriminantLeft(T, r, Q, q, A);
    DiscriminantRight(T, Q, q);
  }

  lemma DiscriminantLeft(T: int, r: int, Q: int, q: int, A: int)
    requires Q == q * q
    ensures q * (Q + r * q + (T - 2 * q) + A * q + r + 1) == q * Q + r * Q + T * q - 2 * Q + A * Q + r * q + q
    ensures r * (Q + q) == r * Q + r * q && T * (Q + 2 * q + 1) == T * Q + 2 * (T * q) + T
  {
    Rotate(r, q, q);
    Rotate(A, q, q);
    SixTerms(q, Q, r * q, T, A * q, r);
    Distribute(r, Q, q, 0);
    Distribute(T, Q, 2 * q, 1);
  }

  lemma SixTerms(q: int, u: int, v: int, w: int, x: int, y: int)
    ensures q * (u + v + (w - 2 * q) + x + y + 1) == q * u + v * q + w * q - 2 * (q * q) + x * q + y * q + q
  {
    Distribute(q, u + v, w - 2 * q, x + y + 1);
    Distribute(q, u, v, 0);
    Distribute(q, x, y, 1);
  }

  lemma DiscriminantRight(T: int, Q: int, q: int)
    requires Q == q * q
    ensures (T - 4 * q) * (Q - 2 * q + 1) == T * Q - 2 * (T * q) + T - 4 * (q * Q) + 8 * Q - 4 * q
  {
    var d := Q - 2 * q + 1;
    assert (T - 4 * q) * d == T * d - 4 * (q * d);
    assert q * d == q * Q - 2 * Q + q;
    assert T * d == T * Q - 2 * (T * q) + T;
  }

  // ---------- the step on points ----------

  lemma SmallUnits<G(!new)>(m: Mont<G>)
    requires IsMontgomery(m)
    ensures IsPrime(m.f.p) && !Cong(m.f.p, 2, 0) && !Cong(m.f.p, 4, 0)
  {
    SmallIsNonzero(m.f.p, 2);
    SmallIsNonzero(m.f.p, 4);
  }

  lemma NonzeroProduct3(p: int, a: int, b: int, c: int)
    requires IsPrime(p) && !Cong(p, a, 0) && !Cong(p, b, 0) && !Cong(p, c, 0)
    ensures !Cong(p, a * b, 0) && !Cong(p, (a * b) * c, 0)
  {
    NonzeroProduct(p, a, b);
    NonzeroProduct(p, a * b, c);
  }

  lemma NonzeroCong(p: int, a: int, b: int)
    requires Cong(p, a, b)
    ensures Cong(p, a, 0) <==> Cong(p, b, 0)
  {
    CongSym(p, a, b);
    if Cong(p, a, 0) {
      CongTrans(p, b, a, 0);
    } else if Cong(p, b, 0) {
      CongTrans(p, a, b, 0);
    }
  }

  /** An affine point is its own opposite exactly when y vanishes. */
  lemma OrderTwo<G(!new)>(m: Mont<G>, P: G)
    requires IsMontgomery(m) && P != m.g.zero && Cong(m.f.p, m.y(P), 0)
    ensures m.g.add(P, P) == m.g.zero && Cong(m.f.p, Cubic(m.a, m.x(P)), 0)
  {
    var N, p := m.g.neg(P), m.f.p;
    assert PointAt(m, P) && SameAt(m, P, N);
    NegNonzero(m, P);
    Neg(m.g, P);
    hide Cong, IsPrime, IsGroup, Cubic;
    CongSym(p, m.x(N), m.x(P));
    CongBy2(p, m.y(P), m.y(N), m.y(P), 0, 2, m.y(N), -m.y(P), -1);
    var c, e := Cubic(m.a, m.x(P)), m.b * Sq(m.y(P));
    CongBy(p, e, 0, m.y(P), 0, m.b * m.y(P)) by { Outer(m.b, m.y(P), m.y(P)); }
    CongSym(p, e, c);
    CongTrans(p, c, e, 0);
  }

  /** x = 1 and x = -1 are not roots of f. */
  lemma UnitsAreNotRoots<G(!new)>(m: Mont<G>, x: int)
    requires IsMontgomery(m) && Cong(m.f.p, Cubic(m.a, x), 0)
    ensures !Cong(m.f.p, x * x - 1, 0)
  {
    hide Cong, IsPrime, IsGroup;
    var p, a := m.f.p, m.a;
    if Cong(p, x * x - 1, 0) {
      assert Cubic(a, x) == (x + a) * (x * x - 1) + (2 * x + a) by { CubicTerms(a, x); UnitDivision(a, x); }
      CongBy2(p, 2 * x + a, 0, Cubic(a, x), 0, 1, x * x - 1, 0, -(x + a));
      assert x * x - 1 == (x - 1) * (x + 1);
      NoZeroDivisors(p, x - 1, x + 1);
      if Cong(p, x - 1, 0) {
        CongBy2(p, a + 2, 0, 2 * x + a, 0, 1, x - 1, 0, -2);
      } else {
        CongBy2(p, a - 2, 0, 2 * x + a, 0, 1, x + 1, 0, -2);
      }
    }
  }

  lemma UnitDivision(a: int, x: int)
    ensures x * (x * x) + a * (x * x) + x == (x + a) * (x * x - 1) + (2 * x + a)
  {
    var X := x * x;
    assert (x + a) * (X - 1) == x * X + a * X - x - a;
  }

  lemma DoubleStep<G(!new)>(m: Mont<G>, P: G, X: Proj, Y: Proj, u: int)
    requires IsMontgomery(m) && Rep(m, P, X)
    ensures Rep(m, m.g.add(P, P), DifferentialAddAndDouble(m.a24, X, Y, u).0)
  {
    if P == m.g.zero {
      DoubleIdentity(m, X, Y, u);
    } else {
      DoubleAffine(m, P, X, Y, u);
    }
  }

  lemma DoubleOutput(a24: int, X: Proj, Y: Proj, u: int)
    ensures var t4, t5 := (X.U + X.W) * (X.U + X.W), (X.U - X.W) * (X.U - X.W);
      DifferentialAddAndDouble(a24, X, Y, u).0 == Proj(t4 * t5, (t4 - t5) * (a24 * (t4 - t5) + t5))
  {
  }

  lemma DoubleIdentity<G(!new)>(m: Mont<G>, X: Proj, Y: Proj, u: int)
    requires IsMontgomery(m) && Rep(m, m.g.zero, X)
    ensures Rep(m, m.g.add(m.g.zero, m.g.zero), DifferentialAddAndDouble(m.a24, X, Y, u).0)
  {
    hide Cong, IsPrime, IsGroup;
    var p := m.f.p;
    Unit(m.g, m.g.zero);
    var t0, t1 := X.U + X.W, X.U - X.W;
    CongBy(p, t0, X.U, X.W, 0, 1);
    CongBy(p, t1, X.U, X.W, 0, -1);
    NonzeroCong(p, t0, X.U);
    NonzeroCong(p, t1, X.U);
    NonzeroProduct(p, t0, t0);
    NonzeroProduct(p, t1, t1);
    NonzeroProduct(p, t0 * t0, t1 * t1);
    var t6 := t0 * t0 - t1 * t1;
    DifferenceOfSquares(X.U, X.W);
    NonzeroProduct(p, 4 * X.U, X.W);
    NonzeroProduct(p, t6, m.a24 * t6 + t1 * t1);
    DoubleOutput(m.a24, X, Y, u);
    hide DifferentialAddAndDouble;
  }

  lemma DifferenceOfSquares(u: int, w: int)
    ensures (u + w) * (u + w) - (u - w) * (u - w) == (4 * u) * w
  {
  }

  lemma DoubleAffine<G(!new)>(m: Mont<G>, P: G, X: Proj, Y: Proj, u: int)
    requires IsMontgomery(m) && P != m.g.zero && Rep(m, P, X)
    ensures Rep(m, m.g.add(P, P), DifferentialAddAndDouble(m.a24, X, Y, u).0)
  {
    var p, x := m.f.p, m.x(P);
    var R := DifferentialAddAndDouble(m.a24, X, Y, u).0;
    hide Cong, IsPrime, IsGroup, Cubic, DifferentialAddAndDouble, Sq;
    DoubledForm(p, m.a, m.a24, X, Y, u, x);
    SmallUnits(m);
    var c, V, r := Cubic(m.a, x), Sq(X.W) * Sq(X.W), Sq(x * x - 1);
    SquareNonzero(p, X.W);
    NonzeroProduct(p, Sq(X.W), Sq(X.W));
    NonzeroProduct(p, 4, c);
    NonzeroProduct(p, 4 * c, V);
    NonzeroCong(p, R.W, (4 * c) * V);
    if Cong(p, m.y(P), 0) {
      OrderTwo(m, P);
      UnitsAreNotRoots(m, x);
      SquareNonzero(p, x * x - 1);
      NonzeroProduct(p, r, V);
      NonzeroCong(p, R.U, r * V);
    } else {
      DoublingLaw(m, P);
      RatioOfForms(p, m.x(m.g.add(P, P)), 4 * c, r, V, R);
    }
  }

  lemma SquareNonzero(p: int, a: int)
    requires IsPrime(p)
    ensures Cong(p, Sq(a), 0) <==> Cong(p, a, 0)
  {
    NonzeroProduct(p, a, a);
  }

  /** If d s = r then U = r V and W = s V give U = d W. */
  lemma RatioOfForms(p: int, d: int, s: int, r: int, V: int, R: Proj)
    requires Cong(p, d * s, r) && Cong(p, R.U, r * V) && Cong(p, R.W, s * V)
    ensures Cong(p, R.U, d * R.W)
  {
    hide Cong;
    CongRefl(p, d);
    CongMul(p, d, d, R.W, s * V);
    CongSym(p, d * R.W, d * (s * V));
    CongSym(p, d * s, r);
    CongRefl(p, V);
    CongMul(p, r, d * s, V, V);
    Outer(d, s, V);
    CongTrans(p, R.U, r * V, d * (s * V));
    CongTrans(p, R.U, d * (s * V), d * R.W);
  }

  /** The sum step when one of the points is the identity: t9 = u a and t10 = +-a. */
  lemma Degenerate(p: int, u: int, t9: int, t10: int, a: int)
    requires IsPrime(p) && Cong(p, t9, u * a) && (Cong(p, t10, a) || Cong(p, t10, -a))
    requires !Cong(p, u, 0) && !Cong(p, a, 0)
    ensures !Cong(p, u * (t10 * t10), 0) && Cong(p, t9 * t9, u * (u * (t10 * t10)))
  {
    hide Cong, IsPrime;
    if Cong(p, t10, a) {
      CongMul(p, t10, a, t10, a);
    } else {
      CongMul(p, t10, -a, t10, -a);
      assert (-a) * (-a) == a * a;
    }
    var z := t10 * t10;
    NonzeroProduct(p, a, a);
    NonzeroCong(p, z, a * a);
    NonzeroProduct(p, u, z);
    CongMul(p, t9, u * a, t9, u * a);
    MulSwap(u, a, u, a);
    CongSym(p, z, a * a);
    CongRefl(p, u * u);
    CongMul(p, u * u, u * u, a * a, z);
    CongTrans(p, t9 * t9, (u * u) * (a * a), (u * u) * z);
    Outer(u, u, z);
  }

  /** Identity + Q, with P - Q = -Q known by its coordinate u. */
  lemma AddIdentityLeft(p: int, u: int, a24: int, X: Proj, Y: Proj)
    requires IsPrime(p) && !Cong(p, 2, 0) && !Cong(p, u, 0)
    requires Cong(p, X.W, 0) && !Cong(p, X.U, 0) && !Cong(p, Y.W, 0) && Cong(p, Y.U, u * Y.W)
    ensures var R := DifferentialAddAndDouble(a24, X, Y, u).1; !Cong(p, R.W, 0) && Cong(p, R.U, u * R.W)
  {
    hide Cong, IsPrime;
    var t7, t8 := (X.U + X.W) * (Y.U - Y.W), (X.U - X.W) * (Y.U + Y.W);
    SumTerms(X, Y);
    var a := (2 * X.U) * Y.W;
    CongBy2(p, t7 + t8, u * a, Y.U, u * Y.W, 2 * X.U, X.W, 0, -2 * Y.W) by { LeftTerms(u, X, Y); }
    CongBy(p, t7 - t8, -a, X.W, 0, 2 * Y.U);
    NonzeroProduct3(p, 2, X.U, Y.W);
    Degenerate(p, u, t7 + t8, t7 - t8, a);
  }

  /** P + identity, with P - Q = P known by its coordinate u. */
  lemma AddIdentityRight(p: int, u: int, a24: int, X: Proj, Y: Proj)
    requires IsPrime(p) && !Cong(p, 2, 0) && !Cong(p, u, 0)
    requires Cong(p, Y.W, 0) && !Cong(p, Y.U, 0) && !Cong(p, X.W, 0) && Cong(p, X.U, u * X.W)
    ensures var R := DifferentialAddAndDouble(a24, X, Y, u).1; !Cong(p, R.W, 0) && Cong(p, R.U, u * R.W)
  {
    hide Cong, IsPrime;
    var t7, t8 := (X.U + X.W) * (Y.U - Y.W), (X.U - X.W) * (Y.U + Y.W);
    SumTerms(X, Y);
    var a := (2 * Y.U) * X.W;
    CongBy2(p, t7 + t8, u * a, X.U, u * X.W, 2 * Y.U, Y.W, 0, -2 * X.W) by { LeftTerms(u, Y, X); }
    CongBy(p, t7 - t8, a, Y.W, 0, -2 * X.U);
    NonzeroProduct3(p, 2, Y.U, X.W);
    Degenerate(p, u, t7 + t8, t7 - t8, a);
  }

  lemma SumTerms(X: Proj, Y: Proj)
    ensures var t7, t8 := (X.U + X.W) * (Y.U - Y.W), (X.U - X.W) * (Y.U + Y.W);
      && t7 + t8 == (2 * X.U) * Y.U + (-2 * Y.W) * X.W
      && t7 - t8 == (2 * Y.U) * X.W - (2 * X.U) * Y.W
  {
  }

  lemma LeftTerms(u: int, X: Proj, Y: Proj)
    ensures (2 * X.U) * Y.U + (-2 * Y.W) * X.W - u * ((2 * X.U) * Y.W)
         == (2 * X.U) * (Y.U - u * Y.W) + (-2 * Y.W) * (X.W - 0)
    ensures (2 * X.U) * Y.U + (-2 * X.W) * Y.W == (2 * Y.U) * X.U + (-2 * Y.W) * X.W
  {
    Outer(u, 2 * X.U, Y.W);
    Outer(2 * X.U, u, Y.W);
  }

  /** Two affine points with different x. */
  lemma AddDistinct<G(!new)>(m: Mont<G>, P: G, Q: G, X: Proj, Y: Proj, u: int)
    requires IsMontgomery(m) && Rep(m, P, X) && Rep(m, Q, Y)
    requires P != m.g.zero && Q != m.g.zero && !Cong(m.f.p, m.x(P), m.x(Q))
    requires !Cong(m.f.p, u, 0) && Cong(m.f.p, m.x(m.g.add(P, m.g.neg(Q))), u)
    ensures Rep(m, m.g.add(P, Q), DifferentialAddAndDouble(m.a24, X, Y, u).1)
  {
    var p, x, z := m.f.p, m.x(P), m.x(Q);
    var R := DifferentialAddAndDouble(m.a24, X, Y, u).1;
    hide Cong, IsPrime, IsGroup, Cubic, DifferentialAddAndDouble, Sq, PointAt, ChordAt;
    SmallUnits(m);
    SummedForm(p, m.a24, X, Y, u, x, z);
    DifferentialLaw(m, P, Q);
    DistinctSquare(p, x, z);
    var d, e, S, r, V := m.x(m.g.add(P, Q)), m.x(m.g.add(P, m.g.neg(Q))), Sq(z - x), Sq(x * z - 1), Sq(X.W * Y.W);
    SummedRatio(p, d, e, u, S, r);
    RatioOfForms(p, d, 4 * (u * S), 4 * r, V, R);
    NonzeroProduct(p, X.W, Y.W);
    SquareNonzero(p, X.W * Y.W);
    NonzeroProduct(p, u, S);
    NonzeroProduct3(p, 4, u * S, V);
    NonzeroCong(p, R.W, (4 * (u * S)) * V);
  }

  lemma SummedRatio(p: int, d: int, e: int, u: int, S: int, r: int)
    requires Cong(p, d * (e * S), r) && Cong(p, e, u)
    ensures Cong(p, d * (4 * (u * S)), 4 * r)
  {
    hide Cong;
    Outer(4 * d, e, S);
    Outer(4 * d, u, S);
    assert d * (4 * (u * S)) == (4 * d) * (u * S) && 4 * (d * (e * S)) == (4 * d) * (e * S);
    assert ((4 * d) * S) * (e - u) == (4 * d) * (e * S) - (4 * d) * (u * S) by { GapTimes(4 * d, S, e, u); }
    CongBy2(p, d * (4 * (u * S)), 4 * r, d * (e * S), r, 4, e, u, -((4 * d) * S));
  }

  lemma GapTimes(k: int, S: int, e: int, u: int)
    ensures (k * S) * (e - u) == k * (e * S) - k * (u * S)
  {
    Outer(k, S, e);
    Outer(k, S, u);
  }

  /** x(P)^2 = 1 would make the coordinate of 2P zero. */
  lemma DoubleHasNonzeroU<G(!new)>(m: Mont<G>, P: G, u: int)
    requires IsMontgomery(m) && P != m.g.zero && m.g.add(P, P) != m.g.zero
    requires !Cong(m.f.p, u, 0) && Cong(m.f.p, m.x(m.g.add(P, P)), u)
    ensures !Cong(m.f.p, m.x(P) * m.x(P) - 1, 0)
  {
    var p, x := m.f.p, m.x(P);
    hide Cong, IsPrime, IsGroup, Cubic, Sq, PointAt, ChordAt;
    SmallUnits(m);
    if Cong(p, m.y(P), 0) { OrderTwo(m, P); }
    DoublingLaw(m, P);
    var e, c := m.x(m.g.add(P, P)), Cubic(m.a, x);
    NonzeroCong(p, e, u);
    NonzeroProduct(p, 4, c);
    NonzeroProduct(p, e, 4 * c);
    NonzeroCong(p, e * (4 * c), Sq(x * x - 1));
    SquareNonzero(p, x * x - 1);
  }

  /** Opposite affine points: the sum is the identity and u is the coordinate of 2P. */
  lemma AddOpposite<G(!new)>(m: Mont<G>, P: G, Q: G, X: Proj, Y: Proj, u: int)
    requires IsMontgomery(m) && Rep(m, P, X) && Rep(m, Q, Y)
    requires P != m.g.zero && Q != m.g.zero && Cong(m.f.p, m.x(P), m.x(Q))
    requires m.g.add(P, m.g.neg(Q)) != m.g.zero
    requires !Cong(m.f.p, u, 0) && Cong(m.f.p, m.x(m.g.add(P, m.g.neg(Q))), u)
    ensures Rep(m, m.g.add(P, Q), DifferentialAddAndDouble(m.a24, X, Y, u).1)
  {
    var p, x, z := m.f.p, m.x(P), m.x(Q);
    var R := DifferentialAddAndDouble(m.a24, X, Y, u).1;
    SameX(m, P, Q);
    Neg(m.g, Q);
    assert m.g.add(P, Q) == m.g.zero && m.g.neg(Q) == P;
    SmallUnits(m);
    DoubleHasNonzeroU(m, P, u);
    OppositeForm(p, u, m.a24, X, Y, x, z);
  }

  lemma OppositeForm(p: int, u: int, a24: int, X: Proj, Y: Proj, x: int, z: int)
    requires IsPrime(p) && !Cong(p, 4, 0) && Cong(p, x, z) && !Cong(p, x * x - 1, 0)
    requires !Cong(p, X.W, 0) && !Cong(p, Y.W, 0) && Cong(p, X.U, x * X.W) && Cong(p, Y.U, z * Y.W)
    ensures var R := DifferentialAddAndDouble(a24, X, Y, u).1; Cong(p, R.W, 0) && !Cong(p, R.U, 0)
  {
    var R := DifferentialAddAndDouble(a24, X, Y, u).1;
    hide Cong, IsPrime, DifferentialAddAndDouble, Sq;
    SummedForm(p, a24, X, Y, u, x, z);
    var S, r, V := Sq(z - x), Sq(x * z - 1), Sq(X.W * Y.W);
    CongBy(p, z - x, 0, x, z, -1);
    SquareNonzero(p, z - x);
    NonzeroProduct(p, u, S);
    NonzeroProduct(p, 4, u * S);
    NonzeroProduct(p, 4 * (u * S), V);
    NonzeroCong(p, R.W, (4 * (u * S)) * V);
    CongBy(p, x * x - 1, x * z - 1, x, z, x);
    NonzeroCong(p, x * x - 1, x * z - 1);
    SquareNonzero(p, x * z - 1);
    NonzeroProduct(p, X.W, Y.W);
    SquareNonzero(p, X.W * Y.W);
    NonzeroProduct3(p, 4, r, V);
    NonzeroCong(p, R.U, (4 * r) * V);
  }

  /** The differential addition, in every case, when the difference is affine with u nonzero. */
  lemma AddStep<G(!new)>(m: Mont<G>, P: G, Q: G, X: Proj, Y: Proj, u: int)
    requires IsMontgomery(m) && Rep(m, P, X) && Rep(m, Q, Y)
    requires m.g.add(P, m.g.neg(Q)) != m.g.zero
    requires !Cong(m.f.p, u, 0) && Cong(m.f.p, m.x(m.g.add(P, m.g.neg(Q))), u)
    ensures Rep(m, m.g.add(P, Q), DifferentialAddAndDouble(m.a24, X, Y, u).1)
  {
    var p := m.f.p;
    SmallUnits(m);
    if P == m.g.zero {
      Unit(m.g, m.g.neg(Q));
      Unit(m.g, Q);
      Neg(m.g, m.g.zero);
      Unit(m.g, m.g.neg(m.g.zero));
      assert Q != m.g.zero && PointAt(m, Q);
      hide Cong, IsPrime, IsGroup, DifferentialAddAndDouble;
      CongSym(p, m.x(m.g.neg(Q)), m.x(Q));
      CongTrans(p, m.x(Q), m.x(m.g.neg(Q)), u);
      RebaseForm(p, m.x(Q), u, Y);
      AddIdentityLeft(p, u, m.a24, X, Y);
      RebaseForm(p, u, m.x(Q), DifferentialAddAndDouble(m.a24, X, Y, u).1);
    } else if Q == m.g.zero {
      Neg(m.g, m.g.zero);
      Unit(m.g, m.g.neg(m.g.zero));
      Unit(m.g, P);
      hide Cong, IsPrime, IsGroup, DifferentialAddAndDouble;
      RebaseForm(p, m.x(P), u, X);
      AddIdentityRight(p, u, m.a24, X, Y);
      RebaseForm(p, u, m.x(P), DifferentialAddAndDouble(m.a24, X, Y, u).1);
    } else if Cong(p, m.x(P), m.x(Q)) {
      AddOpposite(m, P, Q, X, Y, u);
    } else {
      AddDistinct(m, P, Q, X, Y, u);
    }
  }

  lemma RebaseForm(p: int, x: int, u: int, X: Proj)
    requires Cong(p, x, u) || Cong(p, u, x)
    requires Cong(p, X.U, x * X.W)
    ensures Cong(p, X.U, u * X.W)
  {
    if !Cong(p, x, u) { CongSym(p, u, x); }
    CongBy2(p, X.U, u * X.W, X.U, x * X.W, 1, x, u, X.W);
  }

  // ---------- the ladder ----------

  function BitsValue(bits: seq<bool>): nat {
    if bits == [] then 0 else 2 * BitsValue(bits[..|bits| - 1]) + (if bits[|bits| - 1] then 1 else 0)
  }

  /** u_0: the u-coordinate, with the identity sent to 0. */
  function U0<G(==)>(m: Mont<G>, P: G): int {
    if P == m.g.zero then 0 else m.x(P)
  }

  /** The pair holds [k]D and [k+1]D in the order given by the last bit. */
  ghost predicate LadderInv<G>(m: Mont<G>, D: G, k: nat, prev: bool, x0: Proj, x1: Proj) {
    var lo, hi := Smul(m.g, k, D), Smul(m.g, k + 1, D);
    Rep(m, if prev then hi else lo, x0) && Rep(m, if prev then lo else hi, x1)
  }

  lemma MultiplesGap<G(!new)>(g: Group<G>, D: G, k: int)
    requires IsGroup(g)
    ensures var lo, hi := Smul(g, k, D), Smul(g, k + 1, D);
      g.add(lo, g.neg(hi)) == g.neg(D) && g.add(hi, g.neg(lo)) == D
  {
    SmulBasics(g, D);
    hide IsGroup, Smul;
    SmulNeg(g, k, D);
    SmulNeg(g, k + 1, D);
    SmulAdd(g, k, -(k + 1), D);
    SmulAdd(g, k + 1, -k, D);
  }

  lemma MultiplesDoubled<G(!new)>(g: Group<G>, D: G, k: int)
    requires IsGroup(g)
    ensures var lo, hi := Smul(g, k, D), Smul(g, k + 1, D);
      && g.add(lo, lo) == Smul(g, 2 * k, D) && g.add(hi, hi) == Smul(g, 2 * k + 2, D)
      && g.add(lo, hi) == Smul(g, 2 * k + 1, D) && g.add(hi, lo) == Smul(g, 2 * k + 1, D)
  {
    hide IsGroup, Smul;
    SmulAdd(g, k, k, D);
    SmulAdd(g, k + 1, k + 1, D);
    SmulAdd(g, k, k + 1, D);
    SmulAdd(g, k + 1, k, D);
  }

  /** Consecutive multiples differ by D. */
  lemma ConsecutiveGap<G(!new)>(m: Mont<G>, D: G, k: nat, u: int)
    requires IsMontgomery(m) && D != m.g.zero && Cong(m.f.p, m.x(D), u)
    ensures var lo, hi := Smul(m.g, k, D), Smul(m.g, k + 1, D);
      && m.g.add(lo, m.g.neg(hi)) == m.g.neg(D) && m.g.add(hi, m.g.neg(lo)) == D
      && m.g.neg(D) != m.g.zero && Cong(m.f.p, m.x(m.g.neg(D)), u)
  {
    assert PointAt(m, D);
    NegNonzero(m, D);
    CongTrans(m.f.p, m.x(m.g.neg(D)), m.x(D), u);
    MultiplesGap(m.g, D, k);
  }

  lemma LadderStep<G(!new)>(m: Mont<G>, D: G, k: nat, prev: bool, cur: bool, x0: Proj, x1: Proj, u: int)
    requires IsMontgomery(m) && Cong(m.f.p, U0(m, D), u) && !Cong(m.f.p, u, 0)
    requires LadderInv(m, D, k, prev, x0, x1)
    ensures var (y0, y1) := if prev != cur then (x1, x0) else (x0, x1);
      var (z0, z1) := DifferentialAddAndDouble(m.a24, y0, y1, u);
      LadderInv(m, D, 2 * k + (if cur then 1 else 0), cur, z0, z1)
  {
    var lo, hi := Smul(m.g, k, D), Smul(m.g, k + 1, D);
    var (y0, y1) := if prev != cur then (x1, x0) else (x0, x1);
    var P, Q := if cur then hi else lo, if cur then lo else hi;
    MultiplesDoubled(m.g, D, k);
    if D == m.g.zero { CongSym(m.f.p, 0, u); }
    hide Cong, IsMontgomery, DifferentialAddAndDouble, Smul, Rep;
    ConsecutiveGap(m, D, k, u);
    DoubleStep(m, P, y0, y1, u);
    AddStep(m, P, Q, y0, y1, u);
  }

  /** At u = 0 every coordinate pair soon has W = 0. */
  ghost predicate FlatInv(p: int, x0: Proj, x1: Proj, prev: bool) {
    && Cong(p, x0.U * x0.W, 0) && Cong(p, x1.U * x1.W, 0)
    && Cong(p, (if prev then x1 else x0).W, 0)
  }

  lemma FlatStep(p: int, a24: int, y0: Proj, y1: Proj, u: int)
    requires Cong(p, u, 0) && Cong(p, y0.U * y0.W, 0)
    ensures var (z0, z1) := DifferentialAddAndDouble(a24, y0, y1, u);
      Cong(p, z0.W, 0) && Cong(p, z1.W, 0) && Cong(p, z0.U * z0.W, 0) && Cong(p, z1.U * z1.W, 0)
  {
    hide Cong, DifferentialAddAndDouble;
    DoubleOutput(a24, y0, y1, u);
    SumOutput(a24, y0, y1, u);
    var (z0, z1) := DifferentialAddAndDouble(a24, y0, y1, u);
    var t1, t6 := y0.U - y0.W, (y0.U + y0.W) * (y0.U + y0.W) - (y0.U - y0.W) * (y0.U - y0.W);
    var t15 := a24 * t6 + t1 * t1;
    var t10 := (y0.U + y0.W) * (y1.U - y1.W) - (y0.U - y0.W) * (y1.U + y1.W);
    DifferenceOfSquares(y0.U, y0.W);
    Outer(4, y0.U, y0.W);
    CongBy(p, t6, 0, y0.U * y0.W, 0, 4);
    ZeroFactor(p, t6, t15);
    ZeroFactor(p, u, t10 * t10);
    ZeroFactor(p, z0.W, z0.U);
    ZeroFactor(p, z1.W, z1.U);
  }

  lemma ZeroFactor(p: int, a: int, c: int)
    requires Cong(p, a, 0)
    ensures Cong(p, a * c, 0) && Cong(p, c * a, 0)
  {
    CongBy(p, a * c, 0, a, 0, c);
    CongBy(p, c * a, 0, a, 0, c);
  }

  /** Reading off the coordinate of a represented point. */
  lemma AffineOfRep<G(!new)>(m: Mont<G>, P: G, X: Proj)
    requires IsMontgomery(m) && Rep(m, P, X)
    ensures Cong(m.f.p, AsAffine(m.f, X), U0(m, P))
  {
    hide Cong, IsPrime, IsGroup, PointAt, ChordAt, Canonical, Invert;
    var p, i := m.f.p, Invert(X.W);
    InvertCorrect(m.f, X.W);
    CanonicalCong(p, X.U * i);
    if P == m.g.zero {
      CongBy(p, X.U * i, 0, i, 0, X.U);
      CongTrans(p, AsAffine(m.f, X), X.U * i, 0);
    } else {
      var x := m.x(P);
      assert X.U * i - x == i * (X.U - x * X.W) + x * (X.W * i - 1) by { Outer(x, X.W, i); }
      CongBy2(p, X.U * i, x, X.U, x * X.W, i, X.W * i, 1, x);
      CongTrans(p, AsAffine(m.f, X), X.U * i, x);
    }
  }

  /** The affine points with u = 0 have order two, so every multiple has u_0 = 0. */
  lemma {:induction false} MultiplesOfFlat<G(!new)>(m: Mont<G>, D: G, k: nat)
    requires IsMontgomery(m) && D != m.g.zero && Cong(m.f.p, m.x(D), 0)
    ensures Smul(m.g, k, D) == (if k % 2 == 0 then m.g.zero else D)
    decreases k
  {
    if k == 1 {
      MultiplesOfFlat(m, D, 0);
      Unit(m.g, D);
    } else if k >= 2 {
      MultiplesOfFlat(m, D, k - 1);
      FlatHasOrderTwo(m, D);
      Unit(m.g, D);
    }
  }

  lemma FlatMultiple<G(!new)>(m: Mont<G>, D: G, n: nat)
    requires IsMontgomery(m) && Cong(m.f.p, U0(m, D), 0)
    ensures Cong(m.f.p, 0, U0(m, Smul(m.g, n, D)))
  {
    CongRefl(m.f.p, 0);
    CongSym(m.f.p, U0(m, D), 0);
    if D == m.g.zero {
      SmulZero(m.g, n);
    } else {
      MultiplesOfFlat(m, D, n);
    }
  }

  lemma FlatHasOrderTwo<G(!new)>(m: Mont<G>, D: G)
    requires IsMontgomery(m) && D != m.g.zero && Cong(m.f.p, m.x(D), 0)
    ensures m.g.add(D, D) == m.g.zero
  {
    assert PointAt(m, D);
    hide Cong, IsPrime, IsGroup, ChordAt, PointAt;
    RootHasNoY(m.f.p, m.a, m.b, m.x(D), m.y(D));
    OrderTwo(m, D);
  }

  lemma RootHasNoY(p: int, a: int, b: int, x: int, y: int)
    requires IsPrime(p) && !Cong(p, b, 0) && Cong(p, x, 0) && Cong(p, b * Sq(y), Cubic(a, x))
    ensures Cong(p, y, 0)
  {
    hide Cong, IsPrime, Sq;
    NonzeroProduct(p, x, x * x + a * x + 1);
    CongTrans(p, b * Sq(y), Cubic(a, x), 0);
    NonzeroProduct(p, b, Sq(y));
    SquareNonzero(p, y);
  }

  /** The loop's pair after the given bits, most significant first. */
  function LadderPair(a24: int, u: int, bits: seq<bool>): (Proj, Proj) {
    if bits == [] then (Proj(1, 0), Proj(u, 1))
    else
      var (x0, x1) := LadderPair(a24, u, bits[..|bits| - 1]);
      var (y0, y1) := if LastBit(bits[..|bits| - 1]) != LastBit(bits) then (x1, x0) else (x0, x1);
      DifferentialAddAndDouble(a24, y0, y1, u)
  }

  /** prev_bit: false before the first bit. */
  function LastBit(bits: seq<bool>): bool {
    bits != [] && bits[|bits| - 1]
  }

  /** What mul_bits_be returns. */
  function LadderU(f: Field, a24: int, u: int, bits: seq<bool>): int
    requires f.p > 0
  {
    var (x0, x1) := LadderPair(a24, u, bits);
    AsAffine(f, if LastBit(bits) then x1 else x0)
  }

  method MulBitsBe(f: Field, a24: int, affineU: int, bits: seq<bool>) returns (r: int)
    requires f.p > 0
    ensures r == LadderU(f, a24, affineU, bits)
  {
    hide DifferentialAddAndDouble, AsAffine;
    var x0, x1, prev := Proj(1, 0), Proj(affineU, 1), false;
    for i := 0 to |bits|
      invariant (x0, x1) == LadderPair(a24, affineU, bits[..i]) && prev == LastBit(bits[..i])
    {
      assert bits[..i + 1][..i] == bits[..i];
      var cur := bits[i];
      if prev != cur { x0, x1 := x1, x0; }
      var (y0, y1) := DifferentialAddAndDouble(a24, x0, x1, affineU);
      x0, x1 := y0, y1;
      prev := cur;
    }
    assert bits[..|bits|] == bits;
    if prev { x0, x1 := x1, x0; }
    r := AsAffine(f, x0);
  }

  /** The invariant of every run of the loop. */
  lemma {:induction false} LadderPairHolds<G(!new)>(m: Mont<G>, D: G, u: int, bits: seq<bool>)
    requires IsMontgomery(m) && Cong(m.f.p, u, U0(m, D))
    ensures var (x0, x1) := LadderPair(m.a24, u, bits);
      && (Cong(m.f.p, u, 0) ==> FlatInv(m.f.p, x0, x1, LastBit(bits)))
      && (!Cong(m.f.p, u, 0) ==> LadderInv(m, D, BitsValue(bits), LastBit(bits), x0, x1))
    decreases |bits|
  {
    hide IsMontgomery, DifferentialAddAndDouble, LadderInv, FlatInv, Cong, U0, Smul;
    LadderStart(m, D, u);
    if bits != [] {
      var k := |bits| - 1;
      LadderPairHolds(m, D, u, bits[..k]);
      var (x0, x1) := LadderPair(m.a24, u, bits[..k]);
      if Cong(m.f.p, u, 0) {
        FlatLadderStep(m.f.p, m.a24, x0, x1, LastBit(bits[..k]), bits[k], u);
      } else {
        LadderStep(m, D, BitsValue(bits[..k]), LastBit(bits[..k]), bits[k], x0, x1, u);
      }
    }
  }

  /** For every bit string of n and every point D, on the curve or its twist, the ladder takes
      u_0(D) to the encoding of u_0([n]D). */
  lemma LadderIsCorrect<G(!new)>(m: Mont<G>, D: G, u: int, bits: seq<bool>)
    requires IsMontgomery(m) && Cong(m.f.p, u, U0(m, D))
    ensures m.f.p > 0 && LadderU(m.f, m.a24, u, bits) == Wire(m, Smul(m.g, BitsValue(bits), D))
  {
    LadderStart(m, D, u);
    LadderPairHolds(m, D, u, bits);
    FieldIsPositive(m);
    hide IsMontgomery, DifferentialAddAndDouble, LadderInv, FlatInv, Cong, U0, Smul, AsAffine, LadderPair, BitsValue,
      Wire;
    var (x0, x1) := LadderPair(m.a24, u, bits);
    LadderEnd(m, D, BitsValue(bits), LastBit(bits), x0, x1, u);
    AffineIsCanonical(m.f, if LastBit(bits) then x1 else x0);
    LadderResultIsWire(m, Smul(m.g, BitsValue(bits), D), LadderU(m.f, m.a24, u, bits));
  }

  lemma AffineIsCanonical(f: Field, X: Proj)
    requires f.p > 0
    ensures 0 <= AsAffine(f, X) < f.p
  {
  }

  lemma FieldIsPositive<G(!new)>(m: Mont<G>)
    requires IsMontgomery(m)
    ensures m.f.p > 0
  {
  }

  lemma LadderStart<G(!new)>(m: Mont<G>, D: G, u: int)
    requires IsMontgomery(m) && Cong(m.f.p, u, U0(m, D))
    ensures Cong(m.f.p, U0(m, D), u)
    ensures !Cong(m.f.p, u, 0) ==> D != m.g.zero && LadderInv(m, D, BitsValue([]), false, Proj(1, 0), Proj(u, 1))
    ensures Cong(m.f.p, u, 0) ==> FlatInv(m.f.p, Proj(1, 0), Proj(u, 1), false)
  {
    var p := m.f.p;
    SmulBasics(m.g, D);
    CongRefl(p, 0);
    SmallIsNonzero(p, 1);
    CongSym(p, u, U0(m, D));
  }

  lemma FlatLadderStep(p: int, a24: int, x0: Proj, x1: Proj, prev: bool, cur: bool, u: int)
    requires Cong(p, u, 0) && FlatInv(p, x0, x1, prev)
    ensures var (y0, y1) := if prev != cur then (x1, x0) else (x0, x1);
      var (z0, z1) := DifferentialAddAndDouble(a24, y0, y1, u);
      FlatInv(p, z0, z1, cur)
  {
    var (y0, y1) := if prev != cur then (x1, x0) else (x0, x1);
    hide DifferentialAddAndDouble, Cong;
    FlatStep(p, a24, y0, y1, u);
  }

  lemma LadderEnd<G(!new)>(m: Mont<G>, D: G, n: nat, prev: bool, x0: Proj, x1: Proj, u: int)
    requires IsMontgomery(m) && Cong(m.f.p, U0(m, D), u)
    requires Cong(m.f.p, u, 0) ==> FlatInv(m.f.p, x0, x1, prev)
    requires !Cong(m.f.p, u, 0) ==> LadderInv(m, D, n, prev, x0, x1)
    ensures var X := if prev then x1 else x0;
      m.f.p > 0 && Cong(m.f.p, AsAffine(m.f, X), U0(m, Smul(m.g, n, D)))
  {
    hide Cong, IsPrime, IsGroup, PointAt, ChordAt, Smul, Canonical, Invert;
    var p, X := m.f.p, if prev then x1 else x0;
    if Cong(p, u, 0) {
      CongTrans(p, U0(m, D), u, 0);
      FlatMultiple(m, D, n);
      var i := Invert(X.W);
      InvertCorrect(m.f, X.W);
      CanonicalCong(p, X.U * i);
      CongBy(p, X.U * i, 0, i, 0, X.U);
      CongTrans(p, AsAffine(m.f, X), X.U * i, 0);
      CongTrans(p, AsAffine(m.f, X), 0, U0(m, Smul(m.g, n, D)));
    } else {
      AffineOfRep(m, Smul(m.g, n, D), X);
    }
  }

  // ---------- multiplication by a scalar ----------

  /** bits_le().rev().skip(1): the 255 low bits, most significant first. */
  function ScalarBits(n: nat, count: nat): (r: seq<bool>)
    ensures |r| == count
  {
    seq(count, j requires 0 <= j < count => Shr(n, count - 1 - j) % 2 == 1)
  }

  lemma {:induction false} BitsOfScalar(n: nat, count: nat, j: nat)
    requires n < P2(count) && j <= count
    ensures BitsValue(ScalarBits(n, count)[..j]) == Shr(n, count - j)
    decreases j
  {
    var bits := ScalarBits(n, count);
    if j == 0 {
      hide P2;
      DivModUnique(n, P2(count), 0, n);
    } else {
      BitsOfScalar(n, count, j - 1);
      assert bits[..j][..j - 1] == bits[..j - 1];
      hide P2, Shr;
      ShiftStep(n, count - j, 1);
      ShrOne(Shr(n, count - j));
    }
  }

  lemma ScalarBitsValue(n: nat, count: nat)
    requires n < P2(count)
    ensures BitsValue(ScalarBits(n, count)) == n
  {
    BitsOfScalar(n, count, count);
    assert ScalarBits(n, count)[..count] == ScalarBits(n, count);
    assert P2(0) == 1;
  }

  /** Multiplication of a Montgomery coordinate by a scalar. */
  function MulU(f: Field, a24: int, u: int, n: nat): int
    requires f.p > 0
  {
    LadderU(f, a24, u, ScalarBits(n, 255))
  }

  /** For every point and every scalar below 2^255. */
  lemma MulUIsCorrect<G(!new)>(m: Mont<G>, D: G, u: int, n: nat)
    requires IsMontgomery(m) && n < P2(255) && Cong(m.f.p, u, U0(m, D))
    ensures m.f.p > 0 && MulU(m.f, m.a24, u, n) == Wire(m, Smul(m.g, n, D))
  {
    hide P2, IsMontgomery, LadderU, Wire, Cong;
    ScalarBitsValue(n, 255);
    LadderIsCorrect(m, D, u, ScalarBits(n, 255));
  }

  // ---------- comparing coordinates ----------

  /** The 32 bytes a Montgomery point is sent as. */
  function Wire<G(==)>(m: Mont<G>, P: G): int
    requires m.f.p > 0
  {
    Canonical(m.f.p, U0(m, P))
  }

  /** The ladder's result is exactly the encoding of [n]D. */
  lemma LadderResultIsWire<G(!new)>(m: Mont<G>, P: G, r: int)
    requires m.f.p > 0 && 0 <= r < m.f.p && Cong(m.f.p, r, U0(m, P))
    ensures r == Wire(m, P)
  {
    CongSym(m.f.p, r, U0(m, P));
    CanonicalUnique(m.f.p, U0(m, P), r);
  }

  /** In a subgroup of odd order, equal coordinates mean equal or opposite points. */
  lemma WireSeparates<G(!new)>(m: Mont<G>, l: nat, P: G, Q: G)
    requires IsMontgomery(m) && l % 2 == 1 && Smul(m.g, l, P) == m.g.zero && Smul(m.g, l, Q) == m.g.zero
    requires Wire(m, P) == Wire(m, Q)
    ensures P == Q || P == m.g.neg(Q)
  {
    var p := m.f.p;
    CongIffCanonical(p, U0(m, P), U0(m, Q));
    hide Canonical;
    if P != m.g.zero && Q != m.g.zero {
      SameX(m, P, Q);
    } else if P != m.g.zero {
      MultiplesOfFlat(m, P, l);
    } else if Q != m.g.zero {
      CongSym(p, 0, m.x(Q));
      MultiplesOfFlat(m, Q, l);
    }
  }

  /** Opposite points have the same coordinate. */
  lemma WireOfOpposite<G(!new)>(m: Mont<G>, P: G)
    requires IsMontgomery(m)
    ensures Wire(m, m.g.neg(P)) == Wire(m, P)
  {
    assert PointAt(m, P);
    if P == m.g.zero {
      Neg(m.g, P);
      Unit(m.g, m.g.neg(P));
    } else {
      NegNonzero(m, P);
      CongIffCanonical(m.f.p, m.x(m.g.neg(P)), m.x(P));
    }
  }
}
