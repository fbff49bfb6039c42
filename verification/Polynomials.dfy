/** Polynomials over the residues modulo a prime, as coefficient sequences from the constant
    term up: a nonzero one has fewer roots than coefficients. */
module Polynomials {
  import opened Arith

  function Eval(c: seq<int>, t: int): int {
    if c == [] then 0 else c[0] + t * Eval(c[1..], t)
  }

  function Last(c: seq<int>): int
    requires c != []
  {
    c[|c| - 1]
  }

  /** Pairwise different residues. */
  ghost predicate Distinct(p: int, xs: seq<int>) {
    forall i, j :: 0 <= i < j < |xs| ==> !Cong(p, xs[j], xs[i])
  }

  ghost predicate AllRoots(p: int, c: seq<int>, xs: seq<int>) {
    forall i :: 0 <= i < |xs| ==> Cong(p, Eval(c, xs[i]), 0)
  }

  // ---------- division by t - r ----------

  function Quotient(c: seq<int>, r: int): (q: seq<int>)
    requires c != []
    ensures |q| == |c| - 1
  {
    if |c| == 1 then [] else [Eval(c[1..], r)] + Quotient(c[1..], r)
  }

  lemma {:induction false} QuotientLast(c: seq<int>, r: int)
    requires |c| >= 2
    ensures Last(Quotient(c, r)) == Last(c)
  {
    var d := c[1..];
    if |c| == 2 {
      assert d[1..] == [] && Eval([], r) == 0 && Eval(d, r) == d[0];
      assert Quotient(c, r) == [d[0]];
    } else {
      QuotientLast(d, r);
    }
  }

  lemma {:induction false} DivideByRoot(c: seq<int>, r: int, t: int)
    requires c != []
    ensures Eval(c, t) - Eval(c, r) == (t - r) * Eval(Quotient(c, r), t)
  {
    var d := c[1..];
    if |c| == 1 {
      assert d == [];
    } else {
      DivideByRoot(d, r, t);
      var q := Quotient(d, r);
      assert Quotient(c, r)[1..] == q;
      HornerDifference(t, r, Eval(d, t), Eval(d, r), Eval(q, t));
    }
  }

  lemma HornerDifference(t: int, r: int, a: int, b: int, q: int)
    requires a - b == (t - r) * q
    ensures t * a - r * b == (t - r) * (b + t * q)
  {
    assert t * a == t * b + t * ((t - r) * q);
    assert (t - r) * (b + t * q) == t * b - r * b + (t - r) * (t * q);
    assert t * ((t - r) * q) == (t - r) * (t * q) by { MulSwap(t, t - r, 1, q); }
  }

  /** As many roots as coefficients: the leading coefficient vanishes. */
  lemma {:induction false} LeadingVanishes(p: int, c: seq<int>, xs: seq<int>)
    requires IsPrime(p) && c != [] && |xs| >= |c| && Distinct(p, xs) && AllRoots(p, c, xs)
    ensures Cong(p, Last(c), 0)
    decreases |c|
  {
    if |c| == 1 {
      assert c[1..] == [] && Eval(c, xs[0]) == c[0];
    } else {
      var r, q, rest := xs[0], Quotient(c, xs[0]), xs[1..];
      hide IsPrime, Cong;
      forall i | 0 <= i < |rest| ensures Cong(p, Eval(q, rest[i]), 0) {
        assert rest[i] == xs[i + 1];
        RootOfQuotient(p, c, r, rest[i]);
      }
      assert forall i, j :: 0 <= i < j < |rest| ==> rest[i] == xs[i + 1] && rest[j] == xs[j + 1];
      QuotientLast(c, r);
      LeadingVanishes(p, q, rest);
    }
  }

  lemma RootOfQuotient(p: int, c: seq<int>, r: int, x: int)
    requires IsPrime(p) && c != [] && !Cong(p, x, r) && Cong(p, Eval(c, r), 0) && Cong(p, Eval(c, x), 0)
    ensures Cong(p, Eval(Quotient(c, r), x), 0)
  {
    DivideByRoot(c, r, x);
    hide IsPrime, Cong, Eval, Quotient;
    var q := Eval(Quotient(c, r), x);
    CongBy2(p, (x - r) * q, 0, Eval(c, x), 0, 1, Eval(c, r), 0, -1);
    NoZeroDivisors(p, x - r, q);
    if Cong(p, x - r, 0) { CongBy(p, x, r, x - r, 0, 1); }
  }

  lemma {:induction false} EvalSnoc(c: seq<int>, t: int)
    requires c != []
    ensures Eval(c, t) == Eval(c[..|c| - 1], t) + Last(c) * Pow(t, |c| - 1)
  {
    var k := |c| - 1;
    if k == 0 {
      assert c[1..] == [] && c[..0] == [];
    } else {
      var d := c[1..];
      EvalSnoc(d, t);
      assert c[..k][1..] == d[..k - 1];
      SnocTerm(t, Eval(d[..k - 1], t), Last(c), Pow(t, k - 1));
    }
  }

  lemma SnocTerm(t: int, a: int, b: int, w: int)
    ensures t * (a + b * w) == t * a + b * (t * w)
  {
    assert t * (b * w) == b * (t * w);
  }

  /** A vanishing leading coefficient can be dropped. */
  lemma DropLeading(p: int, c: seq<int>, t: int)
    requires c != [] && Cong(p, Last(c), 0)
    ensures Cong(p, Eval(c, t), 0) <==> Cong(p, Eval(c[..|c| - 1], t), 0)
  {
    hide Cong, Eval, Pow;
    EvalSnoc(c, t);
    CongBy(p, Last(c) * Pow(t, |c| - 1), 0, Last(c), 0, Pow(t, |c| - 1));
    DropTerm(p, Eval(c, t), Eval(c[..|c| - 1], t), Last(c) * Pow(t, |c| - 1));
  }

  lemma DropTerm(p: int, a: int, b: int, m: int)
    requires a == b + m && Cong(p, m, 0)
    ensures Cong(p, a, 0) <==> Cong(p, b, 0)
  {
    hide Cong;
    if Cong(p, a, 0) { CongBy2(p, b, 0, a, 0, 1, m, 0, -1); }
    if Cong(p, b, 0) { CongBy2(p, a, 0, b, 0, 1, m, 0, 1); }
  }

  /** As many roots as coefficients: the polynomial vanishes everywhere. */
  lemma {:induction false} VanishesEverywhere(p: int, c: seq<int>, xs: seq<int>, t: int)
    requires IsPrime(p) && |xs| >= |c| && Distinct(p, xs) && AllRoots(p, c, xs)
    ensures Cong(p, Eval(c, t), 0)
    decreases |c|
  {
    if c == [] {
      CongRefl(p, 0);
    } else {
      LeadingVanishes(p, c, xs);
      hide IsPrime, Cong, Eval, Distinct, Last;
      var d := c[..|c| - 1];
      forall i | 0 <= i < |xs| ensures Cong(p, Eval(d, xs[i]), 0) {
        DropLeading(p, c, xs[i]);
      }
      VanishesEverywhere(p, d, xs, t);
      DropLeading(p, c, t);
    }
  }

  // ---------- arithmetic ----------

  function AddPoly(a: seq<int>, b: seq<int>): (r: seq<int>)
    requires |a| == |b|
    ensures |r| == |a| && forall i :: 0 <= i < |a| ==> r[i] == a[i] + b[i]
  {
    seq(|a|, i requires 0 <= i < |a| => a[i] + b[i])
  }

  function ScalePoly(k: int, a: seq<int>): (r: seq<int>)
    ensures |r| == |a| && forall i :: 0 <= i < |a| ==> r[i] == k * a[i]
  {
    seq(|a|, i requires 0 <= i < |a| => k * a[i])
  }

  lemma {:induction false} EvalAdd(a: seq<int>, b: seq<int>, t: int)
    requires |a| == |b|
    ensures Eval(AddPoly(a, b), t) == Eval(a, t) + Eval(b, t)
  {
    if a != [] {
      EvalAdd(a[1..], b[1..], t);
      assert AddPoly(a, b)[1..] == AddPoly(a[1..], b[1..]);
      assert t * (Eval(a[1..], t) + Eval(b[1..], t)) == t * Eval(a[1..], t) + t * Eval(b[1..], t);
    }
  }

  lemma {:induction false} EvalScale(k: int, a: seq<int>, t: int)
    ensures Eval(ScalePoly(k, a), t) == k * Eval(a, t)
  {
    if a != [] {
      EvalScale(k, a[1..], t);
      assert ScalePoly(k, a)[1..] == ScalePoly(k, a[1..]);
      ScaleTerm(k, a[0], t, Eval(a[1..], t));
    }
  }

  lemma ScaleTerm(k: int, a: int, t: int, e: int)
    ensures k * a + t * (k * e) == k * (a + t * e)
  {
    assert t * (k * e) == k * (t * e);
  }

  /** A zero leading coefficient does not matter; zeros in front are powers of t. */
  lemma EvalPad(a: seq<int>, t: int)
    ensures Eval(a + [0], t) == Eval(a, t)
  {
    EvalSnoc(a + [0], t);
    assert (a + [0])[..|a|] == a;
  }

  function ZeroPoly(k: nat): (r: seq<int>)
    ensures |r| == k
  {
    seq(k, _ => 0)
  }

  lemma {:induction false} EvalShift(k: nat, a: seq<int>, t: int)
    ensures Eval(ZeroPoly(k) + a, t) == Pow(t, k) * Eval(a, t)
  {
    var s := ZeroPoly(k) + a;
    if k == 0 {
      assert s == a;
    } else {
      EvalShift(k - 1, a, t);
      assert s[0] == 0 && s[1..] == ZeroPoly(k - 1) + a;
      ShiftTerm(t, Pow(t, k - 1), Eval(a, t));
    }
  }

  lemma ShiftTerm(t: int, w: int, e: int)
    ensures t * (w * e) == (t * w) * e
  {
  }

  /** (u + v t) times a polynomial. */
  function MulLinear(c: seq<int>, u: int, v: int): (r: seq<int>)
    ensures |r| == |c| + 1
  {
    AddPoly(ScalePoly(u, c) + [0], [0] + ScalePoly(v, c))
  }

  lemma EvalMulLinear(c: seq<int>, u: int, v: int, t: int)
    ensures Eval(MulLinear(c, u, v), t) == (u + v * t) * Eval(c, t)
    ensures c != [] ==> Last(MulLinear(c, u, v)) == v * Last(c)
  {
    var a, b := ScalePoly(u, c), ScalePoly(v, c);
    EvalAdd(a + [0], [0] + b, t);
    EvalPad(a, t);
    assert ([0] + b)[1..] == b;
    EvalScale(u, c, t);
    EvalScale(v, c, t);
    LinearTerm(u, v, t, Eval(c, t));
  }

  lemma LinearTerm(u: int, v: int, t: int, e: int)
    ensures u * e + t * (v * e) == (u + v * t) * e
  {
    assert t * (v * e) == (v * t) * e;
  }
}
