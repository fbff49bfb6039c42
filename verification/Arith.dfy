/** Residues, powers and primes: the arithmetic every other module rests on.
    A field element or scalar is an integer standing for its residue class, as an
    unreduced limb vector does; equality is congruence. */
module Arith {

  /** m added up k times. The recursive form keeps products out of sight of proofs
      that only use congruences. */
  function Multiple(k: int, m: int): int
    decreases if k < 0 then -k else k
  {
    if k == 0 then 0 else if k > 0 then m + Multiple(k - 1, m) else Multiple(k + 1, m) - m
  }

  lemma {:induction false} MultipleIsProduct(k: int, m: int)
    ensures Multiple(k, m) == k * m
    decreases if k < 0 then -k else k
  {
    if k > 0 {
      MultipleIsProduct(k - 1, m);
    } else if k < 0 {
      MultipleIsProduct(k + 1, m);
    }
  }

  ghost predicate IsMultiple(m: int, x: int) {
    exists k :: Multiple(k, m) == x
  }

  /** a and b denote the same residue modulo m. */
  ghost predicate Cong(m: int, a: int, b: int) {
    IsMultiple(m, a - b)
  }

  lemma CongIntro(m: int, a: int, b: int, k: int)
    requires a - b == k * m
    ensures Cong(m, a, b)
  {
    MultipleIsProduct(k, m);
  }

  lemma CongWitness(m: int, a: int, b: int) returns (k: int)
    requires Cong(m, a, b)
    ensures a - b == k * m
  {
    k :| Multiple(k, m) == a - b;
    MultipleIsProduct(k, m);
  }

  /** Certificate style: a = b follows from x = y when a - b is c times x - y. */
  lemma CongBy(m: int, a: int, b: int, x: int, y: int, c: int)
    requires Cong(m, x, y)
    requires a - b == c * (x - y)
    ensures Cong(m, a, b)
  {
    var k := CongWitness(m, x, y);
    assert c * (k * m) == (c * k) * m;
    CongIntro(m, a, b, c * k);
  }

  lemma CongBy2(m: int, a: int, b: int, x: int, y: int, c: int, x': int, y': int, c': int)
    requires Cong(m, x, y) && Cong(m, x', y')
    requires a - b == c * (x - y) + c' * (x' - y')
    ensures Cong(m, a, b)
  {
    var k := CongWitness(m, x, y);
    var k' := CongWitness(m, x', y');
    assert c * (k * m) + c' * (k' * m) == (c * k + c' * k') * m;
    CongIntro(m, a, b, c * k + c' * k');
  }

  lemma CongRefl(m: int, a: int)
    ensures Cong(m, a, a)
  {
    CongIntro(m, a, a, 0);
  }

  lemma CongSym(m: int, a: int, b: int)
    requires Cong(m, a, b)
    ensures Cong(m, b, a)
  {
    CongBy(m, b, a, a, b, -1);
  }

  lemma CongTrans(m: int, a: int, b: int, c: int)
    requires Cong(m, a, b) && Cong(m, b, c)
    ensures Cong(m, a, c)
  {
    CongBy2(m, a, c, a, b, 1, b, c, 1);
  }

  lemma CongAdd(m: int, a: int, b: int, c: int, d: int)
    requires Cong(m, a, b) && Cong(m, c, d)
    ensures Cong(m, a + c, b + d)
  {
    CongBy2(m, a + c, b + d, a, b, 1, c, d, 1);
  }

  lemma CongMul(m: int, a: int, b: int, c: int, d: int)
    requires Cong(m, a, b) && Cong(m, c, d)
    ensures Cong(m, a * c, b * d)
  {
    assert a * c - b * d == c * (a - b) + b * (c - d);
    CongBy2(m, a * c, b * d, a, b, c, c, d, b);
  }

  lemma MultipleInRangeIsZero(m: int, k: int)
    requires m > 0 && -m < k * m < m
    ensures k == 0
  {
    assert k >= 1 ==> k * m >= m;
    assert k <= -1 ==> k * m <= -m;
  }

  /** Division with remainder is unique. */
  lemma DivModUnique(x: int, m: int, q: int, r: int)
    requires m > 0 && 0 <= r < m && x == q * m + r
    ensures x / m == q && x % m == r
  {
    var q', r' := x / m, x % m;
    assert x == q' * m + r';
    assert (q - q') * m == r' - r;
    MultipleInRangeIsZero(m, q - q');
  }

  /** The canonical representative, as written to the wire. */
  function Canonical(m: int, x: int): (r: int)
    requires m > 0
    ensures 0 <= r < m
    decreases if x < 0 then m - x else x
  {
    if x < 0 then Canonical(m, x + m) else if x < m then x else Canonical(m, x - m)
  }

  lemma {:induction false} CanonicalCong(m: int, x: int)
    requires m > 0
    ensures Cong(m, x, Canonical(m, x)) && Cong(m, Canonical(m, x), x)
    decreases if x < 0 then m - x else x
  {
    var r := Canonical(m, x);
    if x < 0 {
      CanonicalCong(m, x + m);
      CongIntro(m, x, x + m, -1);
      CongTrans(m, x, x + m, r);
    } else if x < m {
      CongRefl(m, x);
    } else {
      CanonicalCong(m, x - m);
      CongIntro(m, x, x - m, 1);
      CongTrans(m, x, x - m, r);
    }
    CongSym(m, x, r);
  }

  lemma CanonicalUnique(m: int, x: int, r: int)
    requires m > 0 && 0 <= r < m && Cong(m, x, r)
    ensures Canonical(m, x) == r
  {
    CanonicalCong(m, x);
    CongTrans(m, Canonical(m, x), x, r);
    var k := CongWitness(m, Canonical(m, x), r);
    MultipleInRangeIsZero(m, k);
  }

  lemma CongIffCanonical(m: int, a: int, b: int)
    requires m > 0
    ensures Cong(m, a, b) <==> Canonical(m, a) == Canonical(m, b)
  {
    CanonicalCong(m, a);
    CanonicalCong(m, b);
    if Cong(m, a, b) {
      CongTrans(m, a, b, Canonical(m, b));
      CanonicalUnique(m, a, Canonical(m, b));
    } else if Canonical(m, a) == Canonical(m, b) {
      CongTrans(m, a, Canonical(m, a), b);
    }
  }

  /** The run-time equality test: compare canonical representatives. */
  predicate Eq(m: int, a: int, b: int)
    requires m > 0
    ensures Eq(m, a, b) <==> Cong(m, a, b)
  {
    CongIffCanonical(m, a, b);
    Canonical(m, a) == Canonical(m, b)
  }

  // ---------- powers ----------

  function Pow(b: int, e: nat): int
    decreases e
  {
    if e == 0 then 1 else b * Pow(b, e - 1)
  }

  lemma {:induction false} PowAdd(b: int, e: nat, f: nat)
    ensures Pow(b, e + f) == Pow(b, e) * Pow(b, f)
  {
    if e > 0 {
      PowAdd(b, e - 1, f);
      assert Pow(b, e + f) == b * Pow(b, e - 1 + f);
      assert b * (Pow(b, e - 1) * Pow(b, f)) == (b * Pow(b, e - 1)) * Pow(b, f);
    }
  }

  lemma {:induction false} PowPow(b: int, e: nat, f: nat)
    ensures e * f >= 0 && Pow(Pow(b, e), f) == Pow(b, e * f)
    decreases f
  {
    assert e * f >= 0;
    if f > 0 {
      PowPow(b, e, f - 1);
      assert e * f == e + e * (f - 1);
      PowAdd(b, e, e * (f - 1));
    } else {
      assert e * f == 0;
    }
  }

  lemma Rotate(a: int, b: int, c: int)
    ensures (a * b) * c == a * (c * b) && (a * b) * c == (a * c) * b
  {
  }

  lemma Outer(c: int, x: int, y: int)
    ensures (c * x) * y == c * (x * y)
  {
  }

  lemma MulSwap(a: int, b: int, x: int, y: int)
    ensures (a * b) * (x * y) == (a * x) * (b * y)
  {
  }

  lemma {:induction false} PowCong(m: int, a: int, b: int, e: nat)
    requires Cong(m, a, b)
    ensures Cong(m, Pow(a, e), Pow(b, e))
    decreases e
  {
    if e == 0 {
      CongRefl(m, 1);
    } else {
      PowCong(m, a, b, e - 1);
      CongMul(m, a, b, Pow(a, e - 1), Pow(b, e - 1));
    }
  }

  lemma {:induction false} PowOne(e: nat)
    ensures Pow(1, e) == 1
  {
    if e > 0 { PowOne(e - 1); }
  }

  lemma PowSmall(b: int)
    ensures Pow(b, 1) == b && Pow(b, 2) == b * b
  {
    assert Pow(b, 0) == 1;
    assert Pow(b, 1) == b * Pow(b, 0);
    assert Pow(b, 2) == b * Pow(b, 1);
  }

  /** -1 to an odd power. */
  lemma PowMinusOneOdd(h: nat)
    ensures Pow(-1, 2 * h + 1) == -1
  {
    PowSmall(-1);
    PowPow(-1, 2, h);
    PowOne(h);
    PowAdd(-1, 2 * h, 1);
  }

  // ---------- primes ----------

  predicate Divides(d: int, x: int)
    requires d > 0
  {
    x % d == 0
  }

  ghost predicate IsPrime(p: int) {
    p >= 2 && forall d :: 1 < d < p ==> !Divides(d, p)
  }

  /** Euclid's descent: r = p mod a is smaller than a and p = q a + r. */
  lemma {:induction false} InverseOfSmall(p: int, a: int) returns (b: int)
    requires IsPrime(p) && 0 < a < p
    ensures Cong(p, a * b, 1)
    decreases a
  {
    if a == 1 {
      b := 1;
      CongRefl(p, 1);
    } else {
      var q, r := p / a, p % a;
      assert !Divides(a, p);
      var r' := InverseOfSmall(p, r);
      b := -q * r';
      var k := CongWitness(p, r * r', 1);
      assert p == q * a + r;
      assert a * b - 1 == (r - p) * r' - 1 == (k - r') * p by {
        assert a * (-q * r') == (-(q * a)) * r';
        assert (r - p) * r' == r * r' - r' * p;
      }
      CongIntro(p, a * b, 1, k - r');
    }
  }

  lemma InverseExists(p: int, a: int) returns (b: int)
    requires IsPrime(p) && !Cong(p, a, 0)
    ensures Cong(p, a * b, 1)
  {
    CanonicalCong(p, a);
    var r := Canonical(p, a);
    CongRefl(p, 0);
    b := InverseOfSmall(p, r);
    CongBy2(p, a * b, 1, a, r, b, r * b, 1, 1);
  }

  lemma Cancel(p: int, c: int, a: int, b: int)
    requires IsPrime(p) && !Cong(p, c, 0)
    requires Cong(p, c * a, c * b)
    ensures Cong(p, a, b)
  {
    var c' := InverseExists(p, c);
    CongSym(p, c * c', 1);
    assert a - b == (a - b) * (1 - c * c') + c' * (c * a - c * b);
    CongBy2(p, a, b, 1, c * c', a - b, c * a, c * b, c');
  }

  lemma NoZeroDivisors(p: int, a: int, b: int)
    requires IsPrime(p) && Cong(p, a * b, 0)
    ensures Cong(p, a, 0) || Cong(p, b, 0)
  {
    if !Cong(p, a, 0) {
      Cancel(p, a, b, 0);
    }
  }

  lemma NonzeroProduct(p: int, a: int, b: int)
    requires IsPrime(p)
    ensures Cong(p, a * b, 0) <==> Cong(p, a, 0) || Cong(p, b, 0)
  {
    if Cong(p, a * b, 0) {
      NoZeroDivisors(p, a, b);
    } else if Cong(p, a, 0) {
      CongBy(p, a * b, 0, a, 0, b);
    } else if Cong(p, b, 0) {
      CongBy(p, a * b, 0, b, 0, a);
    }
  }

  /** Equal squares have equal or opposite roots. */
  lemma SquareRoots(p: int, a: int, b: int)
    requires IsPrime(p) && Cong(p, a * a, b * b)
    ensures Cong(p, a, b) || Cong(p, a, -b)
  {
    CongBy(p, (a - b) * (a + b), 0, a * a, b * b, 1);
    NoZeroDivisors(p, a - b, a + b);
    if Cong(p, a - b, 0) {
      CongBy(p, a, b, a - b, 0, 1);
    } else {
      CongBy(p, a, -b, a + b, 0, 1);
    }
  }

  lemma SmallIsNonzero(p: int, a: int)
    requires p > 0 && -p < a < p && a != 0
    ensures !Cong(p, a, 0)
  {
    if Cong(p, a, 0) {
      var k := CongWitness(p, a, 0);
      MultipleInRangeIsZero(p, k);
    }
  }
}
