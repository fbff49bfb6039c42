/** Abelian groups given by their operations, integer multiples of an element and
    multiscalar sums. The curve group, its prime-order subgroup and the Montgomery
    curve are all used through this interface. */
module Groups {
  import opened Arith
  import opened Folds

  datatype Group<!G> = Group(zero: G, add: (G, G) -> G, neg: G -> G)

  predicate NegAt<G(==)>(g: Group<G>, x: G) {
    g.add(g.neg(x), x) == g.zero
  }

  ghost predicate IsGroup<G(!new)>(g: Group<G>) {
    IsCommutativeMonoid(g.add, g.zero) && forall x :: NegAt(g, x)
  }

  lemma Assoc<G(!new)>(g: Group<G>, x: G, y: G, z: G)
    requires IsGroup(g)
    ensures g.add(g.add(x, y), z) == g.add(x, g.add(y, z))
  {
    assert AssocAt(g.add, x, y, z);
  }

  lemma Comm<G(!new)>(g: Group<G>, x: G, y: G)
    requires IsGroup(g)
    ensures g.add(x, y) == g.add(y, x)
  {
    assert CommAt(g.add, x, y);
  }

  lemma Unit<G(!new)>(g: Group<G>, x: G)
    requires IsGroup(g)
    ensures g.add(g.zero, x) == x && g.add(x, g.zero) == x
  {
    assert UnitAt(g.add, g.zero, x);
    Comm(g, x, g.zero);
  }

  lemma Neg<G(!new)>(g: Group<G>, x: G)
    requires IsGroup(g)
    ensures g.add(g.neg(x), x) == g.zero && g.add(x, g.neg(x)) == g.zero
  {
    assert NegAt(g, x);
    Comm(g, x, g.neg(x));
  }

  lemma Interchange<G(!new)>(g: Group<G>, a: G, b: G, c: G, d: G)
    requires IsGroup(g)
    ensures g.add(g.add(a, b), g.add(c, d)) == g.add(g.add(a, c), g.add(b, d))
  {
    Assoc(g, a, b, g.add(c, d));
    Assoc(g, b, c, d);
    Comm(g, b, c);
    Assoc(g, c, b, d);
    Assoc(g, a, c, g.add(b, d));
  }

  lemma CancelAdd<G(!new)>(g: Group<G>, x: G, y: G, z: G)
    requires IsGroup(g) && g.add(x, y) == g.add(x, z)
    ensures y == z
  {
    Assoc(g, g.neg(x), x, y);
    Assoc(g, g.neg(x), x, z);
    Neg(g, x);
    Unit(g, y);
    Unit(g, z);
  }

  lemma NegUnique<G(!new)>(g: Group<G>, x: G, y: G)
    requires IsGroup(g) && g.add(x, y) == g.zero
    ensures y == g.neg(x)
  {
    Neg(g, x);
    CancelAdd(g, x, y, g.neg(x));
  }

  // ---------- integer multiples ----------

  function Smul<G>(g: Group<G>, k: int, x: G): G
    decreases if k < 0 then -k else k
  {
    if k == 0 then g.zero
    else if k > 0 then g.add(x, Smul(g, k - 1, x))
    else g.add(g.neg(x), Smul(g, k + 1, x))
  }

  lemma SmulSucc<G(!new)>(g: Group<G>, k: int, x: G)
    requires IsGroup(g)
    ensures Smul(g, k + 1, x) == g.add(x, Smul(g, k, x))
  {
    if k < 0 {
      var y := Smul(g, k + 1, x);
      Assoc(g, x, g.neg(x), y);
      Neg(g, x);
      Unit(g, y);
    }
  }

  lemma {:induction false} SmulAdd<G(!new)>(g: Group<G>, j: int, k: int, x: G)
    requires IsGroup(g)
    ensures Smul(g, j + k, x) == g.add(Smul(g, j, x), Smul(g, k, x))
    decreases if j < 0 then -j else j
  {
    var z := Smul(g, k, x);
    if j == 0 {
      Unit(g, z);
    } else if j > 0 {
      SmulAdd(g, j - 1, k, x);
      SmulSucc(g, j - 1 + k, x);
      Assoc(g, x, Smul(g, j - 1, x), z);
    } else {
      SmulAdd(g, j + 1, k, x);
      SmulSucc(g, j + k, x);
      SmulSucc(g, j, x);
      Assoc(g, x, Smul(g, j, x), z);
      CancelAdd(g, x, Smul(g, j + k, x), g.add(Smul(g, j, x), z));
    }
  }

  lemma SmulBasics<G(!new)>(g: Group<G>, x: G)
    requires IsGroup(g)
    ensures Smul(g, 0, x) == g.zero && Smul(g, 1, x) == x && Smul(g, -1, x) == g.neg(x)
    ensures Smul(g, 2, x) == g.add(x, x)
  {
    Unit(g, x);
    Unit(g, g.neg(x));
    SmulSucc(g, 0, x);
    SmulSucc(g, 1, x);
  }

  lemma SmulNeg<G(!new)>(g: Group<G>, k: int, x: G)
    requires IsGroup(g)
    ensures Smul(g, -k, x) == g.neg(Smul(g, k, x))
  {
    SmulAdd(g, k, -k, x);
    NegUnique(g, Smul(g, k, x), Smul(g, -k, x));
  }

  lemma {:induction false} SmulZero<G(!new)>(g: Group<G>, k: int)
    requires IsGroup(g)
    ensures Smul(g, k, g.zero) == g.zero
    decreases if k < 0 then -k else k
  {
    Unit(g, g.zero);
    NegUnique(g, g.zero, g.zero);
    if k > 0 {
      SmulZero(g, k - 1);
    } else if k < 0 {
      SmulZero(g, k + 1);
    }
  }

  lemma {:induction false} SmulDist<G(!new)>(g: Group<G>, k: int, x: G, y: G)
    requires IsGroup(g)
    ensures Smul(g, k, g.add(x, y)) == g.add(Smul(g, k, x), Smul(g, k, y))
    decreases if k < 0 then -k else k
  {
    if k == 0 {
      Unit(g, g.zero);
    } else if k > 0 {
      SmulDist(g, k - 1, x, y);
      Interchange(g, x, y, Smul(g, k - 1, x), Smul(g, k - 1, y));
    } else {
      SmulDist(g, k + 1, x, y);
      Interchange(g, g.neg(x), g.neg(y), Smul(g, k + 1, x), Smul(g, k + 1, y));
      NegSum(g, x, y);
    }
  }

  lemma NegSum<G(!new)>(g: Group<G>, x: G, y: G)
    requires IsGroup(g)
    ensures g.neg(g.add(x, y)) == g.add(g.neg(x), g.neg(y))
  {
    Interchange(g, x, y, g.neg(x), g.neg(y));
    Neg(g, x);
    Neg(g, y);
    Unit(g, g.zero);
    NegUnique(g, g.add(x, y), g.add(g.neg(x), g.neg(y)));
  }

  lemma {:induction false} SmulMul<G(!new)>(g: Group<G>, j: int, k: int, x: G)
    requires IsGroup(g)
    ensures Smul(g, j * k, x) == Smul(g, j, Smul(g, k, x))
    decreases if j < 0 then -j else j
  {
    var y := Smul(g, k, x);
    if j > 0 {
      SmulMul(g, j - 1, k, x);
      assert j * k == k + (j - 1) * k;
      SmulAdd(g, k, (j - 1) * k, x);
    } else if j < 0 {
      SmulMul(g, j + 1, k, x);
      assert j * k == -k + (j + 1) * k;
      SmulAdd(g, -k, (j + 1) * k, x);
      SmulNeg(g, k, x);
    }
  }

  /** A scalar acts on a point of order dividing l through its residue. */
  lemma SmulCong<G(!new)>(g: Group<G>, l: int, a: int, b: int, x: G)
    requires IsGroup(g) && Smul(g, l, x) == g.zero && Cong(l, a, b)
    ensures Smul(g, a, x) == Smul(g, b, x)
  {
    var k := CongWitness(l, a, b);
    SmulAdd(g, b, k * l, x);
    SmulMul(g, k, l, x);
    SmulZero(g, k);
    Unit(g, Smul(g, b, x));
  }

  lemma SmulComm<G(!new)>(g: Group<G>, j: int, k: int, x: G)
    requires IsGroup(g)
    ensures Smul(g, j, Smul(g, k, x)) == Smul(g, k, Smul(g, j, x))
  {
    SmulMul(g, j, k, x);
    SmulMul(g, k, j, x);
    assert j * k == k * j;
  }

  /** Multiples of a point of order l have order l too. */
  lemma SmulOrder<G(!new)>(g: Group<G>, l: int, k: int, x: G)
    requires IsGroup(g) && Smul(g, l, x) == g.zero
    ensures Smul(g, l, Smul(g, k, x)) == g.zero
  {
    SmulComm(g, l, k, x);
    SmulZero(g, k);
  }

  /** In prime order, only the zero multiple of a nonzero point vanishes. */
  lemma PrimeOrder<G(!new)>(g: Group<G>, l: int, k: int, x: G)
    requires IsGroup(g) && IsPrime(l) && Smul(g, l, x) == g.zero
    requires Smul(g, k, x) == g.zero && x != g.zero
    ensures Cong(l, k, 0)
  {
    if !Cong(l, k, 0) {
      var j := InverseExists(l, k);
      assert j * k == k * j;
      SmulMul(g, j, k, x);
      SmulZero(g, j);
      SmulCong(g, l, j * k, 1, x);
      SmulBasics(g, x);
      assert false;
    }
  }

  // ---------- multiscalar sums ----------

  function Msm<G>(g: Group<G>, ks: seq<int>, xs: seq<G>): G
    requires |ks| == |xs|
  {
    if ks == [] then g.zero else g.add(Smul(g, ks[0], xs[0]), Msm(g, ks[1..], xs[1..]))
  }

  function AddVec(a: seq<int>, b: seq<int>): (r: seq<int>)
    requires |a| == |b|
    ensures |r| == |a| && forall i :: 0 <= i < |a| ==> r[i] == a[i] + b[i]
  {
    seq(|a|, i requires 0 <= i < |a| => a[i] + b[i])
  }

  function ScaleVec(k: int, a: seq<int>): (r: seq<int>)
    ensures |r| == |a| && forall i :: 0 <= i < |a| ==> r[i] == k * a[i]
  {
    seq(|a|, i requires 0 <= i < |a| => k * a[i])
  }

  ghost predicate CongVec(l: int, a: seq<int>, b: seq<int>) {
    |a| == |b| && forall i :: 0 <= i < |a| ==> Cong(l, a[i], b[i])
  }

  ghost predicate AllOrder<G>(g: Group<G>, l: int, xs: seq<G>) {
    forall i :: 0 <= i < |xs| ==> Smul(g, l, xs[i]) == g.zero
  }

  lemma {:induction false} MsmAdd<G(!new)>(g: Group<G>, a: seq<int>, b: seq<int>, xs: seq<G>)
    requires IsGroup(g) && |a| == |b| == |xs|
    ensures Msm(g, AddVec(a, b), xs) == g.add(Msm(g, a, xs), Msm(g, b, xs))
  {
    if a == [] {
      Unit(g, g.zero);
    } else {
      MsmAdd(g, a[1..], b[1..], xs[1..]);
      assert AddVec(a, b)[1..] == AddVec(a[1..], b[1..]);
      SmulAdd(g, a[0], b[0], xs[0]);
      Interchange(g, Smul(g, a[0], xs[0]), Smul(g, b[0], xs[0]),
                  Msm(g, a[1..], xs[1..]), Msm(g, b[1..], xs[1..]));
    }
  }

  lemma {:induction false} MsmScale<G(!new)>(g: Group<G>, k: int, a: seq<int>, xs: seq<G>)
    requires IsGroup(g) && |a| == |xs|
    ensures Msm(g, ScaleVec(k, a), xs) == Smul(g, k, Msm(g, a, xs))
  {
    if a == [] {
      SmulZero(g, k);
    } else {
      MsmScale(g, k, a[1..], xs[1..]);
      assert ScaleVec(k, a)[1..] == ScaleVec(k, a[1..]);
      SmulMul(g, k, a[0], xs[0]);
      SmulDist(g, k, Smul(g, a[0], xs[0]), Msm(g, a[1..], xs[1..]));
    }
  }

  lemma {:induction false} MsmCong<G(!new)>(g: Group<G>, l: int, a: seq<int>, b: seq<int>, xs: seq<G>)
    requires IsGroup(g) && |a| == |xs| && CongVec(l, a, b) && AllOrder(g, l, xs)
    ensures Msm(g, a, xs) == Msm(g, b, xs)
  {
    if a != [] {
      MsmCong(g, l, a[1..], b[1..], xs[1..]);
      SmulCong(g, l, a[0], b[0], xs[0]);
    }
  }

  lemma {:induction false} MsmOrder<G(!new)>(g: Group<G>, l: int, a: seq<int>, xs: seq<G>)
    requires IsGroup(g) && |a| == |xs| && AllOrder(g, l, xs)
    ensures Smul(g, l, Msm(g, a, xs)) == g.zero
  {
    if a == [] {
      SmulZero(g, l);
    } else {
      MsmOrder(g, l, a[1..], xs[1..]);
      SmulOrder(g, l, a[0], xs[0]);
      SmulDist(g, l, Smul(g, a[0], xs[0]), Msm(g, a[1..], xs[1..]));
      Unit(g, g.zero);
    }
  }

  lemma {:induction false} MsmAppend<G(!new)>(g: Group<G>, a: seq<int>, xs: seq<G>, b: seq<int>, ys: seq<G>)
    requires IsGroup(g) && |a| == |xs| && |b| == |ys|
    ensures Msm(g, a + b, xs + ys) == g.add(Msm(g, a, xs), Msm(g, b, ys))
  {
    if a == [] {
      assert a + b == b && xs + ys == ys;
      Unit(g, Msm(g, b, ys));
    } else {
      MsmAppend(g, a[1..], xs[1..], b, ys);
      assert (a + b)[1..] == a[1..] + b && (xs + ys)[1..] == xs[1..] + ys;
      Assoc(g, Smul(g, a[0], xs[0]), Msm(g, a[1..], xs[1..]), Msm(g, b, ys));
    }
  }

  function Terms<G>(g: Group<G>, ks: seq<int>, xs: seq<G>): (r: seq<G>)
    requires |ks| == |xs|
    ensures |r| == |ks| && forall i :: 0 <= i < |ks| ==> r[i] == Smul(g, ks[i], xs[i])
  {
    seq(|ks|, i requires 0 <= i < |ks| => Smul(g, ks[i], xs[i]))
  }

  lemma {:induction false} MsmIsFold<G>(g: Group<G>, ks: seq<int>, xs: seq<G>)
    requires |ks| == |xs|
    ensures Msm(g, ks, xs) == Fold(g.add, g.zero, Terms(g, ks, xs))
  {
    if ks != [] {
      MsmIsFold(g, ks[1..], xs[1..]);
      assert Terms(g, ks, xs)[1..] == Terms(g, ks[1..], xs[1..]);
    }
  }

  /** Permuting scalars and points together leaves the sum unchanged. */
  lemma MsmPermuted<G(!new)>(g: Group<G>, ks: seq<int>, xs: seq<G>, pi: seq<nat>)
    requires IsGroup(g) && |ks| == |xs| == |pi| && IsPermutation(pi)
    ensures Msm(g, Gather(ks, pi), Gather(xs, pi)) == Msm(g, ks, xs)
  {
    MsmIsFold(g, ks, xs);
    MsmIsFold(g, Gather(ks, pi), Gather(xs, pi));
    assert Terms(g, Gather(ks, pi), Gather(xs, pi)) == Gather(Terms(g, ks, xs), pi);
    FoldPermuted(g.add, g.zero, Terms(g, ks, xs), pi);
  }
}
