/** The last step of the shuffle argument (src/aok.rs): one linear equation per challenge vector
    z, for enough of them, gives one equation per item. */
module ShuffleRelation {
  import opened Arith
  import opened Folds
  import opened Groups
  import opened ShuffleArgument
  import opened AdaptedShuffle

  // ---------- combining challenge vectors ----------

  function Sum(v: seq<int>): int {
    if v == [] then 0 else v[0] + Sum(v[1..])
  }

  /** sum of w_k v_k, vectors of length n. */
  function Comb(n: nat, w: seq<int>, vs: seq<seq<int>>): (r: seq<int>)
    requires |w| == |vs| && forall k :: 0 <= k < |vs| ==> |vs[k]| == n
    ensures |r| == n
  {
    if w == [] then ZeroVec(n) else AddVec(ScaleVec(w[0], vs[0]), Comb(n, w[1..], vs[1..]))
  }

  function UnitVec(n: nat, j: nat): (r: seq<int>)
    ensures |r| == n && forall i :: 0 <= i < n ==> r[i] == if i == j then 1 else 0
  {
    seq(n, i => if i == j then 1 else 0)
  }

  /** Some weights that add up to zero make the vectors a unit vector. */
  ghost predicate Reaches(l: int, n: nat, vs: seq<seq<int>>, j: nat)
    requires forall k :: 0 <= k < |vs| ==> |vs[k]| == n
  {
    exists w :: |w| == |vs| && Cong(l, Sum(w), 0) && CongVec(l, Comb(n, w, vs), UnitVec(n, j))
  }

  /** The vectors are affinely independent enough: their differences span everything. */
  ghost predicate Spanning(l: int, n: nat, vs: seq<seq<int>>) {
    (forall k :: 0 <= k < |vs| ==> |vs[k]| == n) && forall j :: 0 <= j < n ==> Reaches(l, n, vs, j)
  }

  /** A combination of vectors with the same sum K has the sum of the weights times K. */
  lemma {:induction false} CombMsm<G(!new)>(g: Group<G>, n: nat, w: seq<int>, vs: seq<seq<int>>, T: seq<G>, K: G)
    requires IsGroup(g) && |w| == |vs| && |T| == n
    requires forall k :: 0 <= k < |vs| ==> |vs[k]| == n && Msm(g, vs[k], T) == K
    ensures Msm(g, Comb(n, w, vs), T) == Smul(g, Sum(w), K)
    decreases |w|
  {
    hide IsGroup, Msm, Smul;
    if w == [] {
      ZeroMsm(g, T);
      SmulBasics(g, K);
    } else {
      CombMsm(g, n, w[1..], vs[1..], T, K);
      NextCombMsm(g, w[0], vs[0], Comb(n, w[1..], vs[1..]), Sum(w[1..]), T, K);
    }
  }

  lemma ZeroMsm<G(!new)>(g: Group<G>, T: seq<G>)
    requires IsGroup(g)
    ensures Msm(g, ZeroVec(|T|), T) == g.zero
  {
    MsmScale(g, 0, ZeroVec(|T|), T);
    assert ScaleVec(0, ZeroVec(|T|)) == ZeroVec(|T|);
  }

  lemma NextCombMsm<G(!new)>(g: Group<G>, w: int, v: seq<int>, c: seq<int>, s: int, T: seq<G>, K: G)
    requires IsGroup(g) && |v| == |c| == |T| && Msm(g, v, T) == K && Msm(g, c, T) == Smul(g, s, K)
    ensures Msm(g, AddVec(ScaleVec(w, v), c), T) == Smul(g, w + s, K)
  {
    hide IsGroup, Msm, Smul;
    MsmScale(g, w, v, T);
    MsmAdd(g, ScaleVec(w, v), c, T);
    SmulAdd(g, w, s, K);
  }

  lemma {:induction false} UnitMsm<G(!new)>(g: Group<G>, T: seq<G>, j: nat)
    requires IsGroup(g) && j < |T|
    ensures Msm(g, UnitVec(|T|, j), T) == T[j]
  {
    hide IsGroup;
    var n := |T|;
    var u := UnitVec(n, j);
    if j == 0 {
      assert u[1..] == ZeroVec(n - 1);
      ZeroMsm(g, T[1..]);
      SmulBasics(g, T[0]);
      Unit(g, T[0]);
    } else {
      assert u[1..] == UnitVec(n - 1, j - 1);
      UnitMsm(g, T[1..], j - 1);
      Unit(g, T[j]);
    }
  }

  /** Reading every vector along a permutation reads the combination along it. */
  lemma {:induction false} CombGather(n: nat, w: seq<int>, vs: seq<seq<int>>, ws: seq<seq<int>>, pi: seq<nat>)
    requires |w| == |vs| == |ws| && |pi| == n && forall i :: 0 <= i < n ==> pi[i] < n
    requires forall k :: 0 <= k < |vs| ==> |vs[k]| == n && ws[k] == Gather(vs[k], pi)
    ensures (forall k :: 0 <= k < |ws| ==> |ws[k]| == n) && Comb(n, w, ws) == Gather(Comb(n, w, vs), pi)
    decreases |w|
  {
    if w == [] {
      assert ZeroVec(n) == Gather(ZeroVec(n), pi);
    } else {
      CombGather(n, w[1..], vs[1..], ws[1..], pi);
      GatherStep(w[0], vs[0], Comb(n, w[1..], vs[1..]), pi);
    }
  }

  lemma GatherStep(w: int, v: seq<int>, c: seq<int>, pi: seq<nat>)
    requires |v| == |c| && forall i :: 0 <= i < |pi| ==> pi[i] < |v|
    ensures AddVec(ScaleVec(w, Gather(v, pi)), Gather(c, pi)) == Gather(AddVec(ScaleVec(w, v), c), pi)
  {
  }

  lemma GatherUnit(n: nat, pi: seq<nat>, i: nat)
    requires IsPermutation(pi) && |pi| == n && i < n
    ensures Gather(UnitVec(n, pi[i]), pi) == UnitVec(n, i)
  {
  }

  /** If sum z_pi(i) T_i is the same for spanning vectors z, every T_i vanishes. */
  lemma TermVanishes<G(!new)>(g: Group<G>, l: int, zs: seq<seq<int>>, pi: seq<nat>, T: seq<G>, K: G, i: nat)
    requires IsGroup(g) && IsPermutation(pi) && |pi| == |T| && i < |T| && Spanning(l, |T|, zs)
    requires AllOrder(g, l, T) && Smul(g, l, K) == g.zero
    requires forall k :: 0 <= k < |zs| ==> |zs[k]| == |T| && Msm(g, Gather(zs[k], pi), T) == K
    ensures T[i] == g.zero
  {
    hide IsGroup, Cong, Msm, Smul, CongVec, Sum, Comb, AllOrder;
    var n := |T|;
    assert Reaches(l, n, zs, pi[i]);
    var w :| |w| == |zs| && Cong(l, Sum(w), 0) && CongVec(l, Comb(n, w, zs), UnitVec(n, pi[i]));
    hide Spanning, Reaches;
    var ws := seq(|zs|, k requires 0 <= k < |zs| => Gather(zs[k], pi));
    CombGather(n, w, zs, ws, pi);
    CombMsm(g, n, w, ws, T, K);
    GatheredUnit(l, Comb(n, w, zs), pi, i);
    MsmCong(g, l, Comb(n, w, ws), UnitVec(n, i), T);
    UnitMsm(g, T, i);
    SmulCong(g, l, Sum(w), 0, K);
    SmulBasics(g, K);
  }

  lemma GatheredUnit(l: int, v: seq<int>, pi: seq<nat>, i: nat)
    requires IsPermutation(pi) && |pi| == |v| && i < |v| && CongVec(l, v, UnitVec(|v|, pi[i]))
    ensures CongVec(l, Gather(v, pi), UnitVec(|v|, i))
  {
    hide Cong;
    GatherUnit(|v|, pi, i);
  }

  // ---------- the item terms ----------

  /** s g_i - h_pi(i). */
  function ItemTerms<G>(g: Group<G>, s: int, gs: seq<G>, hs: seq<G>, pi: seq<nat>): (r: seq<G>)
    requires |gs| == |hs| == |pi| && forall i :: 0 <= i < |pi| ==> pi[i] < |hs|
    ensures |r| == |gs| && forall i :: 0 <= i < |gs| ==> r[i] == g.add(Smul(g, s, gs[i]), g.neg(hs[pi[i]]))
  {
    seq(|gs|, i requires 0 <= i < |gs| => g.add(Smul(g, s, gs[i]), g.neg(hs[pi[i]])))
  }

  /** sum k_i (s g_i) - sum k_i h_i = sum k_i (s g_i - h_i). */
  lemma {:induction false} TermsMsm<G(!new)>(g: Group<G>, s: int, k: seq<int>, gs: seq<G>, hs: seq<G>, T: seq<G>)
    requires IsGroup(g) && |k| == |gs| == |hs| == |T|
    requires forall i :: 0 <= i < |T| ==> T[i] == g.add(Smul(g, s, gs[i]), g.neg(hs[i]))
    ensures Msm(g, k, T) == g.add(Msm(g, ScaleVec(s, k), gs), Msm(g, NegVec(k), hs))
    decreases |k|
  {
    hide IsGroup, Smul;
    if k == [] {
      Unit(g, g.zero);
    } else {
      TermsMsm(g, s, k[1..], gs[1..], hs[1..], T[1..]);
      assert ScaleVec(s, k)[1..] == ScaleVec(s, k[1..]) && NegVec(k)[1..] == NegVec(k[1..]);
      TermMultiple(g, s, k[0], gs[0], hs[0]);
      Interchange(g, Smul(g, s * k[0], gs[0]), Smul(g, -k[0], hs[0]), Msm(g, ScaleVec(s, k[1..]), gs[1..]),
        Msm(g, NegVec(k[1..]), hs[1..]));
    }
  }

  lemma TermMultiple<G(!new)>(g: Group<G>, s: int, k: int, P: G, Q: G)
    requires IsGroup(g)
    ensures Smul(g, k, g.add(Smul(g, s, P), g.neg(Q))) == g.add(Smul(g, s * k, P), Smul(g, -k, Q))
  {
    hide IsGroup, Smul;
    SmulDist(g, k, Smul(g, s, P), g.neg(Q));
    SmulMul(g, k, s, P);
    assert k * s == s * k;
    SmulBasics(g, Q);
    SmulMul(g, k, -1, Q);
    assert k * -1 == -k;
  }

  /** One final equation, with x = s z_pi + d: what is left of it is the sum of the item terms. */
  lemma EquationTerms<G(!new)>(g: Group<G>, l: int, s: int, z: seq<int>, d: seq<int>, x: seq<int>, gs: seq<G>,
                               hs: seq<G>, pi: seq<nat>, E: G)
    requires IsGroup(g) && IsPermutation(pi) && |z| == |d| == |x| == |gs| == |hs| == |pi|
    requires AllOrder(g, l, gs) && CongVec(l, x, AddVec(ScaleVec(s, Gather(z, pi)), d))
    requires E == Msm(g, x + NegVec(z), gs + hs)
    ensures Msm(g, Gather(z, pi), ItemTerms(g, s, gs, hs, pi)) == g.add(E, g.neg(Msm(g, d, gs)))
  {
    hide IsGroup, Cong, Msm, Smul;
    var zp := Gather(z, pi);
    MsmAppend(g, x, gs, NegVec(z), hs);
    MsmCong(g, l, x, AddVec(ScaleVec(s, zp), d), gs);
    MsmAdd(g, ScaleVec(s, zp), d, gs);
    MsmPermuted(g, NegVec(z), hs, pi);
    assert Gather(NegVec(z), pi) == NegVec(zp);
    TermsMsm(g, s, zp, gs, Gather(hs, pi), ItemTerms(g, s, gs, hs, pi));
    LeftOver(g, Msm(g, ScaleVec(s, zp), gs), Msm(g, d, gs), Msm(g, NegVec(zp), Gather(hs, pi)));
  }

  lemma LeftOver<G(!new)>(g: Group<G>, A: G, D: G, B: G)
    requires IsGroup(g)
    ensures g.add(g.add(g.add(A, D), B), g.neg(D)) == g.add(A, B)
  {
    Assoc(g, A, D, B);
    Comm(g, D, B);
    Assoc(g, A, B, D);
    Assoc(g, g.add(A, B), D, g.neg(D));
    Neg(g, D);
    Unit(g, g.add(A, B));
  }

  /** The equations for spanning challenge vectors, with one key s, one permutation and one d:
      every h_pi(i) is s g_i. */
  lemma RelationHolds<G(!new)>(g: Group<G>, l: int, s: int, d: seq<int>, zs: seq<seq<int>>, xs: seq<seq<int>>,
                               gs: seq<G>, hs: seq<G>, pi: seq<nat>, E: G)
    requires IsGroup(g) && IsPermutation(pi) && |d| == |gs| == |hs| == |pi| && |zs| == |xs| > 0
    requires AllOrder(g, l, gs) && AllOrder(g, l, hs) && Smul(g, l, E) == g.zero && Spanning(l, |pi|, zs)
    requires forall k :: 0 <= k < |zs| ==> |zs[k]| == |xs[k]| == |pi|
    requires forall k :: 0 <= k < |zs| ==> CongVec(l, xs[k], AddVec(ScaleVec(s, Gather(zs[k], pi)), d))
    requires forall k :: 0 <= k < |zs| ==> E == Msm(g, xs[k] + NegVec(zs[k]), gs + hs)
    ensures forall i :: 0 <= i < |pi| ==> hs[pi[i]] == Smul(g, s, gs[i])
  {
    hide IsGroup, Cong, Msm, Smul, Spanning;
    var T := ItemTerms(g, s, gs, hs, pi);
    var K := g.add(E, g.neg(Msm(g, d, gs)));
    TermOrders(g, l, s, gs, hs, pi);
    MsmOrder(g, l, d, gs);
    OrderOfDifference(g, l, E, Msm(g, d, gs));
    forall k | 0 <= k < |zs| ensures Msm(g, Gather(zs[k], pi), T) == K {
      EquationTerms(g, l, s, zs[k], d, xs[k], gs, hs, pi, E);
    }
    forall i | 0 <= i < |pi| ensures hs[pi[i]] == Smul(g, s, gs[i]) {
      TermVanishes(g, l, zs, pi, T, K, i);
      DifferenceZero(g, Smul(g, s, gs[i]), hs[pi[i]]);
    }
  }

  lemma OrderOfDifference<G(!new)>(g: Group<G>, l: int, P: G, Q: G)
    requires IsGroup(g) && Smul(g, l, P) == g.zero && Smul(g, l, Q) == g.zero
    ensures Smul(g, l, g.add(P, g.neg(Q))) == g.zero
  {
    hide IsGroup, Smul;
    SmulBasics(g, Q);
    SmulOrder(g, l, -1, Q);
    SmulDist(g, l, P, g.neg(Q));
    Unit(g, g.zero);
  }

  lemma TermOrders<G(!new)>(g: Group<G>, l: int, s: int, gs: seq<G>, hs: seq<G>, pi: seq<nat>)
    requires IsGroup(g) && |gs| == |hs| == |pi| && (forall i :: 0 <= i < |pi| ==> pi[i] < |hs|)
    requires AllOrder(g, l, gs) && AllOrder(g, l, hs)
    ensures AllOrder(g, l, ItemTerms(g, s, gs, hs, pi))
  {
    hide IsGroup, Smul;
    forall i | 0 <= i < |gs| ensures Smul(g, l, ItemTerms(g, s, gs, hs, pi)[i]) == g.zero {
      SmulOrder(g, l, s, gs[i]);
      OrderOfDifference(g, l, Smul(g, s, gs[i]), hs[pi[i]]);
    }
  }

  lemma DifferenceZero<G(!new)>(g: Group<G>, P: G, Q: G)
    requires IsGroup(g) && g.add(P, g.neg(Q)) == g.zero
    ensures Q == P
  {
    Assoc(g, P, g.neg(Q), Q);
    Neg(g, Q);
    Unit(g, P);
    Unit(g, Q);
  }
}
