/** Whole-run correctness of the two-sided protocol. */
module TwoSidedProof {
  import opened Wrappers
  import opened Arith
  import opened Fermat
  import opened Folds
  import opened Groups
  import opened ShuffleArgument
  import opened AdaptedShuffle
  import opened BatchSoundness
  import opened Permutation
  import opened TwoSided

  // ---------- honest parties ----------

  /** What Party::new establishes for a key 8 k. */
  ghost predicate Honest<G, C, I>(w: World<G, C, I>, p: Party<G, I>, k: int, coins: Coins) {
    && w.pp.l > 2
    && p.sk8 == 8 * k && Cong(w.pp.l, p.sk, k) && !Cong(w.pp.l, p.sk, 0)
    && Cong(w.pp.l, p.skInv * p.sk, 1) && Cong(w.pp.l, (8 * p.sk8Inv) * p.sk, 1)
    && p.pk == Smul(w.pp.g, p.sk, w.pp.base)
    && |p.pi| == |p.input| == |w.pp.f| && Inverse(p.pi, p.piInv)
    && ValidCoins(coins, |w.pp.f|) && p.hint == Prepare(w.pp, p.pi, coins)
  }

  /** Every party built by Party::new from a clamped key 8 k, 0 < k < l, is honest. */
  lemma NewPartyIsHonest<G(!new), C, I>(w: World<G, C, I>, server: bool, input: seq<I>, k: int, pi: seq<nat>,
                                        piInv: seq<nat>, coins: Coins, a1: int, a2: int, nonce: int)
    requires ValidWorld(w) && 0 < k < w.pp.l
    requires |pi| == |input| == |w.pp.f| && Inverse(pi, piInv) && ValidCoins(coins, |w.pp.f|)
    ensures var p := NewParty(w, server, input, 8 * k, pi, piInv, coins, a1, a2, nonce);
      && Honest(w, p, k, coins) && p.server == server && p.input == input && p.pi == pi && p.piInv == piInv
      && p.a1 == a1 && p.a2 == a2 && p.nonce == nonce
  {
    hide IsPrime, Cong, Act, Prepare;
    var l := w.pp.l;
    var i8 := ScalarInvert(l, 8);
    SmallIsNonzero(l, 8);
    SmallIsNonzero(l, k);
    FermatInverse(l, 8);
    var sk := (8 * k) * i8;
    assert sk - k == k * (8 * i8 - 1);
    CongBy(l, sk, k, 8 * i8, 1, k);
    if Cong(l, sk, 0) { CongBy2(l, k, 0, sk, k, -1, sk, 0, 1); }
    FermatInverse(l, sk);
    var skInv := ScalarInvert(l, sk);
    assert skInv * sk == sk * skInv;
    var one := skInv * sk;
    assert (8 * (skInv * i8)) * sk == (8 * i8) * one by { MulSwap(8, i8, skInv, sk); MulSwap(8, skInv, i8, sk); }
    CongMul(l, 8 * i8, 1, one, 1);
    ActIsSmul(w.pp, sk, w.pp.base);
  }

  /** The cofactor-cleared hash of an item; it has order l. */
  function Cleared<G, C, I>(w: World<G, C, I>, x: I): G {
    Smul(w.pp.g, 8, w.hash(x))
  }

  lemma ClearedOrder<G(!new), C, I>(w: World<G, C, I>, x: I)
    requires ValidWorld(w)
    ensures Smul(w.pp.g, w.pp.l, Cleared(w, x)) == w.pp.g.zero
  {
    assert CofactorAt(w.pp, w.hash(x));
    SmulMul(w.pp.g, w.pp.l, 8, w.hash(x));
    assert w.pp.l * 8 == 8 * w.pp.l;
  }

  /** The blinded point is the secret key times the cleared hash. */
  lemma GenIsBlinded<G(!new), C, I>(w: World<G, C, I>, p: Party<G, I>, k: int, coins: Coins, i: nat)
    requires ValidWorld(w) && Honest(w, p, k, coins) && i < |p.input|
    ensures Gen(w, p)[i] == Smul(w.pp.g, p.sk, Cleared(w, p.input[i]))
    ensures Smul(w.pp.g, w.pp.l, Gen(w, p)[i]) == w.pp.g.zero
  {
    hide IsPrime, Cong, IsGroup, Prepare;
    var g, E := w.pp.g, Cleared(w, p.input[i]);
    ClearedOrder(w, p.input[i]);
    SmulMul(g, k, 8, w.hash(p.input[i]));
    assert k * 8 == p.sk8;
    SmulCong(g, w.pp.l, p.sk, k, E);
    SmulOrder(g, w.pp.l, p.sk, E);
  }

  /** Inverting one key after the other has been applied. */
  lemma Unblind<G(!new)>(g: Group<G>, l: int, s: int, sInv: int, t: int, x: G)
    requires IsGroup(g) && Smul(g, l, x) == g.zero && Cong(l, sInv * s, 1)
    ensures Smul(g, sInv, Smul(g, t, Smul(g, s, x))) == Smul(g, t, x)
  {
    hide Cong, IsGroup;
    SmulComm(g, t, s, x);
    var y := Smul(g, t, x);
    SmulOrder(g, l, t, x);
    SmulMul(g, sInv, s, y);
    SmulCong(g, l, sInv * s, 1, y);
    SmulBasics(g, y);
  }

  /** p's shuffle of q's points, entry by entry. */
  lemma ShuffledEntry<G(!new), C, I>(w: World<G, C, I>, p: Party<G, I>, kp: int, cp: Coins, q: Party<G, I>, kq: int,
                                     cq: Coins, i: nat)
    requires ValidWorld(w) && Honest(w, p, kp, cp) && Honest(w, q, kq, cq) && i < |q.input|
    ensures var E := Cleared(w, q.input[p.piInv[i]]); var h := Shuffled(w, p, Gen(w, q))[i];
      && h == Smul(w.pp.g, p.sk, Smul(w.pp.g, q.sk, E)) && Smul(w.pp.g, w.pp.l, h) == w.pp.g.zero
      && Act(w.pp, q.skInv, h) == Smul(w.pp.g, p.sk, E)
      && Smul(w.pp.g, w.pp.l, Act(w.pp, q.skInv, h)) == w.pp.g.zero
      && h == Smul(w.pp.g, q.sk, Act(w.pp, q.skInv, h))
  {
    hide IsPrime, Cong, IsGroup, Act, Prepare, Inverse;
    InverseBounds(p.pi, p.piInv);
    var g, l, j := w.pp.g, w.pp.l, p.piInv[i];
    var E := Cleared(w, q.input[j]);
    ClearedOrder(w, q.input[j]);
    GenIsBlinded(w, q, kq, cq, j);
    ActIsSmul(w.pp, p.sk, Gen(w, q)[j]);
    var h := Shuffled(w, p, Gen(w, q))[i];
    SmulOrder(g, l, p.sk, Gen(w, q)[j]);
    ActIsSmul(w.pp, q.skInv, h);
    Unblind(g, l, q.sk, q.skInv, p.sk, E);
    SmulOrder(g, l, p.sk, E);
    SmulComm(g, p.sk, q.sk, E);
  }

  lemma InverseFacts(pi: seq<nat>, inv: seq<nat>, i: nat)
    requires Inverse(pi, inv) && i < |pi|
    ensures inv[i] < |pi| && pi[i] < |pi| && inv[pi[i]] == i
  {
  }

  lemma InverseBounds(pi: seq<nat>, inv: seq<nat>)
    requires Inverse(pi, inv)
    ensures |pi| == |inv| && forall i :: 0 <= i < |pi| ==> inv[i] < |pi| && pi[i] < |pi|
  {
  }

  lemma {:induction false} DecodeAll<G(!new), C>(pp: Params<G, C>, s: seq<G>)
    requires ValidParams(pp)
    ensures DecAll(pp, EncAll(pp, s)) == Some(s)
  {
    hide IsPrime, IsGroup;
    if s != [] {
      DecodeAll(pp, s[1..]);
      assert EncAll(pp, s)[1..] == EncAll(pp, s[1..]);
      assert CodecAt(pp, s[0]);
      assert s == [s[0]] + s[1..];
    }
  }

  // ---------- round 3 ----------

  ghost predicate Fitting<G, C, I>(w: World<G, C, I>, p: Party<G, I>, q: Party<G, I>) {
    w.pp.l > 2 && ShuffleFits(w, p, |q.input|)
  }

  lemma HonestFits<G(!new), C, I>(w: World<G, C, I>, p: Party<G, I>, k: int, coins: Coins, q: Party<G, I>)
    requires Honest(w, p, k, coins) && |q.input| == |w.pp.f|
    ensures Fitting(w, p, q)
  {
    hide Cong, Act, Commit;
    InverseBounds(p.pi, p.piInv);
  }

  function Message3<G, C, I>(w: World<G, C, I>, p: Party<G, I>, q: Party<G, I>): (r: Message<G, C>)
    requires Fitting(w, p, q)
    requires forall d: int, n: nat :: ExpandAt(w.pp, d, n)
    ensures r.Round3?
  {
    var points := Gen(w, q);
    var enc := EncAll(w.pp, Shuffled(w, p, points));
    Round3(ProveAdapted(w.pp, p.pk, p.hint, points, EncAll(w.pp, points), enc, p.sk, p.pi), enc)
  }

  lemma Respond3Honest<G(!new), C, I>(w: World<G, C, I>, p: Party<G, I>, k: int, coins: Coins, q: Party<G, I>)
    requires ValidWorld(w) && Honest(w, p, k, coins) && |q.input| == |w.pp.f|
    ensures Fitting(w, p, q)
    ensures var enc := EncAll(w.pp, Gen(w, q));
      Respond3(w, p, Sigma(w.pp, q.pk, enc), q.pk, enc) == Value(Message3(w, p, q))
  {
    hide IsPrime, Cong, IsGroup, ProveAdapted, Sigma;
    HonestFits(w, p, k, coins, q);
    DecodeAll(w.pp, Gen(w, q));
  }

  // ---------- round 4 ----------

  /** q verifies p's shuffle of q's own points. */
  lemma ShuffleAccepted<G(!new), C, I>(w: World<G, C, I>, p: Party<G, I>, kp: int, cp: Coins, q: Party<G, I>, kq: int,
                                       cq: Coins)
    requires ValidWorld(w) && Honest(w, p, kp, cp) && Honest(w, q, kq, cq) && |w.pp.f| >= 2
    ensures Fitting(w, p, q)
    ensures var m := Message3(w, p, q);
      VerifyAdapted(w.pp, p.pk, Gen(w, q), Shuffled(w, p, Gen(w, q)), EncAll(w.pp, Gen(w, q)), m.shuffled, m.shuffle,
        q.a1, q.a2) == Accept
  {
    hide IsPrime, Cong, IsGroup, Act, Prepare, ProveAdapted, VerifyAdapted, Inverse, IsPermutation;
    HonestFits(w, p, kp, cp, q);
    var g, points := w.pp.g, Gen(w, q);
    var h := Shuffled(w, p, points);
    InverseIsPermutation(p.pi, p.piInv);
    InverseBounds(p.pi, p.piInv);
    forall i | 0 <= i < |points|
      ensures Smul(g, w.pp.l, points[i]) == g.zero && h[p.pi[i]] == Smul(g, p.sk, points[i])
    {
      GenIsBlinded(w, q, kq, cq, i);
      InverseFacts(p.pi, p.piInv, i);
      ActIsSmul(w.pp, p.sk, points[i]);
    }
    assert HonestStatement(g, w.pp.l, w.pp.base, p.pk, points, h, p.sk, p.pi);
    AdaptedCompleteness(w.pp, p.pk, points, h, EncAll(w.pp, points), EncAll(w.pp, h), p.sk, p.pi, cp, q.a1, q.a2);
  }

  function Message4<G, C(==), I>(w: World<G, C, I>, q: Party<G, I>, p: Party<G, I>): (r: Message<G, C>)
    requires Fitting(w, p, q)
    requires forall d: int, n: nat :: ExpandAt(w.pp, d, n)
    ensures r.Round4?
  {
    var h := Shuffled(w, p, Gen(w, q));
    var ind := Unmatched(w, q, h, EncAll(w.pp, Gen(w, p)), |q.input|);
    var unblinded := Unblinded(w, q, h, ind);
    var enc := EncAll(w.pp, unblinded);
    Round4(DdhProve(w.pp, q.pk, unblinded, enc, Gather(EncAll(w.pp, h), ind), q.sk, q.nonce), enc, ind)
  }

  lemma Respond4Honest<G(!new), C, I>(w: World<G, C, I>, p: Party<G, I>, kp: int, cp: Coins, q: Party<G, I>, kq: int,
                                      cq: Coins)
    requires ValidWorld(w) && Honest(w, p, kp, cp) && Honest(w, q, kq, cq) && |w.pp.f| >= 2
    ensures Fitting(w, p, q)
    ensures var m := Message3(w, p, q);
      Respond4(w, q, p.pk, EncAll(w.pp, Gen(w, p)), m.shuffle, m.shuffled) == Value(Message4(w, q, p))
  {
    hide IsPrime, Cong, IsGroup, Act, Prepare, ProveAdapted, VerifyAdapted, DdhProve, Unmatched, Unblinded;
    HonestFits(w, p, kp, cp, q);
    ShuffleAccepted(w, p, kp, cp, q, kq, cq);
    DecodeAll(w.pp, Shuffled(w, p, Gen(w, q)));
  }

  // ---------- filtering ----------

  /** The blinded hashes tell the items of the two sets apart. */
  ghost predicate Distinguishes<G, C, I(!new)>(w: World<G, C, I>, a: seq<I>, b: seq<I>) {
    forall x, y :: x in a && y in b && Cleared(w, x) == Cleared(w, y) ==> x == y
  }

  lemma SameBlinded<G(!new)>(g: Group<G>, l: int, s: int, x: G, y: G)
    requires IsGroup(g) && IsPrime(l) && !Cong(l, s, 0)
    requires Smul(g, l, x) == g.zero && Smul(g, l, y) == g.zero
    requires Smul(g, s, x) == Smul(g, s, y)
    ensures x == y
  {
    hide IsPrime, Cong, IsGroup;
    var t := InverseExists(l, s);
    assert t * s == s * t;
    SmulMul(g, t, s, x);
    SmulMul(g, t, s, y);
    SmulCong(g, l, t * s, 1, x);
    SmulCong(g, l, t * s, 1, y);
    SmulBasics(g, x);
    SmulBasics(g, y);
  }

  /** q's i-th unblinded point is among p's points exactly when its item is in p's set. */
  lemma MatchMeansCommon<G(!new), C, I(!new)>(w: World<G, C, I>, p: Party<G, I>, kp: int, cp: Coins, q: Party<G, I>,
                                              kq: int, cq: Coins, i: nat)
    requires ValidWorld(w) && Honest(w, p, kp, cp) && Honest(w, q, kq, cq) && i < |q.input|
    requires Distinguishes(w, p.input, q.input) && Fitting(w, p, q)
    ensures p.piInv[i] < |q.input|
    ensures w.pp.enc(Act(w.pp, q.skInv, Shuffled(w, p, Gen(w, q))[i])) in EncAll(w.pp, Gen(w, p))
      <==> q.input[p.piInv[i]] in p.input
  {
    hide IsPrime, Cong, IsGroup, Act, Prepare, Cleared, Inverse, Shuffled, Gen;
    ShuffledEntry(w, p, kp, cp, q, kq, cq, i);
    var g, y := w.pp.g, q.input[p.piInv[i]];
    var P := Act(w.pp, q.skInv, Shuffled(w, p, Gen(w, q))[i]);
    var points := Gen(w, p);
    if w.pp.enc(P) in EncAll(w.pp, points) {
      var j :| 0 <= j < |points| && w.pp.enc(points[j]) == w.pp.enc(P);
      assert CodecAt(w.pp, points[j]) && CodecAt(w.pp, P);
      GenIsBlinded(w, p, kp, cp, j);
      ClearedOrder(w, y);
      ClearedOrder(w, p.input[j]);
      SameBlinded(g, w.pp.l, p.sk, Cleared(w, p.input[j]), Cleared(w, y));
      assert p.input[j] in p.input && y in q.input;
    }
    if y in p.input {
      var j :| 0 <= j < |p.input| && p.input[j] == y;
      GenIsBlinded(w, p, kp, cp, j);
      assert EncAll(w.pp, points)[j] == w.pp.enc(P);
    }
  }

  /** The items of s that are not in a, in order. */
  function Without<I(==)>(s: seq<I>, a: seq<I>): seq<I> {
    if s == [] then []
    else
      var n := |s| - 1;
      if s[n] in a then Without(s[..n], a) else Without(s[..n], a) + [s[n]]
  }

  lemma {:induction false} WithoutCount<I>(s: seq<I>, a: seq<I>, x: I)
    ensures multiset(Without(s, a))[x] == if x in a then 0 else multiset(s)[x]
    decreases |s|
  {
    if s != [] {
      var n := |s| - 1;
      WithoutCount(s[..n], a, x);
      assert s == s[..n] + [s[n]];
    }
  }

  lemma WithoutPermuted<I(!new)>(s: seq<I>, a: seq<I>, pi: seq<nat>)
    requires IsPermutation(pi) && |pi| == |s|
    ensures multiset(Without(Gather(s, pi), a)) == multiset(Without(s, a))
  {
    PermutedMultiset(s, pi);
    forall x
      ensures multiset(Without(Gather(s, pi), a))[x] == multiset(Without(s, a))[x]
    {
      WithoutCount(Gather(s, pi), a, x);
      WithoutCount(s, a, x);
    }
    assert multiset(Without(Gather(s, pi), a)) == multiset(Without(s, a));
  }

  lemma UnmatchedUnfolds<G, C, I>(w: World<G, C, I>, p: Party<G, I>, shuffled: seq<G>, other: seq<C>, n: nat)
    requires w.pp.l > 0 && 0 < n <= |shuffled|
    ensures Unmatched(w, p, shuffled, other, n) == Unmatched(w, p, shuffled, other, n - 1)
      + (if w.pp.enc(Act(w.pp, p.skInv, shuffled[n - 1])) in other then [] else [n - 1])
  {
  }

  lemma WithoutSnoc<I>(s: seq<I>, a: seq<I>, n: nat)
    requires 0 < n <= |s|
    ensures Without(s[..n], a) == Without(s[..n - 1], a) + (if s[n - 1] in a then [] else [s[n - 1]])
  {
    assert s[..n][..n - 1] == s[..n - 1];
  }

  lemma GatherSnoc<T>(s: seq<T>, idx: seq<nat>, i: nat)
    requires i < |s| && forall j :: 0 <= j < |idx| ==> idx[j] < |s|
    ensures Gather(s, idx + [i]) == Gather(s, idx) + [s[i]]
  {
  }

  /** The kept positions are exactly those of the items p does not have. */
  lemma {:induction false} UnmatchedItems<G(!new), C, I(!new)>(w: World<G, C, I>, p: Party<G, I>, kp: int, cp: Coins,
                                                             q: Party<G, I>, kq: int, cq: Coins, n: nat)
    requires ValidWorld(w) && Honest(w, p, kp, cp) && Honest(w, q, kq, cq) && n <= |q.input|
    requires Distinguishes(w, p.input, q.input) && Fitting(w, p, q)
    ensures var s := Gather(q.input, p.piInv);
      Gather(s, Unmatched(w, q, Shuffled(w, p, Gen(w, q)), EncAll(w.pp, Gen(w, p)), n)) == Without(s[..n], p.input)
    decreases n
  {
    hide IsPrime, Cong, IsGroup, Act, Prepare, Cleared, Inverse, Shuffled, Gen, Honest, ValidWorld, Distinguishes;
    var s := Gather(q.input, p.piInv);
    if n > 0 {
      HonestPositive(w, p, kp, cp);
      UnmatchedItems(w, p, kp, cp, q, kq, cq, n - 1);
      MatchMeansCommon(w, p, kp, cp, q, kq, cq, n - 1);
      var sh, other := Shuffled(w, p, Gen(w, q)), EncAll(w.pp, Gen(w, p));
      var rest := Unmatched(w, q, sh, other, n - 1);
      UnmatchedUnfolds(w, q, sh, other, n);
      assert s[n - 1] == q.input[p.piInv[n - 1]];
      hide Unmatched, Without, EncAll, Gather;
      WithoutSnoc(s, p.input, n);
      GatherSnoc(s, rest, n - 1);
    }
  }

  lemma HonestPositive<G(!new), C, I>(w: World<G, C, I>, p: Party<G, I>, k: int, coins: Coins)
    requires Honest(w, p, k, coins)
    ensures w.pp.l > 2
  {
  }

  // ---------- the end ----------

  /** Recovery returns an item from every point whose cleared form is the item's. */
  ghost predicate Recovers<G(!new), C, I(!new)>(w: World<G, C, I>, s: seq<I>) {
    forall x, P :: x in s && Smul(w.pp.g, 8, P) == Cleared(w, x) ==> w.recover(P) == x
  }

  lemma RecoveredItem<G(!new), C, I(!new)>(w: World<G, C, I>, p: Party<G, I>, k: int, coins: Coins, s: seq<I>, x: I)
    requires ValidWorld(w) && Honest(w, p, k, coins) && x in s && Recovers(w, s)
    ensures w.recover(Act(w.pp, p.sk8Inv, Smul(w.pp.g, p.sk, Cleared(w, x)))) == x
  {
    hide IsPrime, Cong, IsGroup, Act, Prepare, Cleared;
    var g, l, E := w.pp.g, w.pp.l, Cleared(w, x);
    ClearedOrder(w, x);
    var Q := Smul(g, p.sk, E);
    SmulOrder(g, l, p.sk, E);
    ActIsSmul(w.pp, p.sk8Inv, Q);
    var P := Smul(g, p.sk8Inv, Q);
    SmulMul(g, 8, p.sk8Inv, Q);
    SmulMul(g, 8 * p.sk8Inv, p.sk, E);
    SmulCong(g, l, (8 * p.sk8Inv) * p.sk, 1, E);
    SmulBasics(g, E);
  }

  /** p accepts q's unblinding and outputs q's items that p lacks. */
  lemma FinishHonest<G(!new), C, I(!new)>(w: World<G, C, I>, p: Party<G, I>, kp: int, cp: Coins, q: Party<G, I>,
                                          kq: int, cq: Coins)
    requires ValidWorld(w) && Honest(w, p, kp, cp) && Honest(w, q, kq, cq)
    requires Distinguishes(w, p.input, q.input) && Recovers(w, q.input)
    ensures Fitting(w, p, q)
    ensures var m := Message4(w, q, p);
      Finish(w, p, q.pk, EncAll(w.pp, Gen(w, q)), m.ddh, m.unblinded, m.ind)
        == Value(Without(Gather(q.input, p.piInv), p.input))
  {
    hide IsPrime, Cong, IsGroup, Act, Prepare, Cleared, Inverse, Gen, Distinguishes, Recovers, Unmatched, DdhProve,
      DdhVerify, Without;
    HonestFits(w, p, kp, cp, q);
    var h := Shuffled(w, p, Gen(w, q));
    var ind := Unmatched(w, q, h, EncAll(w.pp, Gen(w, p)), |q.input|);
    var u := Unblinded(w, q, h, ind);
    DecodeAll(w.pp, Gen(w, q));
    DecodeAll(w.pp, u);
    assert EncAll(w.pp, u)[..|ind|] == EncAll(w.pp, u);
    forall i | 0 <= i < |ind|
      ensures Smul(w.pp.g, w.pp.l, u[i]) == w.pp.g.zero && Gather(h, ind)[i] == Smul(w.pp.g, q.sk, u[i])
      ensures w.recover(Act(w.pp, p.sk8Inv, u[i])) == q.input[p.piInv[ind[i]]]
    {
      ShuffledEntry(w, p, kp, cp, q, kq, cq, ind[i]);
      RecoveredItem(w, p, kp, cp, q.input, q.input[p.piInv[ind[i]]]);
    }
    DdhCompleteness(w.pp, u, Gather(h, ind), EncAll(w.pp, u), Gather(EncAll(w.pp, h), ind), q.sk, q.nonce);
    UnmatchedItems(w, p, kp, cp, q, kq, cq, |q.input|);
    var s := Gather(q.input, p.piInv);
    assert s[..|q.input|] == s;
    assert Recovered(w, p, u) == Gather(s, ind);
  }

  /** What an honest party returns against an honest partner. */
  function Expected<G, I(==)>(p: Party<G, I>, q: Party<G, I>): seq<I>
    requires |p.piInv| == |q.input| && forall i :: 0 <= i < |p.piInv| ==> p.piInv[i] < |q.input|
  {
    Without(Gather(q.input, p.piInv), p.input)
  }

  /** As a multiset it is the other party's set minus one's own. */
  lemma ExpectedIsDifference<G(!new), C, I(!new)>(w: World<G, C, I>, p: Party<G, I>, k: int, coins: Coins,
                                                  q: Party<G, I>)
    requires Honest(w, p, k, coins) && |q.input| == |w.pp.f|
    ensures |p.piInv| == |q.input| && forall i :: 0 <= i < |p.piInv| ==> p.piInv[i] < |q.input|
    ensures multiset(Expected(p, q)) == multiset(Without(q.input, p.input))
  {
    hide Cong, Act, Prepare;
    InverseIsPermutation(p.pi, p.piInv);
    InverseBounds(p.pi, p.piInv);
    WithoutPermuted(q.input, p.input, p.piInv);
  }

  // ---------- whole runs ----------

  /** The four messages p sends in a run with q. */
  function Script<G, C(==), I>(w: World<G, C, I>, p: Party<G, I>, q: Party<G, I>): (r: seq<Message<G, C>>)
    requires Fitting(w, p, q) && Fitting(w, q, p)
    requires forall d: int, n: nat :: ExpandAt(w.pp, d, n)
    ensures |r| == 4 && InboxOk(r)
  {
    hide Message1, Message2, Message3, Message4, Fitting;
    [Message1(w, p), Message2(w, p), Message3(w, p, q), Message4(w, p, q)]
  }

  function Message1<G, C, I>(w: World<G, C, I>, p: Party<G, I>): (r: Message<G, C>)
    ensures r.Round1?
  {
    Round1(Sigma(w.pp, p.pk, EncAll(w.pp, Gen(w, p))))
  }

  function Message2<G, C, I>(w: World<G, C, I>, p: Party<G, I>): (r: Message<G, C>)
    ensures r.Round2?
  {
    Round2(p.pk, EncAll(w.pp, Gen(w, p)))
  }

  /** Two honest parties with equally many items, at least two, whose blinded hashes tell the
      items of the two sets apart and whose items can be recovered. */
  ghost predicate Paired<G(!new), C, I(!new)>(w: World<G, C, I>, p: Party<G, I>, kp: int, cp: Coins, q: Party<G, I>,
                                              kq: int, cq: Coins) {
    && ValidWorld(w) && Honest(w, p, kp, cp) && Honest(w, q, kq, cq) && |w.pp.f| >= 2
    && Distinguishes(w, p.input, q.input) && Recovers(w, p.input) && Recovers(w, q.input)
  }

  lemma PairedSymmetric<G(!new), C, I(!new)>(w: World<G, C, I>, p: Party<G, I>, kp: int, cp: Coins, q: Party<G, I>,
                                             kq: int, cq: Coins)
    requires Paired(w, p, kp, cp, q, kq, cq)
    ensures Paired(w, q, kq, cq, p, kp, cp) && Fitting(w, p, q) && Fitting(w, q, p)
  {
    hide Cong, IsPrime, Prepare;
    HonestFits(w, p, kp, cp, q);
    HonestFits(w, q, kq, cq, p);
  }

  /** After q's first r - 1 messages, what p sends is its r-th. */
  ghost predicate Follows<G, C, I>(w: World<G, C, I>, p: Party<G, I>, q: Party<G, I>, r: nat)
    requires Fitting(w, p, q) && Fitting(w, q, p) && 1 <= r <= 4
    requires forall d: int, n: nat :: ExpandAt(w.pp, d, n)
  {
    hide Script, ShuffleFits;
    Outgoing(w, p, r, Script(w, q, p)[..r - 1]) == Value(Script(w, p, q)[r - 1])
  }

  /** Against q's script, p sends its own script and ends with the expected output. */
  lemma ScriptIsFollowed<G(!new), C, I(!new)>(w: World<G, C, I>, p: Party<G, I>, kp: int, cp: Coins, q: Party<G, I>,
                                              kq: int, cq: Coins, r: nat)
    requires Paired(w, p, kp, cp, q, kq, cq) && 1 <= r <= 4
    ensures Fitting(w, p, q) && Fitting(w, q, p)
    ensures Follows(w, p, q, r)
  {
    hide Cong, IsPrime, IsGroup, Prepare, Honest, Distinguishes, Recovers, Respond3, Respond4, Message3, Message4,
      Sigma, Gen;
    PairedSymmetric(w, p, kp, cp, q, kq, cq);
    SameSize(w, p, kp, cp);
    SameSize(w, q, kq, cq);
    if r == 3 {
      Respond3Honest(w, p, kp, cp, q);
    } else if r == 4 {
      Respond4Honest(w, q, kq, cq, p, kp, cp);
      MessageKinds(w, q, p);
    }
  }

  lemma MessageKinds<G, C, I>(w: World<G, C, I>, p: Party<G, I>, q: Party<G, I>)
    requires Fitting(w, p, q)
    requires forall d: int, n: nat :: ExpandAt(w.pp, d, n)
    ensures Message3(w, p, q).Round3? && Message4(w, q, p).Round4?
  {
  }

  lemma SameSize<G(!new), C, I>(w: World<G, C, I>, p: Party<G, I>, k: int, coins: Coins)
    requires Honest(w, p, k, coins)
    ensures |p.input| == |w.pp.f|
  {
  }

  lemma ScriptOutput<G(!new), C, I(!new)>(w: World<G, C, I>, p: Party<G, I>, kp: int, cp: Coins, q: Party<G, I>,
                                          kq: int, cq: Coins)
    requires Paired(w, p, kp, cp, q, kq, cq)
    ensures Fitting(w, p, q) && Fitting(w, q, p)
    ensures Output(w, p, Script(w, q, p)) == Value(Expected(p, q))
  {
    hide Cong, IsPrime, IsGroup, Prepare, Honest, Distinguishes, Recovers, Finish, Message3, Message4, Sigma, Gen;
    PairedSymmetric(w, p, kp, cp, q, kq, cq);
    MessageKinds(w, p, q);
    FinishHonest(w, p, kp, cp, q, kq, cq);
  }

  /** Inboxes and queues hold consecutive pieces of the scripts S and T, no one has rejected
      or crashed, and who has returned has returned the output u or v. */
  ghost predicate Placed<G, C, I>(S: seq<Message<G, C>>, T: seq<Message<G, C>>, u: seq<I>, v: seq<I>, net: Net<G, C, I>)
    requires |S| == |T| == 4
  {
    var i, j := net.server.pc, net.client.pc;
    && i <= 8 && j <= 8 && (j + 1) / 2 <= (i + 1) / 2 && i / 2 <= j / 2
    && net.server.inbox == T[..i / 2] && net.client.inbox == S[..(j + 1) / 2]
    && net.toClient == S[(j + 1) / 2..(i + 1) / 2] && net.toServer == T[i / 2..j / 2]
    && (net.server.status == Running || (i == 8 && net.server.status == Returned(Some(u))))
    && (net.client.status == Running || (j == 8 && net.client.status == Returned(Some(v))))
  }

  /** Every reachable net lies on the two scripts. */
  ghost predicate Invariant<G, C, I>(w: World<G, C, I>, s: Party<G, I>, c: Party<G, I>, net: Net<G, C, I>)
    requires Fitting(w, s, c) && Fitting(w, c, s)
    requires forall d: int, n: nat :: ExpandAt(w.pp, d, n)
  {
    hide Script, Expected;
    Placed(Script(w, s, c), Script(w, c, s), Expected(s, c), Expected(c, s), net)
  }

  // Each kind of move keeps the net on the scripts.

  lemma ServerSent<G, C, I>(S: seq<Message<G, C>>, T: seq<Message<G, C>>, u: seq<I>, v: seq<I>, net: Net<G, C, I>)
    requires |S| == |T| == 4 && Placed(S, T, u, v, net)
    requires net.server.status == Running && net.server.pc < 8 && net.server.pc % 2 == 0
    ensures Placed(S, T, u, v,
      net.(server := net.server.(pc := net.server.pc + 1), toClient := net.toClient + [S[net.server.pc / 2]]))
  {
    var i, sent := net.server.pc, net.server.pc / 2;
    assert (i + 1) / 2 == sent && (i + 2) / 2 == sent + 1;
    SliceSnoc(S, (net.client.pc + 1) / 2, sent);
  }

  lemma ServerReceived<G, C, I>(S: seq<Message<G, C>>, T: seq<Message<G, C>>, u: seq<I>, v: seq<I>, net: Net<G, C, I>)
    requires |S| == |T| == 4 && Placed(S, T, u, v, net)
    requires net.server.status == Running && net.server.pc < 8 && net.server.pc % 2 == 1 && net.toServer != []
    ensures net.toServer[0] == T[net.server.pc / 2]
    ensures Placed(S, T, u, v,
      net.(server := Local(net.server.pc + 1, net.server.inbox + [net.toServer[0]], Running),
        toServer := net.toServer[1..]))
  {
    SliceSnoc(T, 0, net.server.pc / 2);
    SliceTail(T, net.server.pc / 2, net.client.pc / 2);
  }

  lemma ClientSent<G, C, I>(S: seq<Message<G, C>>, T: seq<Message<G, C>>, u: seq<I>, v: seq<I>, net: Net<G, C, I>)
    requires |S| == |T| == 4 && Placed(S, T, u, v, net)
    requires net.client.status == Running && net.client.pc < 8 && net.client.pc % 2 == 1
    ensures Placed(S, T, u, v,
      net.(client := net.client.(pc := net.client.pc + 1), toServer := net.toServer + [T[net.client.pc / 2]]))
  {
    SliceSnoc(T, net.server.pc / 2, net.client.pc / 2);
  }

  lemma ClientReceived<G, C, I>(S: seq<Message<G, C>>, T: seq<Message<G, C>>, u: seq<I>, v: seq<I>, net: Net<G, C, I>)
    requires |S| == |T| == 4 && Placed(S, T, u, v, net)
    requires net.client.status == Running && net.client.pc < 8 && net.client.pc % 2 == 0 && net.toClient != []
    ensures net.toClient[0] == S[net.client.pc / 2]
    ensures Placed(S, T, u, v,
      net.(client := Local(net.client.pc + 1, net.client.inbox + [net.toClient[0]], Running),
        toClient := net.toClient[1..]))
  {
    var j, i := net.client.pc / 2, (net.server.pc + 1) / 2;
    SliceSnoc(S, 0, j);
    SliceTail(S, j, i);
  }

  lemma SliceTail<T>(s: seq<T>, a: nat, b: nat)
    requires a < b <= |s|
    ensures s[a..b][0] == s[a] && s[a..b][1..] == s[a + 1..b]
  {
  }

  lemma ServerSendKeeps<G(!new), C, I(!new)>(w: World<G, C, I>, s: Party<G, I>, ks: int, cs: Coins, c: Party<G, I>,
                                             kc: int, cc: Coins, net: Net<G, C, I>)
    requires Paired(w, s, ks, cs, c, kc, cc) && s.server && !c.server
    requires Fitting(w, s, c) && Fitting(w, c, s) && Invariant(w, s, c, net) && NetOk(net)
    requires net.server.status == Running && net.server.pc < 8 && net.server.pc % 2 == 0
    ensures Invariant(w, s, c, Step(w, s, c, net, true))
  {
    hide Cong, IsPrime, IsGroup, Prepare, Honest, Distinguishes, Recovers, Outgoing, Output, Script, Expected, Step;
    var i, S, T := net.server.pc, Script(w, s, c), Script(w, c, s);
    ServerSent(S, T, Expected(s, c), Expected(c, s), net);
    ScriptIsFollowed(w, s, ks, cs, c, kc, cc, i / 2 + 1);
    ServerSends(w, s, c, net, S[i / 2]);
    hide Placed;
  }

  lemma SliceSnoc<T>(s: seq<T>, a: nat, b: nat)
    requires a <= b < |s|
    ensures s[a..b + 1] == s[a..b] + [s[b]]
  {
  }

  lemma ServerSends<G, C, I>(w: World<G, C, I>, s: Party<G, I>, c: Party<G, I>, net: Net<G, C, I>, m: Message<G, C>)
    requires w.pp.l > 2 && NetOk(net) && s.server && !c.server
    requires forall d: int, n: nat :: ExpandAt(w.pp, d, n)
    requires net.server.status == Running && net.server.pc < 8 && net.server.pc % 2 == 0
    requires Outgoing(w, s, net.server.pc / 2 + 1, net.server.inbox) == Value(m)
    ensures Step(w, s, c, net, true) == net.(server := net.server.(pc := net.server.pc + 1),
      toClient := net.toClient + [m])
  {
    hide Outgoing, Output;
  }

  lemma ServerReceives<G, C, I>(w: World<G, C, I>, s: Party<G, I>, c: Party<G, I>, net: Net<G, C, I>)
    requires w.pp.l > 2 && NetOk(net) && s.server && !c.server
    requires forall d: int, n: nat :: ExpandAt(w.pp, d, n)
    requires net.server.status == Running && net.server.pc < 8 && net.server.pc % 2 == 1 && net.toServer != []
    requires RightKind(net.toServer[0], net.server.pc / 2 + 1)
    ensures Step(w, s, c, net, true)
         == net.(server := Local(net.server.pc + 1, net.server.inbox + [net.toServer[0]], Running),
           toServer := net.toServer[1..])
  {
    hide Outgoing, Output;
  }

  lemma ClientSends<G, C, I>(w: World<G, C, I>, s: Party<G, I>, c: Party<G, I>, net: Net<G, C, I>, m: Message<G, C>)
    requires w.pp.l > 2 && NetOk(net) && s.server && !c.server
    requires forall d: int, n: nat :: ExpandAt(w.pp, d, n)
    requires net.client.status == Running && net.client.pc < 8 && net.client.pc % 2 == 1
    requires Outgoing(w, c, net.client.pc / 2 + 1, net.client.inbox) == Value(m)
    ensures Step(w, s, c, net, false) == net.(client := net.client.(pc := net.client.pc + 1),
      toServer := net.toServer + [m])
  {
    hide Outgoing, Output;
  }

  lemma ClientReceives<G, C, I>(w: World<G, C, I>, s: Party<G, I>, c: Party<G, I>, net: Net<G, C, I>)
    requires w.pp.l > 2 && NetOk(net) && s.server && !c.server
    requires forall d: int, n: nat :: ExpandAt(w.pp, d, n)
    requires net.client.status == Running && net.client.pc < 8 && net.client.pc % 2 == 0 && net.toClient != []
    requires RightKind(net.toClient[0], net.client.pc / 2 + 1)
    requires Outgoing(w, c, net.client.pc / 2 + 1, net.client.inbox).Value?
    ensures Step(w, s, c, net, false)
         == net.(client := Local(net.client.pc + 1, net.client.inbox + [net.toClient[0]], Running),
           toClient := net.toClient[1..])
  {
    hide Outgoing, Output;
  }

  lemma ServerReceiveKeeps<G(!new), C, I(!new)>(w: World<G, C, I>, s: Party<G, I>, c: Party<G, I>, net: Net<G, C, I>)
    requires ValidWorld(w) && s.server && !c.server
    requires Fitting(w, s, c) && Fitting(w, c, s) && Invariant(w, s, c, net) && NetOk(net)
    requires net.server.status == Running && net.server.pc < 8 && net.server.pc % 2 == 1 && net.toServer != []
    ensures Invariant(w, s, c, Step(w, s, c, net, true))
  {
    hide Cong, IsPrime, IsGroup, Prepare, Outgoing, Output, Script, Expected, Step;
    hide Placed;
    ServerReceived(Script(w, s, c), Script(w, c, s), Expected(s, c), Expected(c, s), net);
    ServerReceives(w, s, c, net);
  }

  lemma ServerStepKeeps<G(!new), C, I(!new)>(w: World<G, C, I>, s: Party<G, I>, ks: int, cs: Coins, c: Party<G, I>,
                                             kc: int, cc: Coins, net: Net<G, C, I>)
    requires Paired(w, s, ks, cs, c, kc, cc) && s.server && !c.server
    requires Fitting(w, s, c) && Fitting(w, c, s) && Invariant(w, s, c, net) && NetOk(net)
    ensures Invariant(w, s, c, Step(w, s, c, net, true))
  {
    hide Cong, IsPrime, IsGroup, Prepare, Honest, Distinguishes, Recovers, Outgoing, Output, Script, Expected;
    var i, S, T := net.server.pc, Script(w, s, c), Script(w, c, s);
    if net.server.status == Running {
      if i == 8 {
        ScriptOutput(w, s, ks, cs, c, kc, cc);
        assert T[..4] == T;
      } else if i % 2 == 0 {
        ServerSendKeeps(w, s, ks, cs, c, kc, cc, net);
      } else if net.toServer != [] {
        ServerReceiveKeeps(w, s, c, net);
      }
    }
  }

  /** Before it reads, the client can compute its message of the round. */
  lemma ClientComputes<G(!new), C, I(!new)>(w: World<G, C, I>, s: Party<G, I>, ks: int, cs: Coins, c: Party<G, I>,
                                            kc: int, cc: Coins, net: Net<G, C, I>)
    requires Paired(w, s, ks, cs, c, kc, cc)
    requires Fitting(w, s, c) && Fitting(w, c, s) && Invariant(w, s, c, net) && NetOk(net)
    requires net.client.status == Running && net.client.pc < 8 && net.client.pc % 2 == 0
    ensures Outgoing(w, c, net.client.pc / 2 + 1, net.client.inbox).Value?
  {
    hide Cong, IsPrime, IsGroup, Prepare, Honest, Distinguishes, Recovers, Outgoing, Script, Expected;
    PairedSymmetric(w, s, ks, cs, c, kc, cc);
    ScriptIsFollowed(w, c, kc, cc, s, ks, cs, net.client.pc / 2 + 1);
  }

  lemma ClientReceiveKeeps<G(!new), C, I(!new)>(w: World<G, C, I>, s: Party<G, I>, c: Party<G, I>, net: Net<G, C, I>)
    requires ValidWorld(w) && s.server && !c.server
    requires Fitting(w, s, c) && Fitting(w, c, s) && Invariant(w, s, c, net) && NetOk(net)
    requires net.client.status == Running && net.client.pc < 8 && net.client.pc % 2 == 0 && net.toClient != []
    requires Outgoing(w, c, net.client.pc / 2 + 1, net.client.inbox).Value?
    ensures Invariant(w, s, c, Step(w, s, c, net, false))
  {
    hide Cong, IsPrime, IsGroup, Prepare, Outgoing, Output, Script, Expected, Step;
    hide Placed;
    ClientReceived(Script(w, s, c), Script(w, c, s), Expected(s, c), Expected(c, s), net);
    ClientReceives(w, s, c, net);
  }

  lemma ClientStepKeeps<G(!new), C, I(!new)>(w: World<G, C, I>, s: Party<G, I>, ks: int, cs: Coins, c: Party<G, I>,
                                             kc: int, cc: Coins, net: Net<G, C, I>)
    requires Paired(w, s, ks, cs, c, kc, cc) && s.server && !c.server
    requires Fitting(w, s, c) && Fitting(w, c, s) && Invariant(w, s, c, net) && NetOk(net)
    ensures Invariant(w, s, c, Step(w, s, c, net, false))
  {
    hide Cong, IsPrime, IsGroup, Prepare, Honest, Distinguishes, Recovers, Outgoing, Output, Script, Expected;
    PairedSymmetric(w, s, ks, cs, c, kc, cc);
    var j, S := net.client.pc, Script(w, s, c);
    if net.client.status == Running {
      if j == 8 {
        ScriptOutput(w, c, kc, cc, s, ks, cs);
        assert S[..4] == S;
      } else if j % 2 == 1 {
        ClientSendKeeps(w, s, ks, cs, c, kc, cc, net);
      } else {
        ClientComputes(w, s, ks, cs, c, kc, cc, net);
        if net.toClient != [] { ClientReceiveKeeps(w, s, c, net); }
      }
    }
  }

  lemma ClientSendKeeps<G(!new), C, I(!new)>(w: World<G, C, I>, s: Party<G, I>, ks: int, cs: Coins, c: Party<G, I>,
                                             kc: int, cc: Coins, net: Net<G, C, I>)
    requires Paired(w, s, ks, cs, c, kc, cc) && s.server && !c.server
    requires Fitting(w, s, c) && Fitting(w, c, s) && Invariant(w, s, c, net) && NetOk(net)
    requires net.client.status == Running && net.client.pc < 8 && net.client.pc % 2 == 1
    ensures Invariant(w, s, c, Step(w, s, c, net, false))
  {
    hide Cong, IsPrime, IsGroup, Prepare, Honest, Distinguishes, Recovers, Outgoing, Output, Script, Expected, Step;
    PairedSymmetric(w, s, ks, cs, c, kc, cc);
    var j, S, T := net.client.pc, Script(w, s, c), Script(w, c, s);
    ClientSent(S, T, Expected(s, c), Expected(c, s), net);
    ScriptIsFollowed(w, c, kc, cc, s, ks, cs, j / 2 + 1);
    EnoughInbox(w, c, S, j);
    ClientSends(w, s, c, net, T[j / 2]);
    hide Placed;
  }

  /** The client has already read its partner's message of the round when it sends; the
      message it sends does not depend on that last one. */
  lemma EnoughInbox<G, C, I>(w: World<G, C, I>, p: Party<G, I>, S: seq<Message<G, C>>, j: nat)
    requires w.pp.l > 2 && |S| == 4 && InboxOk(S) && j < 8 && j % 2 == 1
    requires forall d: int, n: nat :: ExpandAt(w.pp, d, n)
    ensures Outgoing(w, p, j / 2 + 1, S[..(j + 1) / 2]) == Outgoing(w, p, j / 2 + 1, S[..j / 2])
  {
    hide Respond3, Respond4, Sigma, Gen;
  }

  /** Safety of every run: under any schedule of any length, no check rejects and nobody
      crashes; a party that has returned has returned the other's set minus its own. */
  lemma {:induction false} EveryRunIsSafe<G(!new), C, I(!new)>(w: World<G, C, I>, s: Party<G, I>, ks: int, cs: Coins,
      c: Party<G, I>, kc: int, cc: Coins, schedule: seq<bool>)
    requires Paired(w, s, ks, cs, c, kc, cc) && s.server && !c.server
    ensures Fitting(w, s, c) && Fitting(w, c, s)
    ensures Invariant(w, s, c, Run(w, s, c, schedule))
    decreases |schedule|
  {
    hide Cong, IsPrime, IsGroup, Prepare, Honest, Distinguishes, Recovers, Script, Expected, Step;
    PairedSymmetric(w, s, ks, cs, c, kc, cc);
    if schedule != [] {
      var before := schedule[..|schedule| - 1];
      EveryRunIsSafe(w, s, ks, cs, c, kc, cc, before);
      if schedule[|schedule| - 1] {
        ServerStepKeeps(w, s, ks, cs, c, kc, cc, Run(w, s, c, before));
      } else {
        ClientStepKeeps(w, s, ks, cs, c, kc, cc, Run(w, s, c, before));
      }
    }
  }

  /** Moves made so far: at most eighteen. */
  function Moves<G, C, I>(net: Net<G, C, I>): nat {
    net.server.pc + net.client.pc + (if net.server.status.Running? then 0 else 1) + (if net.client.status.Running?
      then 0 else 1)
  }

  /** No deadlock: until both have returned, some party can make a move, and eighteen moves
      end the run. */
  lemma NeverBlocks<G(!new), C, I(!new)>(w: World<G, C, I>, s: Party<G, I>, ks: int, cs: Coins, c: Party<G, I>,
                                         kc: int, cc: Coins, net: Net<G, C, I>)
    requires Paired(w, s, ks, cs, c, kc, cc) && s.server && !c.server
    requires Fitting(w, s, c) && Fitting(w, c, s) && Invariant(w, s, c, net) && NetOk(net)
    ensures Moves(net) <= 18
    ensures Moves(net) == 18 <==>
      && net.server.status == Returned(Some(Expected(s, c)))
      && net.client.status == Returned(Some(Expected(c, s)))
    ensures Moves(net) < 18 ==> exists who :: Moves(Step(w, s, c, net, who)) == Moves(net) + 1
    ensures forall who :: Step(w, s, c, net, who) == net || Moves(Step(w, s, c, net, who)) == Moves(net) + 1
  {
    hide Cong, IsPrime, IsGroup, Prepare, Honest, Distinguishes, Recovers, Outgoing, Output, Script, Expected;
    ServerMoves(w, s, ks, cs, c, kc, cc, net);
    ClientMoves(w, s, ks, cs, c, kc, cc, net);
    assert Moves(net) < 18 ==> CanMove(net.server, net.toServer, true) || CanMove(net.client, net.toClient, false);
    assert CanMove(net.server, net.toServer, true) ==> Moves(Step(w, s, c, net, true)) == Moves(net) + 1;
    assert CanMove(net.client, net.toClient, false) ==> Moves(Step(w, s, c, net, false)) == Moves(net) + 1;
  }

  predicate CanMove<G, C, I>(x: Local<G, C, I>, queue: seq<Message<G, C>>, server: bool) {
    x.status.Running? && (x.pc == 8 || (x.pc % 2 == 0) == server || queue != [])
  }

  lemma ServerMoves<G(!new), C, I(!new)>(w: World<G, C, I>, s: Party<G, I>, ks: int, cs: Coins, c: Party<G, I>,
                                         kc: int, cc: Coins, net: Net<G, C, I>)
    requires Paired(w, s, ks, cs, c, kc, cc) && s.server && !c.server
    requires Fitting(w, s, c) && Fitting(w, c, s) && Invariant(w, s, c, net) && NetOk(net)
    ensures var n := Step(w, s, c, net, true);
      if CanMove(net.server, net.toServer, true) then Moves(n) == Moves(net) + 1 else n == net
  {
    hide Cong, IsPrime, IsGroup, Prepare, Honest, Distinguishes, Recovers, Outgoing, Output, Script, Expected;
    var i, T := net.server.pc, Script(w, c, s);
    if net.server.status == Running {
      if i == 8 {
        ScriptOutput(w, s, ks, cs, c, kc, cc);
        assert T[..4] == T;
      } else if i % 2 == 0 {
        ScriptIsFollowed(w, s, ks, cs, c, kc, cc, i / 2 + 1);
        ServerSends(w, s, c, net, Script(w, s, c)[i / 2]);
      } else if net.toServer != [] {
        assert net.toServer[0] == T[i / 2];
        ServerReceives(w, s, c, net);
      }
    }
  }

  lemma ClientMoves<G(!new), C, I(!new)>(w: World<G, C, I>, s: Party<G, I>, ks: int, cs: Coins, c: Party<G, I>,
                                         kc: int, cc: Coins, net: Net<G, C, I>)
    requires Paired(w, s, ks, cs, c, kc, cc) && s.server && !c.server
    requires Fitting(w, s, c) && Fitting(w, c, s) && Invariant(w, s, c, net) && NetOk(net)
    ensures var n := Step(w, s, c, net, false);
      if CanMove(net.client, net.toClient, false) then Moves(n) == Moves(net) + 1 else n == net
  {
    hide Cong, IsPrime, IsGroup, Prepare, Honest, Distinguishes, Recovers, Outgoing, Output, Script, Expected;
    PairedSymmetric(w, s, ks, cs, c, kc, cc);
    var j, S := net.client.pc, Script(w, s, c);
    if net.client.status == Running {
      if j == 8 {
        ScriptOutput(w, c, kc, cc, s, ks, cs);
        assert S[..4] == S;
      } else if j % 2 == 1 {
        ScriptIsFollowed(w, c, kc, cc, s, ks, cs, j / 2 + 1);
        EnoughInbox(w, c, S, j);
        ClientSends(w, s, c, net, Script(w, c, s)[j / 2]);
      } else {
        ClientComputes(w, s, ks, cs, c, kc, cc, net);
        if net.toClient != [] {
          assert net.toClient[0] == S[j / 2];
          ClientReceives(w, s, c, net);
        }
      }
    }
  }

  /** Under every schedule: nobody crashes or rejects, whoever has returned has returned the
      other's items minus its own, and until both have returned some party can move. */
  ghost predicate CorrectNet<G(!new), C, I(!new)>(w: World<G, C, I>, s: Party<G, I>, c: Party<G, I>, net: Net<G, C, I>)
    requires w.pp.l > 2 && NetOk(net) && s.server && !c.server
    requires forall d: int, n: nat :: ExpandAt(w.pp, d, n)
  {
    && !net.server.status.Crashed? && !net.client.status.Crashed?
    && (net.server.status.Returned? ==>
      && net.server.status.result.Some?
      && multiset(net.server.status.result.value) == multiset(Without(c.input, s.input)))
    && (net.client.status.Returned? ==>
      && net.client.status.result.Some?
      && multiset(net.client.status.result.value) == multiset(Without(s.input, c.input)))
    && Moves(net) <= 18
    && (net.server.status.Running? || net.client.status.Running?
      ==> exists who :: Moves(Step(w, s, c, net, who)) == Moves(net) + 1)
  }

  lemma EveryRunIsCorrect<G(!new), C, I(!new)>(w: World<G, C, I>, s: Party<G, I>, ks: int, cs: Coins, c: Party<G, I>,
                                               kc: int, cc: Coins, schedule: seq<bool>)
    requires Paired(w, s, ks, cs, c, kc, cc) && s.server && !c.server
    ensures CorrectNet(w, s, c, Run(w, s, c, schedule))
  {
    hide Cong, IsPrime, IsGroup, Prepare, Honest, Distinguishes, Recovers, Step, Run, Script, Expected, Without;
    EveryRunIsSafe(w, s, ks, cs, c, kc, cc, schedule);
    NeverBlocks(w, s, ks, cs, c, kc, cc, Run(w, s, c, schedule));
    SameSize(w, s, ks, cs);
    SameSize(w, c, kc, cc);
    ExpectedIsDifference(w, s, ks, cs, c);
    ExpectedIsDifference(w, c, kc, cc, s);
  }
}
