/** The one-sided protocol against a malicious sender (src/onesided.rs): every unmatched item
    comes with a proof that its blinded point was made with the sender's key, transferred
    obliviously beside the item. */
module OneSidedMalicious {
  import opened Wrappers
  import opened Arith
  import opened Powers
  import opened Groups
  import opened ShuffleArgument
  import opened Cofactor
  import opened BatchSoundness
  import opened TwoSidedProof
  import opened OneSided

  // ---------- one item's proof ----------

  const HalfWord: int := 0x1_0000_0000_0000_0000_0000_0000_0000_0000

  /** The hash of three encodings as a 256-bit number, and its low 128 bits. */
  function Truncate(h: int): int {
    h % HalfWord
  }

  datatype ItemProof = ItemProof(c: int, z0: int, z1: int)

  /** z = r - c k, sent as two halves beside the truncated challenge. */
  function ProveItem<G, C>(pp: Params<G, C>, digest: (C, C, C) -> int, P: G, y: C, sk8: int, r8: int): ItemProof
    requires pp.l > 2
  {
    var c := Truncate(digest(pp.enc(P), y, pp.enc(Smul(pp.g, r8, P))));
    var z := Canonical(pp.l, SecretScalar(pp.l, r8) - c * SecretScalar(pp.l, sk8));
    ItemProof(c, z % HalfWord, z / HalfWord)
  }

  /** The receiver's recomputation; None where decoding fails. */
  function Recompute<G, C>(pp: Params<G, C>, digest: (C, C, C) -> int, P: G, y: C, proof: ItemProof): Option<int>
    requires pp.l > 2
  {
    match pp.dec(y)
    case None => None
    case Some(h) =>
      Some(Truncate(digest(pp.enc(P), y, pp.enc(Rebuilt(pp, P, h, proof)))))
  }

  /** The commitment as the receiver rebuilds it: z (8P) + c h. */
  function Rebuilt<G, C>(pp: Params<G, C>, P: G, h: G, proof: ItemProof): G
    requires pp.l > 2
  {
    ActMsm(pp, [proof.z0 + HalfWord * proof.z1, proof.c], [Smul(pp.g, 8, P), h])
  }

  lemma HalvesRejoin(z: int)
    ensures z % HalfWord + HalfWord * (z / HalfWord) == z
  {
  }

  /** z (8P) + c (8k P) = 8r P when z = r - c k modulo the order of 8P. */
  lemma ResponseCancels<G(!new)>(g: Group<G>, l: int, P: G, z: int, c: int, k: int, r: int)
    requires IsGroup(g) && Smul(g, l, Smul(g, 8, P)) == g.zero && Cong(l, z, r - c * k)
    ensures g.add(Smul(g, z, Smul(g, 8, P)), Smul(g, c, Smul(g, 8 * k, P))) == Smul(g, 8 * r, P)
  {
    hide Cong, IsGroup, Smul;
    var E := Smul(g, 8, P);
    SmulMul(g, k, 8, P);
    SmulMul(g, r, 8, P);
    assert k * 8 == 8 * k && r * 8 == 8 * r;
    SmulCong(g, l, z, r - c * k, E);
    SmulMul(g, c, k, E);
    SmulAdd(g, r - c * k, c * k, E);
  }

  lemma TwoTerms<G(!new), C>(pp: Params<G, C>, a: int, b: int, P: G, Q: G)
    requires ValidParams(pp) && Smul(pp.g, pp.l, P) == pp.g.zero && Smul(pp.g, pp.l, Q) == pp.g.zero
    ensures ActMsm(pp, [a, b], [P, Q]) == pp.g.add(Smul(pp.g, a, P), Smul(pp.g, b, Q))
  {
    var g, ks, Ps := pp.g, CanonVec(pp.l, [a, b]), [P, Q];
    CanonicalCong(pp.l, a);
    CanonicalCong(pp.l, b);
    assert ks[1..] == [ks[1]] && Ps[1..] == [Q];
    hide Cong, IsPrime, IsGroup, Canonical;
    SmulCong(g, pp.l, ks[0], a, P);
    SmulCong(g, pp.l, ks[1], b, Q);
    assert Msm(g, [ks[1]], [Q]) == g.add(Smul(g, ks[1], Q), Msm(g, [], []));
    Unit(g, Smul(g, b, Q));
  }

  /** The commitment is rebuilt from the response and the challenge. */
  lemma CommitmentIsRebuilt<G(!new), C>(pp: Params<G, C>, P: G, k: int, rho: int, c: int, z: int)
    requires ValidParams(pp) && pp.l > 8 && Smul(pp.g, 8 * pp.l, P) == pp.g.zero
    requires z == Canonical(pp.l, SecretScalar(pp.l, 8 * rho) - c * SecretScalar(pp.l, 8 * k))
    ensures ActMsm(pp, [z, c], [Smul(pp.g, 8, P), Smul(pp.g, 8 * k, P)]) == Smul(pp.g, 8 * rho, P)
  {
    hide Cong, IsPrime, IsGroup, Canonical, SecretScalar, CodecAt, ExpandAt, ActMsm, Smul;
    var g, l := pp.g, pp.l;
    var H, E := Smul(g, 8 * k, P), Smul(g, 8, P);
    SecretScalarIsKey(l, k);
    SecretScalarIsKey(l, rho);
    var sk, r := SecretScalar(l, 8 * k), SecretScalar(l, 8 * rho);
    CanonicalCong(l, r - c * sk);
    CongBy2(l, r - c * sk, rho - c * k, r, rho, 1, sk, k, -c);
    CongTrans(l, z, r - c * sk, rho - c * k);
    assert Smul(g, l, E) == g.zero by { SmulMul(g, l, 8, P); assert l * 8 == 8 * l; }
    assert Smul(g, l, H) == g.zero by { SmulMul(g, k, 8, P); assert k * 8 == 8 * k; SmulOrder(g, l, k, E); }
    TwoTerms(pp, z, c, E, H);
    ResponseCancels(g, l, P, z, c, k, rho);
  }

  /** For every unmatched item the recomputed challenge is the truncated one that was sent. */
  lemma ChallengeIsRecomputed<G(!new), C>(pp: Params<G, C>, digest: (C, C, C) -> int, P: G, k: int, rho: int)
    requires ValidParams(pp) && pp.l > 8 && Smul(pp.g, 8 * pp.l, P) == pp.g.zero
    ensures var y := pp.enc(Smul(pp.g, 8 * k, P)); var proof := ProveItem(pp, digest, P, y, 8 * k, 8 * rho);
      Recompute(pp, digest, P, y, proof) == Some(proof.c)
  {
    var H := Smul(pp.g, 8 * k, P);
    var proof := ProveItem(pp, digest, P, pp.enc(H), 8 * k, 8 * rho);
    assert CodecAt(pp, H);
    hide Cong, IsPrime, IsGroup, Canonical, SecretScalar, HalfWord, ActMsm, Smul, ExpandAt, ValidParams, Recompute,
      Truncate;
    var z := Canonical(pp.l, SecretScalar(pp.l, 8 * rho) - proof.c * SecretScalar(pp.l, 8 * k));
    HalvesRejoin(z);
    CommitmentIsRebuilt(pp, P, k, rho, proof.c, z);
    assert proof.z0 + HalfWord * proof.z1 == z;
    RecomputeUnfolds(pp, digest, P, pp.enc(H), proof, H, z);
  }

  lemma RecomputeUnfolds<G, C>(pp: Params<G, C>, digest: (C, C, C) -> int, P: G, y: C, proof: ItemProof, H: G, z: int)
    requires pp.l > 2 && pp.dec(y) == Some(H) && proof.z0 + HalfWord * proof.z1 == z
    ensures Recompute(pp, digest, P, y, proof)
         == Some(Truncate(digest(pp.enc(P), y, pp.enc(ActMsm(pp, [z, proof.c], [Smul(pp.g, 8, P), H])))))
  {
    hide ActMsm, Smul, HalfWord;
  }

  /** What a proof is: the challenge is the low 128 bits of the digest of the hashed item, the
      blinded item and the commitment [r8] P, and the two halves are those of the number below
      l that is r - c k modulo l, where 8 r and 8 k are the clamped nonce and key. */
  lemma ItemProofIs<G(!new), C>(pp: Params<G, C>, digest: (C, C, C) -> int, P: G, y: C, k: int, r: int)
    requires ValidParams(pp) && pp.l > 8
    ensures var proof := ProveItem(pp, digest, P, y, 8 * k, 8 * r);
      var z := proof.z0 + 340282366920938463463374607431768211456 * proof.z1;
      && 0 <= proof.c < 340282366920938463463374607431768211456
      && Cong(340282366920938463463374607431768211456, proof.c, digest(pp.enc(P), y, pp.enc(Smul(pp.g, 8 * r, P))))
      && 0 <= proof.z0 < 340282366920938463463374607431768211456
      && 0 <= z < pp.l && Cong(pp.l, z, r - proof.c * k)
  {
    hide Cong, IsPrime, IsGroup, Canonical, SecretScalar, CodecAt, ExpandAt, Smul;
    var proof := ProveItem(pp, digest, P, y, 8 * k, 8 * r);
    var h := digest(pp.enc(P), y, pp.enc(Smul(pp.g, 8 * r, P)));
    assert proof.c - h == -(h / HalfWord) * HalfWord;
    CongIntro(HalfWord, proof.c, h, -(h / HalfWord));
    var sk, s := SecretScalar(pp.l, 8 * k), SecretScalar(pp.l, 8 * r);
    SecretScalarIsKey(pp.l, k);
    SecretScalarIsKey(pp.l, r);
    CanonicalCong(pp.l, s - proof.c * sk);
    var z := Canonical(pp.l, s - proof.c * sk);
    HalvesRejoin(z);
    CongSym(pp.l, z, s - proof.c * sk);
    CongBy2(pp.l, s - proof.c * sk, r - proof.c * k, s, r, 1, sk, k, -proof.c);
    CongTrans(pp.l, z, s - proof.c * sk, r - proof.c * k);
  }

  /** What checking a proof tests: the point decodes, and the challenge is the low 128 bits of
      the digest of the hashed item, the blinded item and z (8 P) + c h. */
  lemma MatchMeans<G(!new), C, I>(pp: Params<G, C>, digest: (C, C, C) -> int, w: Line<G, C, I>, item: I, y: C,
                                  c: int, z0: int, z1: int)
    requires ValidParams(pp) && CofactorAt(pp, w.hash(item)) && 0 <= c < pp.l
    ensures Matches(pp, digest, w, item, y, c, z0, z1) <==>
      && pp.dec(y).Some?
      && (var z, E := z0 + 340282366920938463463374607431768211456 * z1, Smul(pp.g, 8, w.hash(item));
          var R := pp.g.add(Smul(pp.g, z, E), Smul(pp.g, c, pp.dec(y).value));
          c == digest(pp.enc(w.hash(item)), y, pp.enc(R)) % 340282366920938463463374607431768211456)
  {
    hide Cong, IsPrime, IsGroup, Canonical, CodecAt, ExpandAt, Smul;
    if pp.dec(y).Some? {
      var z, E, h := z0 + HalfWord * z1, Smul(pp.g, 8, w.hash(item)), pp.dec(y).value;
      assert Smul(pp.g, pp.l, E) == pp.g.zero by { SmulMul(pp.g, pp.l, 8, w.hash(item)); assert pp.l * 8 == 8 * pp.l; }
      ReducedTerms(pp, z, c, E, h);
    }
  }

  lemma ReducedTerms<G(!new), C>(pp: Params<G, C>, z: int, c: int, E: G, h: G)
    requires ValidParams(pp) && Smul(pp.g, pp.l, E) == pp.g.zero && 0 <= c < pp.l
    ensures ActMsm(pp, [z, c], [E, h]) == pp.g.add(Smul(pp.g, z, E), Smul(pp.g, c, h))
  {
    var g, ks, Ps := pp.g, CanonVec(pp.l, [z, c]), [E, h];
    CanonicalCong(pp.l, z);
    assert ks[1] == c;
    assert ks[1..] == [c] && Ps[1..] == [h];
    hide Cong, IsPrime, IsGroup, Canonical;
    SmulCong(g, pp.l, ks[0], z, E);
    assert Msm(g, [c], [h]) == g.add(Smul(g, c, h), Msm(g, [], []));
    Unit(g, Smul(g, c, h));
  }

  // ---------- the run ----------

  /** The encoding of the protocol is the compression of the parameters: points are
      decompressed, multiplied and compressed again. */
  ghost predicate Compresses<G(!new), C(!new), I>(pp: Params<G, C>, w: Line<G, C, I>) {
    && w.g == pp.g && w.l == pp.l
    && (forall P :: w.wire(P) == pp.enc(P))
    && (forall n, c :: pp.dec(c).Some? ==> w.mul(n, c) == pp.enc(Smul(pp.g, n, pp.dec(c).value)))
  }

  lemma CompressionIsLine<G(!new), C(!new), I>(pp: Params<G, C>, w: Line<G, C, I>)
    requires ValidParams(pp) && 8 < pp.l <= P2(255) && Compresses(pp, w) && forall P :: ExponentAt(w, P)
    ensures ValidLine(w, true)
  {
    hide IsPrime, IsGroup, P2, Smul, ExpandAt, AllOrder;
    forall n, P ensures MulAt(w, n, P) {
      assert CodecAt(pp, P) && w.wire(P) == pp.enc(P);
    }
    forall P, Q ensures FaithfulAt(w, true, P, Q) && SeparatedAt(w, P, Q) {
      assert CodecAt(pp, P) && CodecAt(pp, Q);
    }
    assert forall P :: SignAt(w, true, P);
  }

  /** The sender's loop: one proof per item. */
  method ProveLoop<G, C, I>(pp: Params<G, C>, digest: (C, C, C) -> int, w: Line<G, C, I>, input: seq<I>,
                            points: seq<C>, sk8: int, r8s: seq<int>)
    returns (c: seq<int>, z0: seq<int>, z1: seq<int>)
    requires pp.l > 2 && |input| == |points| == |r8s|
    ensures |c| == |z0| == |z1| == |input|
    ensures forall i :: 0 <= i < |input| ==>
      ItemProof(c[i], z0[i], z1[i]) == ProveItem(pp, digest, w.hash(input[i]), points[i], sk8, r8s[i])
  {
    hide ProveItem;
    c, z0, z1 := [], [], [];
    for i := 0 to |input|
      invariant |c| == |z0| == |z1| == i
      invariant forall j :: 0 <= j < i ==>
        ItemProof(c[j], z0[j], z1[j]) == ProveItem(pp, digest, w.hash(input[j]), points[j], sk8, r8s[j])
    {
      var proof := ProveItem(pp, digest, w.hash(input[i]), points[i], sk8, r8s[i]);
      c, z0, z1 := c + [proof.c], z0 + [proof.z0], z1 + [proof.z1];
    }
  }

  /** The item, point and proof at one position recompute to the challenge received. */
  ghost predicate Matches<G, C, I>(pp: Params<G, C>, digest: (C, C, C) -> int, w: Line<G, C, I>, item: I, y: C,
                                   c: int, z0: int, z1: int)
    requires pp.l > 2
  {
    Recompute(pp, digest, w.hash(item), y, ItemProof(c, z0, z1)) == Some(c)
  }

  /** Special soundness of an item's proof, against any sender: two matching responses with the
      same rebuilt commitment and different challenges give s with 8 y = 8 s (8 P), so the
      point is the item's hash under one scalar, up to points of order dividing 8. */
  lemma ItemSpecialSoundness<G(!new), C, I>(pp: Params<G, C>, digest: (C, C, C) -> int, digest': (C, C, C) -> int,
                                            w: Line<G, C, I>,
                                            item: I, y: C, p: ItemProof, p': ItemProof) returns (s: int)
    requires ValidParams(pp) && pp.dec(y).Some? && CofactorAt(pp, pp.dec(y).value) && CofactorAt(pp, w.hash(item))
    requires Matches(pp, digest, w, item, y, p.c, p.z0, p.z1) && Matches(pp, digest', w, item, y, p'.c, p'.z0, p'.z1)
    requires Rebuilt(pp, w.hash(item), pp.dec(y).value, p) == Rebuilt(pp, w.hash(item), pp.dec(y).value, p')
    requires !Cong(pp.l, p.c, p'.c)
    ensures Clear(pp.g, pp.dec(y).value) == Smul(pp.g, s, Clear(pp.g, Smul(pp.g, 8, w.hash(item))))
  {
    hide Cong, IsPrime, IsGroup, ActMsm, Smul, HalfWord, Clear, Matches, Rebuilt;
    var g, H, E := pp.g, pp.dec(y).value, Smul(pp.g, 8, w.hash(item));
    var z, z' := p.z0 + HalfWord * p.z1, p'.z0 + HalfWord * p'.z1;
    assert CofactorAt(pp, E) by { SmulComm(g, 8 * pp.l, 8, w.hash(item)); SmulZero(g, 8); }
    ClearedTerms(pp, z, p.c, E, H);
    ClearedTerms(pp, z', p'.c, E, H);
    assert Rebuilt(pp, w.hash(item), H, p) == ActMsm(pp, [z, p.c], [E, H]) by { RebuiltIs(pp, w.hash(item), H, p); }
    assert Rebuilt(pp, w.hash(item), H, p') == ActMsm(pp, [z', p'.c], [E, H]) by { RebuiltIs(pp, w.hash(item), H, p'); }
    SwapSides(g, z, z', p.c, p'.c, Clear(g, E), Clear(g, H));
    if Cong(pp.l, p.c - p'.c, 0) { CongBy(pp.l, p.c, p'.c, p.c - p'.c, 0, 1); }
    ClearOrder(pp, H);
    s := DivideMultiple(g, pp.l, p.c - p'.c, Clear(g, H), z' - z, Clear(g, E));
  }

  lemma RebuiltIs<G, C>(pp: Params<G, C>, P: G, h: G, p: ItemProof)
    requires pp.l > 2
    ensures Rebuilt(pp, P, h, p) == ActMsm(pp, [p.z0 + HalfWord * p.z1, p.c], [Smul(pp.g, 8, P), h])
  {
    hide ActMsm, Smul, HalfWord;
  }

  lemma ClearedTerms<G(!new), C>(pp: Params<G, C>, a: int, b: int, P: G, Q: G)
    requires ValidParams(pp) && CofactorAt(pp, P) && CofactorAt(pp, Q)
    ensures Clear(pp.g, ActMsm(pp, [a, b], [P, Q]))
         == pp.g.add(Smul(pp.g, a, Clear(pp.g, P)), Smul(pp.g, b, Clear(pp.g, Q)))
  {
    hide Cong, IsPrime, IsGroup, Canonical, Smul, Msm, Clear;
    ClearMsm(pp.g, CanonVec(pp.l, [a, b]), [P, Q]);
    assert ClearAll(pp.g, [P, Q]) == [Clear(pp.g, P), Clear(pp.g, Q)];
    ClearOrder(pp, P);
    ClearOrder(pp, Q);
    TwoTerms(pp, a, b, Clear(pp.g, P), Clear(pp.g, Q));
  }

  /** z E + c H = z' E + c' H means (c - c') H = (z' - z) E. */
  lemma SwapSides<G(!new)>(g: Group<G>, z: int, z': int, c: int, c': int, E: G, H: G)
    requires IsGroup(g)
    requires g.add(Smul(g, z, E), Smul(g, c, H)) == g.add(Smul(g, z', E), Smul(g, c', H))
    ensures Smul(g, c - c', H) == Smul(g, z' - z, E)
  {
    hide IsGroup, Smul;
    SmulAdd(g, z, z' - z, E);
    SmulAdd(g, c - c', c', H);
    Assoc(g, Smul(g, z, E), Smul(g, z' - z, E), Smul(g, c', H));
    CancelAdd(g, Smul(g, z, E), Smul(g, c, H), g.add(Smul(g, z' - z, E), Smul(g, c', H)));
    Comm(g, Smul(g, c - c', H), Smul(g, c', H));
    Comm(g, Smul(g, z' - z, E), Smul(g, c', H));
    CancelAdd(g, Smul(g, c', H), Smul(g, c - c', H), Smul(g, z' - z, E));
  }

  /** The receiver's loop over the unmarked positions. */
  method CheckLoop<G, C, I>(pp: Params<G, C>, digest: (C, C, C) -> int, w: Line<G, C, I>, indicator: seq<bool>,
                            items: seq<I>, points: seq<C>, c: seq<int>, z0: seq<int>, z1: seq<int>) returns (ok: bool)
    requires pp.l > 2 && |indicator| == |items| == |points| == |c| == |z0| == |z1|
    ensures ok <==> forall i :: 0 <= i < |items| && !indicator[i] ==>
      Matches(pp, digest, w, items[i], points[i], c[i], z0[i], z1[i])
  {
    hide Recompute;
    ok := true;
    for i := 0 to |items|
      invariant ok <==> forall j :: 0 <= j < i && !indicator[j] ==>
        Matches(pp, digest, w, items[j], points[j], c[j], z0[j], z1[j])
    {
      if !indicator[i] {
        var h := Recompute(pp, digest, w.hash(items[i]), points[i], ItemProof(c[i], z0[i], z1[i]));
        ok := ok && h == Some(c[i]);
      }
    }
  }

  function WithZeros(s: seq<int>): (r: seq<(int, int)>)
    ensures |r| == |s| && forall i :: 0 <= i < |s| ==> r[i] == (s[i], 0)
  {
    seq(|s|, i requires 0 <= i < |s| => (s[i], 0))
  }

  /** Nonces as the sender draws them: clamped integers 8 rho. */
  ghost predicate ClampedNonces(r8s: seq<int>) {
    forall i :: 0 <= i < |r8s| ==> r8s[i] % 8 == 0
  }

  /** At an unmarked position everything the receiver obtained checks out. */
  lemma HonestPosition<G(!new), C(!new), I>(pp: Params<G, C>, digest: (C, C, C) -> int, w: Line<G, C, I>, x: I,
                                            k: int, r8: int, proof: ItemProof)
    requires ValidParams(pp) && 8 < pp.l <= P2(255) && Compresses(pp, w) && ValidLine(w, true)
    requires 0 <= 8 * k < P2(255) && r8 % 8 == 0
    requires proof == ProveItem(pp, digest, w.hash(x), w.mul(8 * k, w.wire(w.hash(x))), 8 * k, r8)
    ensures Matches(pp, digest, w, x, w.mul(8 * k, w.wire(w.hash(x))), proof.c, proof.z0, proof.z1)
  {
    var P := w.hash(x);
    assert ExponentAt(w, P) && MulAt(w, 8 * k, P) && w.wire(Smul(w.g, 8 * k, P)) == pp.enc(Smul(pp.g, 8 * k, P));
    hide Compresses, ValidLine, ValidParams, ProveItem, Recompute, P2, Smul;
    assert r8 == 8 * (r8 / 8);
    ChallengeIsRecomputed(pp, digest, P, k, r8 / 8);
  }

  /** A complete run against an honest sender: the marks say which items are common, every
      recomputed challenge equals the one received, and the receiver ends with the union. */
  method RunWithProofs<G(!new), C(!new, ==), I(!new, ==)>(pp: Params<G, C>, digest: (C, C, C) -> int, w: Line<G, C, I>,
                                                         s: Sender<I>, r: Receiver<I>, r8s: seq<int>, dummies: seq<I>,
                                                           ghost k: int, ghost m: int)
    returns (sent: Traffic<C>, indicator: seq<bool>, ok: bool, obtained: seq<I>)
    requires ValidParams(pp) && 8 < pp.l <= P2(255) && Compresses(pp, w) && forall P :: ExponentAt(w, P)
    requires SetUp(pp.l, s, k, r, m) && TellsApart(w, true, s.input, r.input)
    requires |r8s| == |dummies| == |s.input| && ClampedNonces(r8s)
    ensures IsTraffic(w, s, r, sent)
    ensures |indicator| == |s.input| && forall i :: 0 <= i < |s.input| ==> (indicator[i] <==> s.input[i] in r.input)
    ensures ok
    ensures obtained == Without(s.input, r.input)
    ensures forall x :: x in r.input + obtained <==> x in r.input || x in s.input
  {
    CompressionIsLine(pp, w);
    hide ValidParams, ValidLine, Compresses, TellsApart, SetUp, P2, ProveItem, ClampedNonces, Matches,
      IsTraffic;
    assert s.sk8 == 8 * k && 0 <= 8 * k < P2(255) by { SenderKey(pp.l, s, k, r, m); }
    sent, indicator, obtained := RunUnion(w, true, s, r, dummies, k, m);
    var points, _ := GenLoop(w, s.input, s.sk8);
    assert pp.l > 2 by { OrderIsLarge(pp); }
    var c, z0, z1 := ProveLoop(pp, digest, w, s.input, points, s.sk8, r8s);
    var items := Transfer(Pairs(s.input, dummies), indicator);
    var c', z0', z1' := Transfer(WithZeros(c), indicator), Transfer(WithZeros(z0), indicator),
      Transfer(WithZeros(z1), indicator);
    forall i | 0 <= i < |items| && !indicator[i]
      ensures Matches(pp, digest, w, items[i], points[i], c'[i], z0'[i], z1'[i])
    {
      assert r8s[i] % 8 == 0 by { NonceIsClamped(r8s, i); }
      HonestPosition(pp, digest, w, s.input[i], k, r8s[i], ItemProof(c[i], z0[i], z1[i]));
    }
    ok := CheckLoop(pp, digest, w, indicator, items, points, c', z0', z1');
  }

  lemma SenderKey<I>(l: int, s: Sender<I>, k: int, r: Receiver<I>, m: int)
    requires SetUp(l, s, k, r, m)
    ensures s.sk8 == 8 * k && 0 <= 8 * k < P2(255)
  {
  }

  lemma OrderIsLarge<G(!new), C>(pp: Params<G, C>)
    requires ValidParams(pp)
    ensures pp.l > 2
  {
  }

  lemma NonceIsClamped(r8s: seq<int>, i: nat)
    requires ClampedNonces(r8s) && i < |r8s|
    ensures r8s[i] % 8 == 0
  {
  }
}
