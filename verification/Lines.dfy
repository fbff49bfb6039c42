/** The two encodings the one-sided protocols use: Montgomery coordinates multiplied by the
    ladder, which forget the sign, and compressed Edwards points, which do not. */
module Lines {
  import opened Arith
  import opened Powers
  import opened Groups
  import opened EdwardsCodec
  import opened Folds
  import opened Feistel
  import opened Clamping
  import Ladder
  import opened OneSided

  // ---------- the Montgomery line ----------

  /** Points travel as their u-coordinate and are multiplied by the ladder. */
  ghost predicate UsesLadder<G(!new), I>(c: Ladder.Mont<G>, w: Line<G, int, I>)
    requires c.f.p > 0
  {
    && w.g == c.g
    && (forall P :: w.wire(P) == Ladder.Wire(c, P))
    && (forall n: nat, u :: w.mul(n, u) == Ladder.MulU(c.f, c.a24, u, n))
  }

  lemma LadderMultiplies<G(!new), I>(c: Ladder.Mont<G>, w: Line<G, int, I>, n: int, P: G)
    requires Ladder.IsMontgomery(c) && c.f.p > 0 && UsesLadder(c, w)
    ensures MulAt(w, n, P)
  {
    if 0 <= n < P2(255) {
      var u := w.wire(P);
      assert u == Ladder.Wire(c, P) && w.mul(n, u) == Ladder.MulU(c.f, c.a24, u, n);
      CanonicalCong(c.f.p, Ladder.U0(c, P));
      hide P2, Ladder.MulU, Ladder.IsMontgomery, Cong;
      Ladder.MulUIsCorrect(c, P, u, n);
    }
  }

  /** Montgomery coordinates with the ladder meet the protocol's requirements, without signs. */
  lemma MontgomeryIsLine<G(!new), I>(c: Ladder.Mont<G>, w: Line<G, int, I>)
    requires Ladder.IsMontgomery(c) && c.f.p > 0 && UsesLadder(c, w)
    requires IsPrime(w.l) && 8 < w.l <= P2(255) && forall P :: ExponentAt(w, P)
    ensures ValidLine(w, false)
  {
    assert w.l % 2 == 1 by { assert !Divides(2, w.l); }
    assert IsGroup(w.g);
    forall n, P ensures MulAt(w, n, P) {
      LadderMultiplies(c, w, n, P);
    }
    hide IsPrime, Canonical, MulAt, IsGroup;
    forall P ensures SignAt(w, false, P) {
      Ladder.WireOfOpposite(c, P);
    }
    forall P, Q ensures SeparatedAt(w, P, Q) {
      if Smul(w.g, w.l, P) == w.g.zero && Smul(w.g, w.l, Q) == w.g.zero && w.wire(P) == w.wire(Q) {
        Ladder.WireSeparates(c, w.l, P, Q);
      }
    }
    assert forall P, Q :: FaithfulAt(w, false, P, Q);
  }

  // ---------- compressed Edwards points ----------

  /** Points travel compressed and are decompressed, multiplied and compressed again. */
  ghost predicate UsesCompression<G(!new), I>(k: Curve, e: Mapping.EdwardsGroup<G>, w: Line<G, int, I>)
    requires k.f.p > 0
  {
    && w.g == e.g
    && (forall P :: w.wire(P) == Mapping.EncodePoint(k, e, P))
    && (forall n, c :: Mapping.DecodePoint(k, e, c).Some? ==>
      w.mul(n, c) == Mapping.EncodePoint(k, e, Smul(e.g, n, Mapping.DecodePoint(k, e, c).value)))
  }

  /** Compressed points meet the protocol's requirements, with signs. */
  lemma CompressedIsLine<G(!new), I>(k: Curve, e: Mapping.EdwardsGroup<G>, w: Line<G, int, I>)
    requires ValidCurve(k) && k.f.p > 0 && Mapping.IsEdwardsGroup(k, e) && UsesCompression(k, e, w)
    requires IsPrime(w.l) && 8 < w.l <= P2(255) && forall P :: ExponentAt(w, P)
    ensures ValidLine(w, true)
  {
    assert IsGroup(w.g);
    hide IsPrime, IsGroup, Mapping.EncodePoint, Mapping.DecodePoint, ValidCurve, P2, Mapping.IsEdwardsGroup;
    forall n, P ensures MulAt(w, n, P) {
      Mapping.DecodeEncodePoint(k, e, P);
      assert w.wire(P) == Mapping.EncodePoint(k, e, P);
    }
    forall P, Q ensures FaithfulAt(w, true, P, Q) && SeparatedAt(w, P, Q) {
      Mapping.DecodeEncodePoint(k, e, P);
      Mapping.DecodeEncodePoint(k, e, Q);
    }
    assert forall P :: SignAt(w, true, P);
  }

  // ---------- keys ----------

  /** A sender and a receiver made from any random key bytes and any permutation are set up as
      the protocol needs, for an order above 2^252. */
  lemma KeysAreSetUp<I>(l: int, items: seq<I>, raw: Block, pi: seq<nat>, items': seq<I>, raw': Block)
    returns (k: int, m: int)
    requires |raw| == |raw'| == 32 && |pi| == |items'| && IsPermutation(pi) && l > 16 * Pow(256, 31)
    ensures l > 2 && SetUp(l,
      Sender(items, Mapping.LeValue(ClampInteger(raw)), SecretScalar(l, Mapping.LeValue(ClampInteger(raw))), pi), k,
      Receiver(items', Mapping.LeValue(ClampInteger(raw')), SecretScalar(l, Mapping.LeValue(ClampInteger(raw')))), m)
  {
    hide SecretScalar, ClampInteger, P2, IsPermutation, Mapping.LeValue;
    ByteWeight(31);
    ClampedKey(raw);
    ClampedKey(raw');
    ClampedBelow255(raw);
    ClampedBelow255(raw');
    k, m := Mapping.LeValue(ClampInteger(raw)) / 8, Mapping.LeValue(ClampInteger(raw')) / 8;
    hide Pow;
  }
}
