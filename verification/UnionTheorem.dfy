/** The two-sided protocol run on real items: clamped keys from random bytes, items hashed
    and recovered by the Elligator mapping. */
module UnionTheorem {
  import opened Arith
  import opened Groups
  import opened EdwardsCodec
  import opened Feistel
  import opened Mapping
  import opened Clamping
  import opened ShuffleArgument
  import opened AdaptedShuffle
  import opened Permutation
  import opened TwoSided
  import opened TwoSidedProof

  /** The protocol's setting uses the curve group, its compressed points and the item mapping. */
  ghost predicate UsesMapping<G(!new)>(w: World<G, int, Block>, k: Curve, e: EdwardsGroup<G>, prp: Prp)
    requires k.f.p > 0 && ValidPrp(prp) && |e.torsion| == 8
  {
    && w.pp.g == e.g
    && (forall P :: w.pp.enc(P) == EncodePoint(k, e, P))
    && (forall n :: w.pp.dec(n) == DecodePoint(k, e, n))
    && (forall x :: IsItem(x) && HashToPoint(k, e, prp, x).Some? ==> w.hash(x) == HashToPoint(k, e, prp, x).value)
    && (forall P :: w.recover(P) == RecoveredOrZeros(k, e, prp, P))
  }

  /** What recover_from_point returns. */
  function RecoveredOrZeros<G>(k: Curve, e: EdwardsGroup<G>, prp: Prp, P: G): Block
    requires k.f.p > 0 && ValidPrp(prp) && |e.torsion| == 8
  {
    var r := RecoverSearch(k, e, prp, P, 0);
    if r.Some? then r.value else Zeros(16)
  }

  /** Every item can be recovered and is separated from every other one. */
  ghost predicate GoodItems<G(!new)>(k: Curve, e: EdwardsGroup<G>, prp: Prp, s: seq<Block>)
    requires k.f.p > 0 && ValidPrp(prp)
  {
    forall x :: x in s ==> IsItem(x) && Recoverable(k, prp, x) && Separated(k, e, prp, x)
  }

  lemma GoodItemsRecover<G(!new)>(w: World<G, int, Block>, k: Curve, e: EdwardsGroup<G>, prp: Prp, s: seq<Block>)
    requires ValidCurve(k) && IsEdwardsGroup(k, e) && ValidPrp(prp) && UsesMapping(w, k, e, prp)
      && GoodItems(k, e, prp, s)
    ensures Recovers(w, s)
  {
    hide ValidPrp, IsEdwardsGroup, HashToPoint, RecoverSearch, Separated, Recoverable, Cong;
    forall x, P | x in s && Smul(w.pp.g, 8, P) == Cleared(w, x)
      ensures w.recover(P) == x
    {
      HashIsDefined(k, e, prp, x);
      RecoveryRoundTrip(k, e, prp, x, P);
    }
  }

  lemma GoodItemsDistinguished<G(!new)>(w: World<G, int, Block>, k: Curve, e: EdwardsGroup<G>, prp: Prp,
                                        a: seq<Block>, b: seq<Block>)
    requires ValidCurve(k) && IsEdwardsGroup(k, e) && ValidPrp(prp) && UsesMapping(w, k, e, prp)
    requires GoodItems(k, e, prp, a) && GoodItems(k, e, prp, b)
    ensures Distinguishes(w, a, b)
  {
    hide ValidPrp, IsEdwardsGroup, HashToPoint, RecoverSearch, Recoverable, Cong, ValidCurve;
    forall x, y | x in a && y in b && Cleared(w, x) == Cleared(w, y)
      ensures x == y
    {
      HashIsDefined(k, e, prp, x);
      HashIsDefined(k, e, prp, y);
      assert Confused(k, e, prp, y, x);
    }
  }

  /** Everything a party is set up from: its items, 32 random key bytes, a permutation with
      its inverse, the prover's coins, the batching weights and a nonce. */
  datatype Setup = Setup(items: seq<Block>, raw: Block, pi: seq<nat>, inv: seq<nat>, coins: Coins, a1: int, a2: int,
                         nonce: int)

  ghost predicate ValidSetup(x: Setup, n: nat) {
    |x.items| == |x.pi| == n && |x.raw| == 32 && Inverse(x.pi, x.inv) && ValidCoins(x.coins, n)
  }

  function MakeParty<G>(w: World<G, int, Block>, server: bool, x: Setup): Party<G, Block>
    requires w.pp.l > 2 && |x.pi| == |w.pp.f| && |x.raw| == 32 && ValidCoins(x.coins, |w.pp.f|)
  {
    NewParty(w, server, x.items, LeValue(ClampInteger(x.raw)), x.pi, x.inv, x.coins, x.a1, x.a2, x.nonce)
  }

  lemma SetupIsHonest<G(!new)>(w: World<G, int, Block>, server: bool, x: Setup) returns (k: int)
    requires ValidWorld(w) && w.pp.l > 16 * Pow(256, 31) && ValidSetup(x, |w.pp.f|)
    ensures var p := MakeParty(w, server, x);
      Honest(w, p, k, x.coins) && p.server == server && p.input == x.items
  {
    hide Cong, IsPrime, IsGroup, LeValue, ClampInteger, Honest, Act, Prepare, Inverse;
    ClampedKey(x.raw);
    k := LeValue(ClampInteger(x.raw)) / 8;
    assert 8 * k == LeValue(ClampInteger(x.raw));
    NewPartyIsHonest(w, server, x.items, k, x.pi, x.inv, x.coins, x.a1, x.a2, x.nonce);
  }

  /** The parameters: a group of exponent dividing 8 l, l prime, generators of order l, and an
      expander of the asked length. */
  ghost predicate ValidSetting<G(!new)>(w: World<G, int, Block>) {
    && IsGroup(w.pp.g) && IsPrime(w.pp.l) && w.pp.l > 8
    && Smul(w.pp.g, w.pp.l, w.pp.base) == w.pp.g.zero && AllOrder(w.pp.g, w.pp.l, w.pp.f)
    && (forall d: int, n: nat :: ExpandAt(w.pp, d, n))
    && (forall P :: CofactorAt(w.pp, P))
  }

  /** Compression of curve points is an encoding the protocol can use. */
  lemma SettingIsValid<G(!new)>(w: World<G, int, Block>, k: Curve, e: EdwardsGroup<G>, prp: Prp)
    requires ValidSetting(w) && ValidCurve(k) && IsEdwardsGroup(k, e) && ValidPrp(prp) && UsesMapping(w, k, e, prp)
    ensures ValidWorld(w)
  {
    hide IsGroup, IsPrime, Smul, EncodePoint, DecodePoint, ValidCurve, IsEdwardsGroup, AllOrder, ValidPrp, HashToPoint;
    forall P ensures CodecAt(w.pp, P) {
      DecodeEncodePoint(k, e, P);
    }
  }

  /** Two parties that share a cipher key, set up from any random bytes, permutations and
      coins, with equally many good items, at least two each: under every schedule the run is
      safe, cannot block before both have returned, and each returns the other's items minus
      its own. */
  lemma UnionIsCorrect<G(!new)>(w: World<G, int, Block>, k: Curve, e: EdwardsGroup<G>, aes: Cipher, master: Block,
                                a: Setup, b: Setup, schedule: seq<bool>)
    requires ValidSetting(w) && w.pp.l > 16 * Pow(256, 31) && |w.pp.f| >= 2
    requires ValidCurve(k) && IsEdwardsGroup(k, e) && IsCipher(aes) && UsesMapping(w, k, e, NewPrp(aes, master))
    requires ValidSetup(a, |w.pp.f|) && ValidSetup(b, |w.pp.f|)
    requires GoodItems(k, e, NewPrp(aes, master), a.items) && GoodItems(k, e, NewPrp(aes, master), b.items)
    ensures var s, c := MakeParty(w, true, a), MakeParty(w, false, b);
      ValidWorld(w) && CorrectNet(w, s, c, Run(w, s, c, schedule))
  {
    var prp := NewPrp(aes, master);
    SettingIsValid(w, k, e, prp);
    hide Cong, IsPrime, IsGroup, ValidPrp, IsEdwardsGroup, GoodItems, MakeParty, Run, Inverse, UsesMapping, Honest,
      CorrectNet, Distinguishes, Recovers, NewPrp, ValidSetting;
    var ka := SetupIsHonest(w, true, a);
    var kb := SetupIsHonest(w, false, b);
    GoodItemsRecover(w, k, e, prp, a.items);
    GoodItemsRecover(w, k, e, prp, b.items);
    GoodItemsDistinguished(w, k, e, prp, a.items, b.items);
    EveryRunIsCorrect(w, MakeParty(w, true, a), ka, a.coins, MakeParty(w, false, b), kb, b.coins, schedule);
  }
}
