/** The one-sided private set union (src/onesided.rs): the receiver learns which of the
    sender's blinded items are its own and obtains the others by oblivious transfer. Points
    travel as encodings that may forget the sign, as Montgomery coordinates do. */
module OneSided {
  import opened Arith
  import opened Powers
  import opened Fermat
  import opened Folds
  import opened Groups
  import opened ShuffleArgument
  import opened TwoSidedProof

  /** The group with its prime order, the encoding of points, multiplication on encodings and
      the hashing of items. */
  datatype Line<!G, !C, !I> = Line(g: Group<G>, l: int, wire: G -> C, mul: (int, C) -> C, hash: I -> G)

  ghost predicate ExponentAt<G, C, I>(w: Line<G, C, I>, P: G) {
    Smul(w.g, 8 * w.l, P) == w.g.zero
  }

  ghost predicate MulAt<G, C, I>(w: Line<G, C, I>, n: int, P: G) {
    0 <= n < P2(255) ==> w.mul(n, w.wire(P)) == w.wire(Smul(w.g, n, P))
  }

  ghost predicate SeparatedAt<G, C, I>(w: Line<G, C, I>, P: G, Q: G) {
    Smul(w.g, w.l, P) == w.g.zero && Smul(w.g, w.l, Q) == w.g.zero && w.wire(P) == w.wire(Q) ==> UpToSign(w.g, P, Q)
  }

  predicate UpToSign<G(==)>(g: Group<G>, P: G, Q: G) {
    P == Q || P == g.neg(Q)
  }

  /** Every encoding is either faithful or forgets exactly the sign. */
  ghost predicate SignAt<G, C, I>(w: Line<G, C, I>, signed: bool, P: G) {
    !signed ==> w.wire(w.g.neg(P)) == w.wire(P)
  }

  ghost predicate FaithfulAt<G, C, I>(w: Line<G, C, I>, signed: bool, P: G, Q: G) {
    signed && w.wire(P) == w.wire(Q) ==> P == Q
  }

  ghost predicate ValidLine<G(!new), C(!new), I>(w: Line<G, C, I>, signed: bool) {
    && IsGroup(w.g) && IsPrime(w.l) && 8 < w.l <= P2(255)
    && (forall P :: ExponentAt(w, P) && SignAt(w, signed, P))
    && (forall n, P :: MulAt(w, n, P))
    && (forall P, Q :: SeparatedAt(w, P, Q) && FaithfulAt(w, signed, P, Q))
  }

  // ---------- keys ----------

  /** The scalar kept beside a clamped key 8 k. */
  function SecretScalar(l: int, sk8: int): int
    requires l > 2
  {
    Canonical(l, sk8 * ScalarInvert(l, 8))
  }

  lemma SecretScalarIsKey(l: int, k: int)
    requires IsPrime(l) && l > 8
    ensures Cong(l, SecretScalar(l, 8 * k), k) && 0 <= SecretScalar(l, 8 * k) < l
  {
    hide Cong, IsPrime, Canonical;
    var i8 := ScalarInvert(l, 8);
    SmallIsNonzero(l, 8);
    FermatInverse(l, 8);
    assert (8 * k) * i8 - k == k * (8 * i8 - 1);
    CongBy(l, (8 * k) * i8, k, 8 * i8, 1, k);
    CanonicalCong(l, (8 * k) * i8);
    CongTrans(l, SecretScalar(l, 8 * k), (8 * k) * i8, k);
  }

  // ---------- the parties ----------

  function Gen<G, C, I>(w: Line<G, C, I>, input: seq<I>, sk8: int): (r: seq<C>)
    ensures |r| == |input| && forall i :: 0 <= i < |r| ==> r[i] == w.mul(sk8, w.wire(w.hash(input[i])))
  {
    seq(|input|, i requires 0 <= i < |input| => w.mul(sk8, w.wire(w.hash(input[i]))))
  }

  /** gen: the sender also keeps the unblinded points. */
  method GenLoop<G, C, I>(w: Line<G, C, I>, input: seq<I>, sk8: int) returns (points: seq<C>, original: seq<C>)
    ensures points == Gen(w, input, sk8)
    ensures |original| == |input| && forall i :: 0 <= i < |input| ==> original[i] == w.wire(w.hash(input[i]))
  {
    points, original := [], [];
    for i := 0 to |input|
      invariant points == Gen(w, input, sk8)[..i]
      invariant |original| == i && forall j :: 0 <= j < i ==> original[j] == w.wire(w.hash(input[j]))
    {
      var hx := w.wire(w.hash(input[i]));
      original := original + [hx];
      points := points + [w.mul(sk8, hx)];
    }
    assert Gen(w, input, sk8)[..|input|] == Gen(w, input, sk8);
  }

  function Blind<G, C, I>(w: Line<G, C, I>, points: seq<C>, sk: int): (r: seq<C>)
    ensures |r| == |points| && forall i :: 0 <= i < |r| ==> r[i] == w.mul(sk, points[i])
  {
    seq(|points|, i requires 0 <= i < |points| => w.mul(sk, points[i]))
  }

  function BlindAndShuffle<G, C, I>(w: Line<G, C, I>, points: seq<C>, sk: int, pi: seq<nat>): (r: seq<C>)
    requires |pi| == |points| && IsPermutation(pi)
    ensures r == Gather(Blind(w, points, sk), pi)
  {
    seq(|pi|, i requires 0 <= i < |pi| => w.mul(sk, points[pi[i]]))
  }

  method Compare<C(==)>(points: seq<C>, shuffled: seq<C>) returns (indicator: array<bool>)
    ensures fresh(indicator) && indicator.Length == |points|
    ensures forall i :: 0 <= i < |points| ==> (indicator[i] <==> points[i] in shuffled)
  {
    indicator := new bool[|points|](_ => false);
    var set_ := set c | c in shuffled;
    for i := 0 to |points|
      invariant forall j :: 0 <= j < |points| ==> indicator[j] == (j < i && points[j] in shuffled)
    {
      if points[i] in set_ { indicator[i] := true; }
    }
  }

  // ---------- what a match means ----------

  function Cleared8<G, C, I>(w: Line<G, C, I>, x: I): G {
    Smul(w.g, 8, w.hash(x))
  }

  /** The encoding of the item blinded by both keys, in either order. */
  function Twice<G, C, I>(w: Line<G, C, I>, k: int, m: int, x: I): C {
    w.wire(Smul(w.g, k * m, Cleared8(w, x)))
  }

  lemma Cleared8Order<G(!new), C(!new), I>(w: Line<G, C, I>, signed: bool, x: I)
    requires ValidLine(w, signed)
    ensures Smul(w.g, w.l, Cleared8(w, x)) == w.g.zero
  {
    assert ExponentAt(w, w.hash(x));
    SmulMul(w.g, w.l, 8, w.hash(x));
    assert w.l * 8 == 8 * w.l;
  }

  /** Blinding with a clamped key and then with the other's scalar. */
  lemma TwiceBlinded<G(!new), C(!new), I>(w: Line<G, C, I>, signed: bool, k: int, m: int, x: I)
    requires ValidLine(w, signed) && 0 <= 8 * k < P2(255)
    ensures w.mul(SecretScalar(w.l, 8 * m), w.mul(8 * k, w.wire(w.hash(x)))) == Twice(w, k, m, x)
  {
    var g, s, P, E := w.g, SecretScalar(w.l, 8 * m), w.hash(x), Cleared8(w, x);
    SecretScalarIsKey(w.l, m);
    Cleared8Order(w, signed, x);
    assert MulAt(w, 8 * k, P) && MulAt(w, s, Smul(g, 8 * k, P));
    hide IsPrime, Cong, IsGroup, Canonical, SecretScalar, P2;
    SmulMul(g, k, 8, P);
    assert k * 8 == 8 * k;
    SmulOrder(g, w.l, k, E);
    SmulCong(g, w.l, s, m, Smul(g, k, E));
    SmulMul(g, m, k, E);
    assert m * k == k * m;
  }

  /** Two items look the same after clearing the cofactor, up to what the encoding keeps. */
  predicate Collide<G(==), C, I>(w: Line<G, C, I>, signed: bool, x: I, y: I) {
    Cleared8(w, x) == Cleared8(w, y) || (!signed && Cleared8(w, x) == w.g.neg(Cleared8(w, y)))
  }

  lemma TwiceCollides<G(!new), C(!new), I>(w: Line<G, C, I>, signed: bool, k: int, m: int, x: I, y: I)
    requires ValidLine(w, signed) && 0 < k < w.l && 0 < m < w.l
    ensures Twice(w, k, m, x) == Twice(w, k, m, y) <==> Collide(w, signed, x, y)
  {
    var g, l, s, E, F := w.g, w.l, k * m, Cleared8(w, x), Cleared8(w, y);
    Cleared8Order(w, signed, x);
    Cleared8Order(w, signed, y);
    assert SeparatedAt(w, Smul(g, s, E), Smul(g, s, F)) && FaithfulAt(w, signed, Smul(g, s, E), Smul(g, s, F));
    assert SignAt(w, signed, Smul(g, s, F));
    hide IsPrime, Cong, IsGroup;
    SmallIsNonzero(l, k);
    SmallIsNonzero(l, m);
    NonzeroProduct(l, k, m);
    SmulOrder(g, l, s, E);
    SmulOrder(g, l, s, F);
    OppositeMultiple(g, l, s, F);
    if Smul(g, s, E) == Smul(g, s, F) { SameBlinded(g, l, s, E, F); }
    if Smul(g, s, E) == Smul(g, s, g.neg(F)) { SameBlinded(g, l, s, E, g.neg(F)); }
  }

  lemma OppositeMultiple<G(!new)>(g: Group<G>, l: int, s: int, F: G)
    requires IsGroup(g) && Smul(g, l, F) == g.zero
    ensures Smul(g, s, g.neg(F)) == g.neg(Smul(g, s, F)) && Smul(g, l, g.neg(F)) == g.zero
  {
    SmulBasics(g, F);
    SmulNeg(g, s, F);
    SmulMul(g, s, -1, F);
    SmulMul(g, l, -1, F);
    assert s * -1 == -s && l * -1 == -l;
    SmulNeg(g, l, F);
    Neg(g, g.zero);
    Unit(g, g.neg(g.zero));
  }

  // ---------- the run ----------

  datatype Sender<I> = Sender(input: seq<I>, sk8: int, sk: int, pi: seq<nat>)
  datatype Receiver<I> = Receiver(input: seq<I>, sk8: int, sk: int)

  /** Both parties as set up from clamped keys 8 k and 8 m. */
  ghost predicate SetUp<I>(l: int, s: Sender<I>, k: int, r: Receiver<I>, m: int) {
    && l > 2 && 0 < k < l && 0 < m < l && 8 * k < P2(255) && 8 * m < P2(255)
    && s.sk8 == 8 * k && s.sk == SecretScalar(l, 8 * k)
    && r.sk8 == 8 * m && r.sk == SecretScalar(l, 8 * m)
    && |s.pi| == |r.input| && IsPermutation(s.pi)
  }

  /** Oblivious transfer, ideally: one message of each pair. */
  function Transfer<T>(ms: seq<(T, T)>, choice: seq<bool>): (r: seq<T>)
    requires |ms| == |choice|
    ensures |r| == |ms| && forall i :: 0 <= i < |r| ==> r[i] == if choice[i] then ms[i].1 else ms[i].0
  {
    seq(|ms|, i requires 0 <= i < |ms| => if choice[i] then ms[i].1 else ms[i].0)
  }

  /** The three messages of a run before the transfer. */
  datatype Traffic<C> = Traffic(sender: seq<C>, receiver: seq<C>, shuffled: seq<C>)

  /** Each party sends its hashed items under its clamped key, in order, and the sender sends
      the receiver's points under its own key in the order of its permutation. */
  ghost predicate IsTraffic<G, C, I>(w: Line<G, C, I>, s: Sender<I>, r: Receiver<I>, t: Traffic<C>) {
    && |t.sender| == |s.input| && |t.receiver| == |r.input| == |s.pi| == |t.shuffled| && IsPermutation(s.pi)
    && (forall i :: 0 <= i < |s.input| ==> t.sender[i] == w.mul(s.sk8, w.wire(w.hash(s.input[i]))))
    && (forall i :: 0 <= i < |r.input| ==> t.receiver[i] == w.mul(r.sk8, w.wire(w.hash(r.input[i]))))
    && (forall j :: 0 <= j < |s.pi| ==> t.shuffled[j] == w.mul(s.sk, t.receiver[s.pi[j]]))
  }

  /** The whole semi-honest run. */
  method Exchange<G, C(==), I, T>(w: Line<G, C, I>, s: Sender<I>, r: Receiver<I>, ms: seq<(T, T)>)
    returns (sent: Traffic<C>, indicator: seq<bool>, results: seq<T>)
    requires |ms| == |s.input| && |s.pi| == |r.input| && IsPermutation(s.pi)
    ensures IsTraffic(w, s, r, sent)
    ensures |indicator| == |s.input| && results == Transfer(ms, indicator)
    ensures forall i :: 0 <= i < |indicator| ==>
      (indicator[i] <==> Blind(w, Gen(w, s.input, s.sk8), r.sk)[i] in Blind(w, Gen(w, r.input, r.sk8), s.sk))
  {
    var sdM1, _ := GenLoop(w, s.input, s.sk8);
    var rcM1, _ := GenLoop(w, r.input, r.sk8);
    var sdM2 := BlindAndShuffle(w, rcM1, s.sk, s.pi);
    var blinded := Blind(w, sdM1, r.sk);
    var found := Compare(blinded, sdM2);
    indicator := found[..];
    forall i | 0 <= i < |blinded| ensures indicator[i] <==> blinded[i] in Blind(w, rcM1, s.sk) {
      ShufflingKeepsMember(Blind(w, rcM1, s.sk), s.pi, blinded[i]);
    }
    sent := Traffic(sdM1, rcM1, sdM2);
    results := Transfer(ms, indicator);
  }

  lemma ShufflingKeepsMember<T>(s: seq<T>, pi: seq<nat>, x: T)
    requires |pi| == |s| && IsPermutation(pi)
    ensures x in Gather(s, pi) <==> x in s
  {
    PermutedMultiset(s, pi);
    assert x in Gather(s, pi) <==> x in multiset(Gather(s, pi));
    assert x in s <==> x in multiset(s);
  }

  /** An item is marked exactly when it collides with one of the receiver's. */
  lemma IndicatorMeansCollision<G(!new), C(!new), I>(w: Line<G, C, I>, signed: bool, s: Sender<I>, k: int,
                                                     r: Receiver<I>, m: int, i: nat)
    requires ValidLine(w, signed) && SetUp(w.l, s, k, r, m) && i < |s.input|
    ensures Blind(w, Gen(w, s.input, s.sk8), r.sk)[i] in Blind(w, Gen(w, r.input, r.sk8), s.sk)
      <==> exists j :: 0 <= j < |r.input| && Collide(w, signed, s.input[i], r.input[j])
  {
    var mine, theirs := Blind(w, Gen(w, s.input, s.sk8), r.sk), Blind(w, Gen(w, r.input, r.sk8), s.sk);
    TwiceBlinded(w, signed, k, m, s.input[i]);
    assert mine[i] == Twice(w, k, m, s.input[i]);
    forall j | 0 <= j < |r.input|
      ensures mine[i] == theirs[j] <==> Collide(w, signed, s.input[i], r.input[j])
    {
      TwiceBlinded(w, signed, m, k, r.input[j]);
      assert m * k == k * m;
      TwiceCollides(w, signed, k, m, s.input[i], r.input[j]);
    }
  }

  /** Cofactor-cleared hashes tell the two sets apart. */
  ghost predicate TellsApart<G, C, I(!new)>(w: Line<G, C, I>, signed: bool, a: seq<I>, b: seq<I>) {
    forall x, y :: x in a && y in b && Collide(w, signed, x, y) ==> x == y
  }

  lemma IndicatorMeansCommon<G(!new), C(!new), I(!new)>(w: Line<G, C, I>, signed: bool, s: Sender<I>, k: int,
                                                        r: Receiver<I>, m: int, i: nat)
    requires ValidLine(w, signed) && SetUp(w.l, s, k, r, m) && i < |s.input|
    requires TellsApart(w, signed, s.input, r.input)
    ensures Blind(w, Gen(w, s.input, s.sk8), r.sk)[i] in Blind(w, Gen(w, r.input, r.sk8), s.sk)
      <==> s.input[i] in r.input
  {
    IndicatorMeansCollision(w, signed, s, k, r, m, i);
    if s.input[i] in r.input {
      var j :| 0 <= j < |r.input| && r.input[j] == s.input[i];
      assert Collide(w, signed, s.input[i], r.input[j]);
    }
  }

  /** What the receiver keeps: the results of the unmarked positions. */
  function Obtained<T>(results: seq<T>, indicator: seq<bool>): seq<T>
    requires |results| == |indicator|
  {
    if results == [] then []
    else
      var n := |results| - 1;
      if indicator[n] then Obtained(results[..n], indicator[..n])
        else Obtained(results[..n], indicator[..n]) + [results[n]]
  }

  /** The transfer delivers exactly the sender's other items, in order. */
  lemma {:induction false} ObtainedIsDifference<I>(items: seq<I>, dummies: seq<I>, indicator: seq<bool>, mine: seq<I>)
    requires |items| == |indicator| == |dummies|
    requires forall i :: 0 <= i < |items| ==> (indicator[i] <==> items[i] in mine)
    ensures Obtained(Transfer(Pairs(items, dummies), indicator), indicator) == Without(items, mine)
    decreases |items|
  {
    if items != [] {
      var n := |items| - 1;
      ObtainedIsDifference(items[..n], dummies[..n], indicator[..n], mine);
      assert Transfer(Pairs(items, dummies), indicator)[..n]
        == Transfer(Pairs(items[..n], dummies[..n]), indicator[..n]);
    }
  }

  function Pairs<I>(items: seq<I>, dummies: seq<I>): (r: seq<(I, I)>)
    requires |items| == |dummies|
    ensures |r| == |items| && forall i :: 0 <= i < |r| ==> r[i] == (items[i], dummies[i])
  {
    seq(|items|, i requires 0 <= i < |items| => (items[i], dummies[i]))
  }

  lemma {:induction false} WithoutMembers<I>(s: seq<I>, a: seq<I>, x: I)
    ensures x in Without(s, a) <==> x in s && x !in a
    decreases |s|
  {
    if s != [] {
      var n := |s| - 1;
      WithoutMembers(s[..n], a, x);
      assert s == s[..n] + [s[n]];
    }
  }

  /** A complete run on the sender's items: the marks are right and the receiver ends with
      the union. */
  method RunUnion<G(!new), C(!new, ==), I(!new, ==)>(w: Line<G, C, I>, signed: bool, s: Sender<I>, r: Receiver<I>,
                                                     dummies: seq<I>, ghost k: int, ghost m: int)
    returns (sent: Traffic<C>, indicator: seq<bool>, obtained: seq<I>)
    requires ValidLine(w, signed) && SetUp(w.l, s, k, r, m) && TellsApart(w, signed, s.input, r.input)
    requires |dummies| == |s.input|
    ensures IsTraffic(w, s, r, sent)
    ensures |indicator| == |s.input| && forall i :: 0 <= i < |s.input| ==> (indicator[i] <==> s.input[i] in r.input)
    ensures obtained == Without(s.input, r.input)
    ensures forall x :: x in r.input + obtained <==> x in r.input || x in s.input
  {
    var results;
    sent, indicator, results := Exchange(w, s, r, Pairs(s.input, dummies));
    hide ValidLine, SetUp, TellsApart, IsTraffic;
    forall i | 0 <= i < |s.input| ensures indicator[i] <==> s.input[i] in r.input {
      IndicatorMeansCommon(w, signed, s, k, r, m, i);
    }
    ObtainedIsDifference(s.input, dummies, indicator, r.input);
    obtained := Obtained(results, indicator);
    forall x ensures x in r.input + obtained <==> x in r.input || x in s.input {
      WithoutMembers(s.input, r.input, x);
    }
  }
}
