/** The mapping of items to points (src/mapping.rs) spelled out: what hashing reads, which of
    the possible results it takes, and in which order recovery tries its candidates. */
module MappingRules {
  import opened Wrappers
  import opened Arith
  import opened Powers
  import opened FieldAlgorithms
  import opened EdwardsCodec
  import opened Elligator
  import opened Feistel
  import opened Mapping

  /** A field element is negative when the lowest bit of its first byte is set. */
  lemma NegativeIsLowBit(f: Field, x: int)
    requires f.p > 0
    ensures IsNegative(f, x) <==> FieldBytes(f, x)[0] % 2 == 1
  {
    hide Canonical;
    var n := Canonical(f.p, x);
    assert n % 256 % 2 == n % 2;
  }

  // ---------- hashing ----------

  lemma TopBitIsPower(f: Field)
    requires Valid(f)
    ensures TopBit(f) == P2(255)
  {
    hide P2, IsPrime, Cong, Pow;
    P2IsPow(252);
    SmallPowers();
    P2Add(3, 252);
  }

  /** The hashed field element is the encryption of the item followed by sixteen zero bytes,
      read as a little-endian number without its bit 255. */
  lemma HashReads(k: Curve, prp: Prp, item: Block)
    requires Valid(k.f) && ValidPrp(prp) && IsItem(item)
    ensures var v := LeValue(Encrypt(prp, item + [0, 0, 0, 0, 0, 0, 0, 0, 0, 0, 0, 0, 0, 0, 0, 0]));
      HashField(k, prp, item) == if v < P2(255) then v else v - P2(255)
  {
    hide P2, IsPrime, Cong, Encrypt, ValidPrp, LeValue;
    TopBitIsPower(k.f);
    assert Zeros(16) == [0, 0, 0, 0, 0, 0, 0, 0, 0, 0, 0, 0, 0, 0, 0, 0];
    var c := Encrypt(prp, item + Zeros(16));
    SetTopValue(k.f, c);
    TopBitIsBit(TopBit(k.f), LeValue(c));
  }

  /** Of the two points with the hashed u-coordinate, hashing takes the one whose x is even. */
  lemma HashIsEven<G(!new)>(k: Curve, e: EdwardsGroup<G>, prp: Prp, item: Block)
    requires ValidCurve(k) && IsEdwardsGroup(k, e) && ValidPrp(prp) && IsItem(item)
    ensures HashToPoint(k, e, prp, item).Some?
    ensures FieldBytes(k.f, e.x(HashToPoint(k, e, prp, item).value))[0] % 2 == 0
  {
    hide Cong, IsPrime, FieldToMont, ToEdwards, MontgomeryU, Encrypt, HashField, FieldBytes, Canonical;
    var u := FieldToMont(k, HashField(k, prp, item));
    HashIsDefined(k, e, prp, item);
    ToEdwardsCorrect(k, u);
    var (x, y) := ToEdwards(k, u, false).value;
    assert PointAt(k, e, x, y);
    CongIffCanonical(k.f.p, e.x(e.point(x, y)), x);
    NegativeIsLowBit(k.f, e.x(e.point(x, y)));
  }

  // ---------- recovery ----------

  /** The two representatives of an accepted u: even elements r0 and r1 with
      2 u r0^2 = -(u + a) and 2 (u + a) r1^2 = -u. */
  lemma RepresentativesAre(k: Curve, u: int)
    requires ValidCurve(k) && MontToField(k, u).Some?
    ensures var (r0, r1) := MontToField(k, u).value;
      && Cong(k.f.p, (2 * (r0 * r0)) * u, -(u + k.a)) && Cong(k.f.p, (2 * (r1 * r1)) * (u + k.a), -u)
      && FieldBytes(k.f, r0)[0] % 2 == 0 == FieldBytes(k.f, r1)[0] % 2
  {
    hide Cong, IsPrime, MontToField, FieldBytes, IsNegative, Abs;
    var s := Accepted(k, u);
    var t := u + k.a;
    HalfRatio(k.f, u, t, s);
    assert (-2 * t) * u == (-2 * u) * t;
    HalfRatio(k.f, t, u, s);
    AbsSquare(k.f, t * s);
    AbsSquare(k.f, u * s);
    AbsIsEven(k.f, t * s);
    AbsIsEven(k.f, u * s);
  }

  lemma AbsIsEven(f: Field, x: int)
    requires Valid(f)
    ensures FieldBytes(f, Abs(f, x))[0] % 2 == 0
  {
    hide Cong, IsPrime, Canonical, FieldBytes, IsNegative;
    NegativeIsLowBit(f, Abs(f, x));
    SignsOfOpposites(f, x);
  }

  /** The byte strings tried for a pair of representatives: r0, -r0, r1 and -r1, each first
      without and then with its bit 255. */
  function Candidates(k: Curve, r0: int, r1: int): (c: seq<Block>)
    requires k.f.p > 0
    ensures |c| == 8 && forall i :: 0 <= i < 8 ==> |c[i]| == 32
  {
    [FieldBytes(k.f, r0), SetTop(FieldBytes(k.f, r0)), FieldBytes(k.f, -r0), SetTop(FieldBytes(k.f, -r0)),
     FieldBytes(k.f, r1), SetTop(FieldBytes(k.f, r1)), FieldBytes(k.f, -r1), SetTop(FieldBytes(k.f, -r1))]
  }

  /** The candidate decrypts to the item followed by sixteen zero bytes. */
  predicate DecryptsTo(prp: Prp, c: Block, item: Block)
    requires ValidPrp(prp) && |c| == 32
  {
    Decrypt(prp, c) == item + [0, 0, 0, 0, 0, 0, 0, 0, 0, 0, 0, 0, 0, 0, 0, 0]
  }

  /** No item with its padding is what the candidate decrypts to. */
  ghost predicate NoItem(prp: Prp, c: Block)
    requires ValidPrp(prp) && |c| == 32
  {
    forall item :: !DecryptsTo(prp, c, item)
  }

  /** Candidate j is the first one that decrypts to an item with its padding, and the item is
      the one it decrypts to. */
  ghost predicate FirstAt(prp: Prp, c: seq<Block>, item: Block, j: nat)
    requires ValidPrp(prp) && j < |c| && forall i :: 0 <= i < |c| ==> |c[i]| == 32
  {
    DecryptsTo(prp, c[j], item) && forall i :: 0 <= i < j ==> NoItem(prp, c[i])
  }

  /** The first match among some candidates. */
  function FirstOf(prp: Prp, c: seq<Block>): Option<Block>
    requires ValidPrp(prp) && forall i :: 0 <= i < |c| ==> |c[i]| == 32
  {
    if c == [] then None else OrElse(Unpad(Decrypt(prp, c[0])), FirstOf(prp, c[1..]))
  }

  lemma UnpadsTo(prp: Prp, c: Block, item: Block)
    requires ValidPrp(prp) && |c| == 32
    ensures DecryptsTo(prp, c, item) <==> Unpad(Decrypt(prp, c)) == Some(item)
  {
    hide Decrypt;
    assert Zeros(16) == [0, 0, 0, 0, 0, 0, 0, 0, 0, 0, 0, 0, 0, 0, 0, 0];
    var plain := Decrypt(prp, c);
    assert plain == plain[..16] + plain[16..];
    if DecryptsTo(prp, c, item) { assert plain[..16] == item && plain[16..] == Zeros(16); }
  }

  lemma NoItemIs(prp: Prp, c: Block)
    requires ValidPrp(prp) && |c| == 32
    ensures NoItem(prp, c) <==> Unpad(Decrypt(prp, c)).None?
  {
    hide Decrypt, ValidPrp, DecryptsTo, Unpad;
    if Unpad(Decrypt(prp, c)).Some? { UnpadsTo(prp, c, Unpad(Decrypt(prp, c)).value); }
    forall item
      ensures Unpad(Decrypt(prp, c)).None? ==> !DecryptsTo(prp, c, item)
    {
      UnpadsTo(prp, c, item);
    }
  }

  lemma {:induction false} FirstOfIs(prp: Prp, c: seq<Block>, item: Block)
    requires ValidPrp(prp) && forall i :: 0 <= i < |c| ==> |c[i]| == 32
    ensures FirstOf(prp, c) == Some(item) <==> exists j :: 0 <= j < |c| && FirstAt(prp, c, item, j)
  {
    hide Decrypt, ValidPrp, DecryptsTo, Unpad, NoItem;
    if c != [] {
      var rest := c[1..];
      FirstOfIs(prp, rest, item);
      UnpadsTo(prp, c[0], item);
      NoItemIs(prp, c[0]);
      if Unpad(Decrypt(prp, c[0])).Some? {
        assert DecryptsTo(prp, c[0], item) ==> FirstAt(prp, c, item, 0);
        assert forall j :: 0 < j < |c| ==> !FirstAt(prp, c, item, j);
      } else {
        forall j | 0 < j < |c|
          ensures FirstAt(prp, c, item, j) <==> FirstAt(prp, rest, item, j - 1)
        {
          assert forall i :: 0 <= i < j - 1 ==> rest[i] == c[i + 1];
          assert forall i :: 0 < i < j ==> c[i] == rest[i - 1];
        }
        if j :| 0 <= j < |rest| && FirstAt(prp, rest, item, j) { assert FirstAt(prp, c, item, j + 1); }
      }
    }
  }

  /** The item comes from the first of the eight candidates that decrypts to one. */
  lemma CheckItemIsFirst(k: Curve, prp: Prp, r0: int, r1: int, item: Block)
    requires k.f.p > 0 && ValidPrp(prp)
    ensures CheckItem(k, prp, r0, r1) == Some(item) <==>
      exists j :: 0 <= j < 8 && FirstAt(prp, Candidates(k, r0, r1), item, j)
  {
    hide Decrypt, ValidPrp, Unpad, FieldBytes, SetTop, FirstAt, FirstOf, CheckBytes;
    FirstOfIs(prp, Candidates(k, r0, r1), item);
    FourPairs(prp, FieldBytes(k.f, r0), FieldBytes(k.f, -r0), FieldBytes(k.f, r1), FieldBytes(k.f, -r1));
  }

  lemma FourPairs(prp: Prp, a: Block, b: Block, c: Block, d: Block)
    requires ValidPrp(prp) && |a| == |b| == |c| == |d| == 32
    ensures FirstOf(prp, [a, SetTop(a), b, SetTop(b), c, SetTop(c), d, SetTop(d)])
         == OrElse(CheckBytes(prp, a), OrElse(CheckBytes(prp, b), OrElse(CheckBytes(prp, c), CheckBytes(prp, d))))
  {
    var none: seq<Block> := [];
    FirstPair(prp, d, none);
    hide Decrypt, ValidPrp, Unpad, SetTop, FirstOf, CheckBytes;
    var last := [d, SetTop(d)];
    assert [d, SetTop(d)] + none == last;
    FirstPair(prp, c, last);
    FirstPair(prp, b, [c, SetTop(c)] + last);
    FirstPair(prp, a, [b, SetTop(b)] + ([c, SetTop(c)] + last));
    assert [a, SetTop(a)] + ([b, SetTop(b)] + ([c, SetTop(c)] + last))
        == [a, SetTop(a), b, SetTop(b), c, SetTop(c), d, SetTop(d)];
  }

  lemma FirstPair(prp: Prp, x: Block, rest: seq<Block>)
    requires ValidPrp(prp) && |x| == 32 && forall i :: 0 <= i < |rest| ==> |rest[i]| == 32
    ensures FirstOf(prp, [x, SetTop(x)] + rest) == OrElse(CheckBytes(prp, x), FirstOf(prp, rest))
    ensures rest == [] ==> FirstOf(prp, rest).None?
  {
    hide Decrypt, ValidPrp, Unpad, SetTop;
    var c := [x, SetTop(x)] + rest;
    assert c[1..][0] == SetTop(x) && c[1..][1..] == rest;
  }

  /** The search takes the first of the eight torsion translates at which there is a match. */
  lemma {:induction false} SearchIsFirst<G>(k: Curve, e: EdwardsGroup<G>, prp: Prp, P: G, i: nat, item: Block)
    requires k.f.p > 0 && ValidPrp(prp) && i <= |e.torsion|
    ensures RecoverSearch(k, e, prp, P, i) == Some(item) <==>
      exists j :: i <= j < |e.torsion| && FirstTranslate(k, e, prp, P, i, item, j)
    decreases |e.torsion| - i
  {
    hide RecoverAt, ValidPrp;
    if i < |e.torsion| {
      SearchIsFirst(k, e, prp, P, i + 1, item);
      var here := RecoverAt(k, e, prp, e.g.add(P, e.torsion[i]));
      if here.Some? {
        assert here == Some(item) ==> FirstTranslate(k, e, prp, P, i, item, i);
        assert forall j :: i < j < |e.torsion| ==> !FirstTranslate(k, e, prp, P, i, item, j);
      } else {
        if j: nat :| i <= j < |e.torsion| && FirstTranslate(k, e, prp, P, i, item, j) {
          assert FirstTranslate(k, e, prp, P, i + 1, item, j);
        }
        var next := i + 1;
        if j: nat :| next <= j < |e.torsion| && FirstTranslate(k, e, prp, P, next, item, j) {
          assert FirstTranslate(k, e, prp, P, i, item, j);
        }
      }
    }
  }

  ghost predicate FirstTranslate<G>(k: Curve, e: EdwardsGroup<G>, prp: Prp, P: G, i: nat, item: Block, j: nat)
    requires k.f.p > 0 && ValidPrp(prp) && j < |e.torsion|
  {
    && RecoverAt(k, e, prp, e.g.add(P, e.torsion[j])) == Some(item)
    && forall h :: i <= h < j ==> RecoverAt(k, e, prp, e.g.add(P, e.torsion[h])) == None
  }
}
