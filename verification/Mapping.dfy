/** Items to curve points and back (src/mapping.rs): a 16-byte item is padded, permuted,
    read as a field element and mapped to the curve; recovery searches the eight torsion
    translates of a point for one whose preimage decrypts to a padded item. */
module Mapping {
  import opened Wrappers
  import opened Arith
  import opened FieldAlgorithms
  import opened EdwardsCodec
  import opened Elligator
  import opened Feistel
  import opened Groups

  // ---------- little-endian bytes ----------

  function LeValue(s: Block): nat {
    if s == [] then 0 else s[0] + 256 * LeValue(s[1..])
  }

  /** The little-endian bytes of n. The measure mentions n, so that calls with a literal length
      alone are not unrolled. */
  function ToLe(n: nat, len: nat): (s: Block)
    ensures |s| == len
    decreases if n == 0 then len else len
  {
    if len == 0 then [] else [n % 256] + ToLe(n / 256, len - 1)
  }

  lemma {:induction false} LeValueOfToLe(n: nat, len: nat)
    requires n < Pow(256, len)
    ensures LeValue(ToLe(n, len)) == n
    decreases len
  {
    if len > 0 {
      assert n / 256 < Pow(256, len - 1);
      LeValueOfToLe(n / 256, len - 1);
      assert ToLe(n, len)[1..] == ToLe(n / 256, len - 1);
    }
  }

  lemma {:induction false} LeValueInjective(s: Block, t: Block)
    requires |s| == |t| && LeValue(s) == LeValue(t)
    ensures s == t
  {
    if s != [] {
      var x, y := LeValue(s[1..]), LeValue(t[1..]);
      assert s[0] + 256 * x == t[0] + 256 * y;
      LeValueInjective(s[1..], t[1..]);
      assert s == [s[0]] + s[1..] && t == [t[0]] + t[1..];
    }
  }

  /** Changing the last byte changes the value by its weight. */
  lemma {:induction false} LastByte(s: Block, b: Byte)
    requires s != []
    ensures var n := |s| - 1;
      LeValue(s[n := b]) == LeValue(s) + (b - s[n]) * Pow(256, n)
  {
    var n := |s| - 1;
    if n > 0 {
      LastByte(s[1..], b);
      assert s[n := b][1..] == s[1..][n - 1 := b];
      ByteStep(b - s[n], n - 1);
      hide Pow;
    } else {
      assert s[0 := b] == [b];
      assert Pow(256, 0) == 1;
    }
  }

  lemma ByteStep(v: int, n: nat)
    ensures v * Pow(256, n + 1) == 256 * (v * Pow(256, n))
  {
    var w := Pow(256, n);
    assert Pow(256, n + 1) == 256 * w;
    hide Pow;
    MulSwap(v, 1, 256, w);
  }

  lemma {:induction false} LastByteBound(s: Block)
    requires s != []
    ensures var n := |s| - 1;
      s[n] * Pow(256, n) <= LeValue(s) < (s[n] + 1) * Pow(256, n)
  {
    var n := |s| - 1;
    if n > 0 {
      LastByteBound(s[1..]);
      var w, v := Pow(256, n - 1), LeValue(s[1..]);
      assert Pow(256, n) == 256 * w && LeValue(s) == s[0] + 256 * v;
      hide Pow, LeValue;
      ByteBoundStep(s[n], w, v, s[0]);
    } else {
      assert Pow(256, 0) == 1;
    }
  }

  lemma ByteBoundStep(b: int, w: int, v: int, r: int)
    requires b * w <= v < (b + 1) * w && 0 <= r < 256
    ensures b * (256 * w) <= r + 256 * v < (b + 1) * (256 * w)
  {
    assert b * (256 * w) == 256 * (b * w) && (b + 1) * (256 * w) == 256 * ((b + 1) * w);
  }

  /** 2^255 as a byte weight. */
  lemma TopBitWeight(f: Field)
    requires Valid(f)
    ensures TopBit(f) == 128 * Pow(256, 31)
  {
    assert Pow(2, 8) == 256 && Pow(2, 4) == 16;
    PowPow(2, 8, 31);
    PowAdd(2, 4, 248);
  }

  /** Setting the most significant bit of a 32-byte string. */
  function SetTop(s: Block): (t: Block)
    requires |s| == 32
    ensures |t| == 32
  {
    s[31 := if s[31] < 128 then s[31] + 128 else s[31]]
  }

  lemma {:induction false} PowPositive(n: nat)
    ensures Pow(256, n) > 0
  {
    if n > 0 { PowPositive(n - 1); }
  }

  lemma SetTopValue(f: Field, s: Block)
    requires Valid(f) && |s| == 32
    ensures LeValue(s) < 2 * TopBit(f)
    ensures LeValue(SetTop(s)) == (if LeValue(s) < TopBit(f) then LeValue(s) + TopBit(f) else LeValue(s))
  {
    hide LeValue, IsPrime, Cong, Pow, Valid, TopBit;
    TopBitWeight(f);
    LastByteBound(s);
    assert Pow(256, 31) > 0 by { PowPositive(31); }
    LastByte(s, if s[31] < 128 then s[31] + 128 else s[31]);
    TopByte(Pow(256, 31), s[31], LeValue(s), LeValue(SetTop(s)));
  }

  lemma ProductMono(a: int, b: int, w: int)
    requires a <= b && w > 0
    ensures a * w <= b * w
  {
    assert b * w - a * w == (b - a) * w;
  }

  lemma TopByte(w: int, b: Byte, v: int, v': int)
    requires w > 0 && b * w <= v < (b + 1) * w
    requires v' == v + ((if b < 128 then b + 128 else b) - b) * w
    ensures v < 256 * w && v' == if v < 128 * w then v + 128 * w else v
  {
    if b < 128 {
      ProductMono(b + 1, 128, w);
    } else {
      ProductMono(128, b, w);
      ProductMono(b + 1, 256, w);
    }
  }

  /** from_bytes ignores the top bit. */
  function FromBytes(f: Field, s: Block): int
    requires f.p > 0
  {
    LeValue(s) % TopBit(f)
  }

  function FieldBytes(f: Field, x: int): (s: Block)
    requires f.p > 0
    ensures |s| == 32
  {
    ToLe(Canonical(f.p, x), 32)
  }

  lemma FieldBytesValue(f: Field, x: int)
    requires Valid(f)
    ensures LeValue(FieldBytes(f, x)) == Canonical(f.p, x)
    ensures FromBytes(f, FieldBytes(f, x)) == Canonical(f.p, x) == FromBytes(f, SetTop(FieldBytes(f, x)))
  {
    hide LeValue, ToLe, IsPrime, Cong;
    var c := Canonical(f.p, x);
    TopBitWeight(f);
    assert Pow(256, 32) == 256 * Pow(256, 31);
    LeValueOfToLe(c, 32);
    SetTopValue(f, FieldBytes(f, x));
    DivModUnique(c, TopBit(f), 0, c);
    DivModUnique(c + TopBit(f), TopBit(f), 1, c);
  }

  // ---------- the curve group with coordinates ----------

  /** The points of the Edwards curve: a group, affine coordinates, the point with given
      coordinates, and the table of the eight torsion points. */
  datatype EdwardsGroup<!G> =
    EdwardsGroup(g: Group<G>, x: G -> int, y: G -> int, point: (int, int) -> G, torsion: seq<G>)

  ghost predicate OnCurveAt<G>(k: Curve, e: EdwardsGroup<G>, P: G) {
    OnEdwards(k, e.x(P), e.y(P))
  }

  ghost predicate PointAt<G>(k: Curve, e: EdwardsGroup<G>, x: int, y: int) {
    OnEdwards(k, x, y) ==> Cong(k.f.p, e.x(e.point(x, y)), x) && Cong(k.f.p, e.y(e.point(x, y)), y)
  }

  ghost predicate SameAt<G>(k: Curve, e: EdwardsGroup<G>, P: G, Q: G) {
    Cong(k.f.p, e.x(P), e.x(Q)) && Cong(k.f.p, e.y(P), e.y(Q)) ==> P == Q
  }

  ghost predicate OppositeAt<G>(k: Curve, e: EdwardsGroup<G>, P: G) {
    Cong(k.f.p, e.x(e.g.neg(P)), -e.x(P)) && Cong(k.f.p, e.y(e.g.neg(P)), e.y(P))
  }

  ghost predicate TorsionAt<G>(e: EdwardsGroup<G>, T: G) {
    Smul(e.g, 8, T) == e.g.zero <==> T in e.torsion
  }

  ghost predicate IsEdwardsGroup<G(!new)>(k: Curve, e: EdwardsGroup<G>) {
    && IsGroup(e.g)
    && (forall P :: OnCurveAt(k, e, P))
    && (forall x, y :: PointAt(k, e, x, y))
    && (forall P, Q :: SameAt(k, e, P, Q))
    && (forall P :: OppositeAt(k, e, P))
    && |e.torsion| == 8
    && (forall T :: TorsionAt(e, T))
  }

  // ---------- encoded points ----------

  function EncodePoint<G>(k: Curve, e: EdwardsGroup<G>, P: G): int
    requires k.f.p > 0
  {
    Encode(k, e.x(P), e.y(P))
  }

  /** None where the source would panic in unwrap. */
  function DecodePoint<G>(k: Curve, e: EdwardsGroup<G>, n: int): Option<G>
    requires k.f.p > 0
  {
    match Decode(k, n)
    case None => None
    case Some((x, y)) => Some(e.point(x, y))
  }

  /** Every point of the curve is decoded back from its encoding. */
  lemma DecodeEncodePoint<G(!new)>(k: Curve, e: EdwardsGroup<G>, P: G)
    requires ValidCurve(k) && IsEdwardsGroup(k, e)
    ensures k.f.p > 0 && DecodePoint(k, e, EncodePoint(k, e, P)) == Some(P)
  {
    assert OnCurveAt(k, e, P);
    DecodeEncode(k, e.x(P), e.y(P));
    var (x, y) := Decode(k, EncodePoint(k, e, P)).value;
    hide Cong, Encode, Decode;
    SameCurvePoint(k, e, P, x, y);
  }

  lemma SameCurvePoint<G(!new)>(k: Curve, e: EdwardsGroup<G>, P: G, x: int, y: int)
    requires ValidCurve(k) && IsEdwardsGroup(k, e) && Cong(k.f.p, x, e.x(P)) && Cong(k.f.p, y, e.y(P))
    ensures e.point(x, y) == P
  {
    var p, Q := k.f.p, e.point(x, y);
    assert OnCurveAt(k, e, P) && PointAt(k, e, x, y) && SameAt(k, e, Q, P);
    hide Cong, IsPrime, IsGroup;
    OnEdwardsCong(k, e.x(P), e.y(P), x, y);
    CongTrans(p, e.x(Q), x, e.x(P));
    CongTrans(p, e.y(Q), y, e.y(P));
  }

  // ---------- hashing ----------

  predicate IsItem(item: Block) {
    |item| == 16
  }

  function HashField(k: Curve, prp: Prp, item: Block): int
    requires k.f.p > 0 && ValidPrp(prp) && IsItem(item)
  {
    FromBytes(k.f, Encrypt(prp, item + Zeros(16)))
  }

  /** None where the source would panic in unwrap. */
  function HashToPoint<G>(k: Curve, e: EdwardsGroup<G>, prp: Prp, item: Block): Option<G>
    requires k.f.p > 0 && ValidPrp(prp) && IsItem(item)
  {
    match ToEdwards(k, FieldToMont(k, HashField(k, prp, item)), false)
    case None => None
    case Some((x, y)) => Some(e.point(x, y))
  }

  /** Hashing is total, and the u-coordinate of the result is the Elligator image. */
  lemma HashIsDefined<G(!new)>(k: Curve, e: EdwardsGroup<G>, prp: Prp, item: Block)
    requires ValidCurve(k) && IsEdwardsGroup(k, e) && ValidPrp(prp) && IsItem(item)
    ensures HashToPoint(k, e, prp, item).Some?
    ensures var P := HashToPoint(k, e, prp, item).value;
      Canonical(k.f.p, MontgomeryU(e.y(P))) == FieldToMont(k, HashField(k, prp, item))
  {
    hide Cong, IsPrime, FieldToMont, ToEdwards, MontgomeryU, Encrypt, IsNegative;
    var p := k.f.p;
    var u := FieldToMont(k, HashField(k, prp, item));
    FieldToMontOnCurve(k, HashField(k, prp, item));
    ToEdwardsCorrect(k, u);
    var (x, y) := ToEdwards(k, u, false).value;
    var P := e.point(x, y);
    assert PointAt(k, e, x, y);
    MontgomeryUCong(k.f, e.y(P), y);
    CongTrans(p, MontgomeryU(e.y(P)), MontgomeryU(y), u);
    FieldToMontIsCanonical(k, HashField(k, prp, item));
    CanonicalUnique(p, MontgomeryU(e.y(P)), u);
  }

  lemma FieldToMontIsCanonical(k: Curve, r: int)
    requires k.f.p > 0
    ensures 0 <= FieldToMont(k, r) < k.f.p
  {
  }

  // ---------- recovery ----------

  function Unpad(plain: Block): Option<Block>
    requires |plain| == 32
  {
    if plain[16..] == Zeros(16) then Some(plain[..16]) else None
  }

  /** Try a representative's bytes, with the top bit as it is and set. */
  function CheckBytes(prp: Prp, bytes: Block): Option<Block>
    requires ValidPrp(prp) && |bytes| == 32
  {
    var plain := Unpad(Decrypt(prp, bytes));
    if plain.Some? then plain else Unpad(Decrypt(prp, SetTop(bytes)))
  }

  function OrElse<T>(a: Option<T>, b: Option<T>): Option<T> {
    if a.Some? then a else b
  }

  function CheckItem(k: Curve, prp: Prp, r0: int, r1: int): Option<Block>
    requires k.f.p > 0 && ValidPrp(prp)
  {
    OrElse(CheckBytes(prp, FieldBytes(k.f, r0)),
    OrElse(CheckBytes(prp, FieldBytes(k.f, -r0)),
    OrElse(CheckBytes(prp, FieldBytes(k.f, r1)),
           CheckBytes(prp, FieldBytes(k.f, -r1)))))
  }

  /** The match, if any, at one torsion translate. */
  function RecoverAt<G>(k: Curve, e: EdwardsGroup<G>, prp: Prp, P: G): Option<Block>
    requires k.f.p > 0 && ValidPrp(prp)
  {
    match MontToField(k, Canonical(k.f.p, MontgomeryU(e.y(P))))
    case None => None
    case Some((r0, r1)) => CheckItem(k, prp, r0, r1)
  }

  /** The first match from translate i on. */
  function RecoverSearch<G>(k: Curve, e: EdwardsGroup<G>, prp: Prp, P: G, i: nat): Option<Block>
    requires k.f.p > 0 && ValidPrp(prp) && i <= |e.torsion|
    decreases |e.torsion| - i
  {
    if i == |e.torsion| then None
    else OrElse(RecoverAt(k, e, prp, e.g.add(P, e.torsion[i])), RecoverSearch(k, e, prp, P, i + 1))
  }

  /** check_bytes: decrypts the buffer in place and fills the result on a match. */
  method CheckBytesInPlace(prp: Prp, bytes: array<Byte>, result: array<Byte>) returns (found: bool)
    requires ValidPrp(prp) && bytes.Length == 32 && result.Length == 16 && bytes != result
    modifies bytes, result
    ensures bytes[..] == Decrypt(prp, old(bytes[..]))
    ensures found <==> CheckBytes(prp, old(bytes[..])).Some?
    ensures result[..] == if found then CheckBytes(prp, old(bytes[..])).value else old(result[..])
  {
    ghost var b0 := bytes[..];
    var nc := new Byte[32](i requires 0 <= i < 32 reads bytes => bytes[i]);
    nc[31] := if nc[31] < 128 then nc[31] + 128 else nc[31];
    assert nc[..] == SetTop(b0);
    DecryptBlock(prp, nc);
    DecryptBlock(prp, bytes);
    assert bytes[..][16..] == bytes[16..] && nc[..][16..] == nc[16..];
    assert bytes[..][..16] == bytes[..16] && nc[..][..16] == nc[..16];
    found := false;
    if bytes[16..] == Zeros(16) {
      forall i | 0 <= i < 16 { result[i] := bytes[i]; }
      found := true;
    } else if nc[16..] == Zeros(16) {
      forall i | 0 <= i < 16 { result[i] := nc[i]; }
      found := true;
    }
  }

  /** recover_from_point: the first match, or sixteen zero bytes when none is found. */
  method RecoverFromPoint<G>(k: Curve, e: EdwardsGroup<G>, prp: Prp, P: G) returns (item: Block)
    requires k.f.p > 0 && ValidPrp(prp) && |e.torsion| == 8
    ensures var r := RecoverSearch(k, e, prp, P, 0);
      item == if r.Some? then r.value else Zeros(16)
  {
    item := Zeros(16);
    var i := 0;
    while i < 8
      invariant 0 <= i <= 8 && item == Zeros(16)
      invariant RecoverSearch(k, e, prp, P, i) == RecoverSearch(k, e, prp, P, 0)
    {
      var pair := MontToField(k, Canonical(k.f.p, MontgomeryU(e.y(e.g.add(P, e.torsion[i])))));
      if pair.Some? {
        var found := CheckItem(k, prp, pair.value.0, pair.value.1);
        if found.Some? {
          item := found.value;
          return;
        }
      }
      i := i + 1;
    }
  }

  // ---------- what recovery finds ----------

  /** The encrypted block of the item, with its top bit cleared, is a nonzero reduced value. */
  predicate Recoverable(k: Curve, prp: Prp, item: Block)
    requires k.f.p > 0 && ValidPrp(prp) && IsItem(item)
  {
    0 < HashField(k, prp, item) < k.f.p
  }

  /** A representative whose bytes are the encrypted block up to the top bit is accepted. */
  lemma CheckBytesAccepts(k: Curve, prp: Prp, item: Block, s: int)
    requires ValidCurve(k) && ValidPrp(prp) && IsItem(item)
    requires Canonical(k.f.p, s) == HashField(k, prp, item)
    ensures CheckBytes(prp, FieldBytes(k.f, s)).Some?
  {
    hide Encrypt, Decrypt, ValidPrp, IsPrime, Cong, LeValue, FieldBytes, SetTop, Canonical;
    var c := Encrypt(prp, item + Zeros(16));
    var b := FieldBytes(k.f, s);
    FieldBytesValue(k.f, s);
    SetTopValue(k.f, c);
    SetTopValue(k.f, b);
    var h := TopBit(k.f);
    TopBitIsBit(h, LeValue(c));
    assert LeValue(c) == (LeValue(c) / h) * h + LeValue(c) % h;
    MutualInverses(prp, item + Zeros(16));
    assert (item + Zeros(16))[16..] == Zeros(16);
    if LeValue(c) < h {
      LeValueInjective(b, c);
    } else {
      LeValueInjective(SetTop(b), c);
    }
  }

  /** One of the four candidates is the hashed field element itself. */
  lemma CheckItemAccepts(k: Curve, prp: Prp, item: Block, r0: int, r1: int)
    requires ValidCurve(k) && ValidPrp(prp) && IsItem(item) && Recoverable(k, prp, item)
    requires var r := HashField(k, prp, item);
      PlusMinus(k.f.p, r, r0) || PlusMinus(k.f.p, r, r1)
    ensures CheckItem(k, prp, r0, r1).Some?
  {
    hide Encrypt, Decrypt, ValidPrp, IsPrime, Cong, CheckBytes, FieldBytes, HashField;
    var p, r := k.f.p, HashField(k, prp, item);
    var s := if Cong(p, r, r0) then r0 else if Cong(p, r, -r0) then -r0 else if Cong(p, r, r1) then r1 else -r1;
    CongSym(p, r, s);
    CanonicalUnique(p, s, r);
    CheckBytesAccepts(k, prp, item, s);
  }

  /** At the hashed point itself, recovery succeeds. */
  lemma RecoverAtHash<G(!new)>(k: Curve, e: EdwardsGroup<G>, prp: Prp, item: Block)
    requires ValidCurve(k) && IsEdwardsGroup(k, e) && ValidPrp(prp) && IsItem(item)
    requires Recoverable(k, prp, item)
    ensures HashToPoint(k, e, prp, item).Some?
    ensures RecoverAt(k, e, prp, HashToPoint(k, e, prp, item).value).Some?
  {
    hide IsPrime, Cong, CheckItem, HashField, HashToPoint, FieldToMont, MontToField;
    HashIsDefined(k, e, prp, item);
    var r := HashField(k, prp, item);
    SmallIsNonzero(k.f.p, r);
    MontToFieldFinds(k, r);
    var (r0, r1) := MontToField(k, FieldToMont(k, r)).value;
    CheckItemAccepts(k, prp, item, r0, r1);
  }

  lemma {:induction false} SearchFinds<G>(k: Curve, e: EdwardsGroup<G>, prp: Prp, P: G, i: nat, j: nat)
    requires k.f.p > 0 && ValidPrp(prp) && i <= j < |e.torsion|
    requires RecoverAt(k, e, prp, e.g.add(P, e.torsion[j])).Some?
    ensures RecoverSearch(k, e, prp, P, i).Some?
    decreases j - i
  {
    hide RecoverAt, ValidPrp;
    if i < j {
      SearchFinds(k, e, prp, P, i + 1, j);
    }
  }

  /** For every recoverable item and every point differing from its hash by torsion,
      the search finds a match. */
  lemma RecoveryFinds<G(!new)>(k: Curve, e: EdwardsGroup<G>, prp: Prp, item: Block, P: G)
    requires ValidCurve(k) && IsEdwardsGroup(k, e) && ValidPrp(prp) && IsItem(item)
    requires Recoverable(k, prp, item) && HashToPoint(k, e, prp, item).Some?
    requires Smul(e.g, 8, P) == Smul(e.g, 8, HashToPoint(k, e, prp, item).value)
    ensures RecoverSearch(k, e, prp, P, 0).Some?
  {
    hide IsPrime, Cong, RecoverAt, HashToPoint, ValidPrp, Recoverable;
    var g, H := e.g, HashToPoint(k, e, prp, item).value;
    RecoverAtHash(k, e, prp, item);
    var T := g.add(H, g.neg(P));
    TorsionDifference(g, H, P);
    assert TorsionAt(e, T);
    var j :| 0 <= j < 8 && e.torsion[j] == T;
    Comm(g, P, T);
    Assoc(g, H, g.neg(P), P);
    Neg(g, P);
    Unit(g, H);
    SearchFinds(k, e, prp, P, 0, j);
  }

  lemma TorsionDifference<G(!new)>(g: Group<G>, H: G, P: G)
    requires IsGroup(g) && Smul(g, 8, P) == Smul(g, 8, H)
    ensures Smul(g, 8, g.add(H, g.neg(P))) == g.zero
  {
    SmulDist(g, 8, H, g.neg(P));
    SmulBasics(g, P);
    SmulComm(g, 8, -1, P);
    SmulBasics(g, Smul(g, 8, P));
    Neg(g, Smul(g, 8, P));
  }

  // ---------- what a match means ----------

  lemma CheckBytesSound(k: Curve, prp: Prp, s: int)
    requires ValidCurve(k) && ValidPrp(prp) && CheckBytes(prp, FieldBytes(k.f, s)).Some?
    ensures var item := CheckBytes(prp, FieldBytes(k.f, s)).value;
      IsItem(item) && HashField(k, prp, item) == Canonical(k.f.p, s)
  {
    hide Encrypt, Decrypt, ValidPrp, IsPrime, Cong;
    var b := FieldBytes(k.f, s);
    var item := CheckBytes(prp, b).value;
    FieldBytesValue(k.f, s);
    var c := if Unpad(Decrypt(prp, b)).Some? then b else SetTop(b);
    var plain := Decrypt(prp, c);
    assert plain == plain[..16] + plain[16..];
    MutualInverses(prp, c);
  }

  lemma CheckItemSound(k: Curve, prp: Prp, r0: int, r1: int) returns (s: int)
    requires ValidCurve(k) && ValidPrp(prp) && CheckItem(k, prp, r0, r1).Some?
    ensures s == r0 || s == -r0 || s == r1 || s == -r1
    ensures var item := CheckItem(k, prp, r0, r1).value;
      IsItem(item) && HashField(k, prp, item) == Canonical(k.f.p, s)
  {
    hide Encrypt, Decrypt, ValidPrp, IsPrime, Cong, CheckBytes, FieldBytes, HashField;
    var item := CheckItem(k, prp, r0, r1).value;
    s := if CheckBytes(prp, FieldBytes(k.f, r0)).Some? then r0
    else if CheckBytes(prp, FieldBytes(k.f, -r0)).Some? then -r0
    else if CheckBytes(prp, FieldBytes(k.f, r1)).Some? then r1 else -r1;
    CheckBytesSound(k, prp, s);
  }

  /** Any match hashes back to the translate it was found at, or to its opposite. */
  lemma MatchRehashes<G(!new)>(k: Curve, e: EdwardsGroup<G>, prp: Prp, P: G)
    requires ValidCurve(k) && IsEdwardsGroup(k, e) && ValidPrp(prp)
    requires RecoverAt(k, e, prp, P).Some?
    ensures var item := RecoverAt(k, e, prp, P).value;
      IsItem(item) && (HashToPoint(k, e, prp, item) == Some(P) || HashToPoint(k, e, prp, item) == Some(e.g.neg(P)))
  {
    hide IsPrime, Cong, CheckItem, HashField, FieldToMont, MontToField, ToEdwards, MontgomeryU, OnMontgomery,
      IsNegative;
    var p := k.f.p;
    var x, y := e.x(P), e.y(P);
    var u := Canonical(p, MontgomeryU(y));
    var (r0, r1) := MontToField(k, u).value;
    var s := CheckItemSound(k, prp, r0, r1);
    var item := RecoverAt(k, e, prp, P).value;
    assert OnCurveAt(k, e, P);
    CanonicalCong(p, MontgomeryU(y));
    AcceptedIsNotIdentity(k, y, u);
    ToEdwardsOfMontgomeryU(k, x, y, u);
    RepresentativesMapBack(k, u);
    CanonicalCong(p, s);
    FieldToMontCong(k, Canonical(p, s), s);
    FieldToMontIsCanonical(k, s);
    CanonicalUnique(p, FieldToMont(k, s), u);
    var v := ToEdwards(k, u, false).value;
    ToEdwardsCorrect(k, u);
    PointIsEither(k, e, P, v.0, v.1);
  }

  lemma AcceptedIsNotIdentity(k: Curve, y: int, u: int)
    requires ValidCurve(k) && Cong(k.f.p, u, MontgomeryU(y)) && MontToField(k, u).Some?
    ensures !Cong(k.f.p, y, 1)
  {
    hide IsPrime, Cong, MontToField, Invert;
    var s := Accepted(k, u);
    if Cong(k.f.p, y, 1) {
      CongBy(k.f.p, 1 - y, 0, y, 1, -1);
      InvertCorrect(k.f, 1 - y);
      CongBy(k.f.p, MontgomeryU(y), 0, Invert(1 - y), 0, 1 + y);
      CongTrans(k.f.p, u, MontgomeryU(y), 0);
    }
  }

  lemma PointIsEither<G(!new)>(k: Curve, e: EdwardsGroup<G>, P: G, x: int, y: int)
    requires ValidCurve(k) && IsEdwardsGroup(k, e) && OnEdwards(k, x, y)
    requires Cong(k.f.p, y, e.y(P)) && (Cong(k.f.p, x, e.x(P)) || Cong(k.f.p, x, -e.x(P)))
    ensures e.point(x, y) == P || e.point(x, y) == e.g.neg(P)
  {
    hide IsPrime, Cong, OnEdwards;
    var p := k.f.p;
    var Q := e.point(x, y);
    assert PointAt(k, e, x, y);
    CongTrans(p, e.y(Q), y, e.y(P));
    if Cong(p, x, e.x(P)) {
      CongTrans(p, e.x(Q), x, e.x(P));
      assert SameAt(k, e, Q, P);
    } else {
      var N := e.g.neg(P);
      assert OppositeAt(k, e, P);
      CongTrans(p, e.x(Q), x, -e.x(P));
      CongSym(p, e.x(N), -e.x(P));
      CongTrans(p, e.x(Q), -e.x(P), e.x(N));
      CongSym(p, e.y(N), e.y(P));
      CongTrans(p, e.y(Q), e.y(P), e.y(N));
      assert SameAt(k, e, Q, N);
    }
  }

  lemma {:induction false} SearchSound<G>(k: Curve, e: EdwardsGroup<G>, prp: Prp, P: G, i: nat) returns (j: nat)
    requires k.f.p > 0 && ValidPrp(prp) && i <= |e.torsion|
    requires RecoverSearch(k, e, prp, P, i).Some?
    ensures j < |e.torsion|
    ensures RecoverAt(k, e, prp, e.g.add(P, e.torsion[j])) == RecoverSearch(k, e, prp, P, i)
    decreases |e.torsion| - i
  {
    hide RecoverAt, ValidPrp;
    if RecoverAt(k, e, prp, e.g.add(P, e.torsion[i])).Some? {
      j := i;
    } else {
      j := SearchSound(k, e, prp, P, i + 1);
    }
  }

  /** Whatever the search returns hashes to the searched point or its opposite, up to torsion. */
  lemma RecoveryIsSound<G(!new)>(k: Curve, e: EdwardsGroup<G>, prp: Prp, P: G)
    requires ValidCurve(k) && IsEdwardsGroup(k, e) && ValidPrp(prp)
    requires RecoverSearch(k, e, prp, P, 0).Some?
    ensures var item := RecoverSearch(k, e, prp, P, 0).value;
      && IsItem(item) && HashToPoint(k, e, prp, item).Some?
      && (var Q := HashToPoint(k, e, prp, item).value;
          Smul(e.g, 8, Q) == Smul(e.g, 8, P) || Smul(e.g, 8, Q) == e.g.neg(Smul(e.g, 8, P)))
  {
    hide IsPrime, Cong, RecoverAt, HashToPoint, RecoverSearch, ValidPrp;
    var g := e.g;
    var j := SearchSound(k, e, prp, P, 0);
    var T := e.torsion[j];
    var R := g.add(P, T);
    MatchRehashes(k, e, prp, R);
    assert TorsionAt(e, T);
    SmulDist(g, 8, P, T);
    Unit(g, Smul(g, 8, P));
    SmulBasics(g, R);
    SmulComm(g, 8, -1, R);
    SmulBasics(g, Smul(g, 8, R));
  }

  /** Two hashed items agree up to sign and torsion. */
  ghost predicate Confused<G>(k: Curve, e: EdwardsGroup<G>, prp: Prp, item: Block, other: Block)
    requires k.f.p > 0 && ValidPrp(prp) && IsItem(item) && IsItem(other)
  {
    var H, Q := HashToPoint(k, e, prp, item), HashToPoint(k, e, prp, other);
    && H.Some? && Q.Some?
    && (Smul(e.g, 8, Q.value) == Smul(e.g, 8, H.value) || Smul(e.g, 8, Q.value) == e.g.neg(Smul(e.g, 8, H.value)))
  }

  /** The hash separates item from every other item, up to sign and torsion. */
  ghost predicate Separated<G>(k: Curve, e: EdwardsGroup<G>, prp: Prp, item: Block)
    requires k.f.p > 0 && ValidPrp(prp) && IsItem(item)
  {
    forall other :: IsItem(other) && Confused(k, e, prp, item, other) ==> other == item
  }

  /** Only items whose block reads as a nonzero reduced value can ever come back. */
  lemma RecoveredIsRecoverable<G(!new)>(k: Curve, e: EdwardsGroup<G>, prp: Prp, P: G)
    requires ValidCurve(k) && ValidPrp(prp) && RecoverAt(k, e, prp, P).Some?
    ensures var item := RecoverAt(k, e, prp, P).value; IsItem(item) && Recoverable(k, prp, item)
  {
    hide IsPrime, Cong, CheckItem, HashField, MontToField, MontgomeryU, IsNegative;
    var p := k.f.p;
    var u := Canonical(p, MontgomeryU(e.y(P)));
    var (r0, r1) := MontToField(k, u).value;
    var s := CheckItemSound(k, prp, r0, r1);
    var t := Accepted(k, u);
    NonzeroProduct(p, u + k.a, t);
    NonzeroProduct(p, u, t);
    if Canonical(p, s) == 0 {
      CanonicalCong(p, s);
      CongBy(p, -s, 0, s, 0, -1);
    }
  }

  /** Round trip: a separated item comes back from the points that agree with its hash up
      to torsion exactly when it is recoverable. */
  lemma RecoveryRoundTrip<G(!new)>(k: Curve, e: EdwardsGroup<G>, prp: Prp, item: Block, P: G)
    requires ValidCurve(k) && IsEdwardsGroup(k, e) && ValidPrp(prp) && IsItem(item)
    requires Separated(k, e, prp, item) && HashToPoint(k, e, prp, item).Some?
    requires Smul(e.g, 8, P) == Smul(e.g, 8, HashToPoint(k, e, prp, item).value)
    ensures RecoverSearch(k, e, prp, P, 0) == Some(item) <==> Recoverable(k, prp, item)
  {
    hide IsPrime, Cong, RecoverAt, HashToPoint, RecoverSearch, IsEdwardsGroup, ValidPrp, Recoverable;
    if Recoverable(k, prp, item) {
      RecoveryFinds(k, e, prp, item, P);
      RecoveryIsSound(k, e, prp, P);
    } else if RecoverSearch(k, e, prp, P, 0) == Some(item) {
      var j := SearchSound(k, e, prp, P, 0);
      RecoveredIsRecoverable(k, e, prp, e.g.add(P, e.torsion[j]));
    }
  }
}
