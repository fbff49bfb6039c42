/** Montgomery's simultaneous inversion, on field elements (curve25519-dalek/src/field.rs) and
    on scalars kept in Montgomery form (curve25519-dalek/src/scalar.rs), with the scalars'
    own inversion by an addition chain. */
module BatchInvert {
  import opened Arith
  import ShuffleArgument
  import opened Fermat
  import opened FieldAlgorithms
  import opened Powers

  // ---------- inverses ----------

  lemma InverseUnique(p: int, a: int, b: int, c: int)
    requires Cong(p, a * b, 1) && Cong(p, a * c, 1)
    ensures Cong(p, b, c)
  {
    assert b - c == c * (a * b - 1) + (-b) * (a * c - 1);
    CongBy2(p, b, c, a * b, 1, c, a * c, 1, -b);
  }

  // ---------- field elements ----------

  /** The product of the nonzero elements among the first m. */
  function NonzeroProd(p: int, s: seq<int>, m: nat): int
    requires p > 0 && m <= |s|
  {
    if m == 0 then 1
    else if Eq(p, s[m - 1], 0) then NonzeroProd(p, s, m - 1)
    else NonzeroProd(p, s, m - 1) * s[m - 1]
  }

  lemma {:induction false} NonzeroProdIsNonzero(p: int, s: seq<int>, m: nat)
    requires IsPrime(p) && m <= |s|
    ensures !Cong(p, NonzeroProd(p, s, m), 0)
    decreases m
  {
    hide Cong;
    if m == 0 {
      SmallIsNonzero(p, 1);
    } else {
      NonzeroProdIsNonzero(p, s, m - 1);
      NonzeroProduct(p, NonzeroProd(p, s, m - 1), s[m - 1]);
    }
  }

  /** One backward step: acc inverts the product up to and including input. */
  lemma BackwardStep(p: int, acc: int, prefix: int, input: int)
    requires Cong(p, acc * (prefix * input), 1)
    ensures Cong(p, (acc * input) * prefix, 1) && Cong(p, input * (acc * prefix), 1)
  {
    assert (acc * input) * prefix == acc * (prefix * input) == input * (acc * prefix) by {
      MulSwap(acc, input, prefix, 1);
      MulSwap(acc, prefix, input, 1);
    }
  }

  /** Zeros stay, every other entry becomes its inverse. */
  ghost predicate IsInverted(f: Field, before: seq<int>, after: seq<int>, i: nat)
    requires f.p > 0 && i < |before| && i < |after|
  {
    if Cong(f.p, before[i], 0) then after[i] == before[i]
    else Cong(f.p, before[i] * after[i], 1)
  }

  /** Scratch holds the running products of the nonzero inputs. */
  ghost predicate RunningProducts(p: int, s: seq<int>, scratch: seq<int>, i: nat)
    requires p > 0
  {
    i <= |s| == |scratch| && forall j :: 0 <= j < i ==> scratch[j] == NonzeroProd(p, s, j)
  }

  /** The forward pass: products so far, skipping zeros. */
  method Products(p: int, inputs: array<int>, scratch: array<int>) returns (acc: int)
    requires p > 0 && scratch != inputs && scratch.Length == inputs.Length
    modifies scratch
    ensures RunningProducts(p, inputs[..], scratch[..], inputs.Length)
      && acc == NonzeroProd(p, inputs[..], inputs.Length)
  {
    hide Eq;
    acc := 1;
    for i := 0 to inputs.Length
      invariant acc == NonzeroProd(p, inputs[..], i)
      invariant RunningProducts(p, inputs[..], scratch[..], i)
    {
      scratch[i] := acc;
      if !Eq(p, inputs[i], 0) { acc := acc * inputs[i]; }
    }
  }

  method FieldBatchInvert(f: Field, inputs: array<int>)
    requires Valid(f)
    modifies inputs
    ensures forall i :: 0 <= i < inputs.Length ==>
      IsInverted(f, old(inputs[..]), inputs[..], i) && Cong(f.p, inputs[i], Invert(old(inputs[..])[i]))
  {
    var n, p := inputs.Length, f.p;
    hide Valid, IsPrime, Cong, Invert, IsInverted, NonzeroProd;
    assert IsPrime(p) && p > 1 by { FieldPrime(f); }
    var scratch := new int[n](_ => 1);
    ghost var s := inputs[..];
    var acc := Products(p, inputs, scratch);
    NonzeroProdIsNonzero(p, s, n);
    assert !Eq(p, acc, 0);
    InvertCorrect(f, acc);
    ghost var product := acc;
    acc := Invert(acc);
    assert Cong(p, acc * product, 1) by { assert acc * product == product * acc; }
    FieldUnwind(f, inputs, scratch, acc, s);
    forall i | 0 <= i < n ensures Cong(p, inputs[i], Invert(s[i])) {
      InvertedAgrees(f, s, inputs[..], i);
    }
  }

  /** The backward pass. */
  method FieldUnwind(f: Field, inputs: array<int>, scratch: array<int>, start: int, ghost s: seq<int>)
    requires f.p > 0 && scratch != inputs && scratch.Length == inputs.Length && s == inputs[..]
    requires RunningProducts(f.p, s, scratch[..], |s|) && Cong(f.p, start * NonzeroProd(f.p, s, |s|), 1)
    modifies inputs
    ensures forall i :: 0 <= i < |s| ==> IsInverted(f, s, inputs[..], i)
  {
    hide Cong, IsInverted, NonzeroProd;
    var p, acc := f.p, start;
    for i := inputs.Length downto 0
      invariant Cong(p, acc * NonzeroProd(p, s, i), 1)
      invariant forall j :: 0 <= j < i ==> inputs[j] == s[j]
      invariant forall j :: i <= j < |s| ==> IsInverted(f, s, inputs[..], j)
    {
      ghost var before := inputs[..];
      NonzeroProdNext(p, s, i);
      var tmp := acc * inputs[i];
      if !Eq(p, inputs[i], 0) {
        BackwardStep(p, acc, NonzeroProd(p, s, i), s[i]);
        inputs[i] := acc * scratch[i];
        acc := tmp;
      }
      InvertedFrame(f, s, before, inputs[..], i);
      InvertedHere(f, s, inputs[..], i);
    }
  }

  lemma NonzeroProdNext(p: int, s: seq<int>, i: nat)
    requires p > 0 && i < |s|
    ensures NonzeroProd(p, s, i + 1) == if Eq(p, s[i], 0) then NonzeroProd(p, s, i) else NonzeroProd(p, s, i) * s[i]
  {
  }

  lemma FieldPrime(f: Field)
    requires Valid(f)
    ensures IsPrime(f.p) && f.p > 1
  {
  }

  lemma InvertedHere(f: Field, s: seq<int>, t: seq<int>, i: nat)
    requires f.p > 0 && i < |s| && i < |t|
    requires if Cong(f.p, s[i], 0) then t[i] == s[i] else Cong(f.p, s[i] * t[i], 1)
    ensures IsInverted(f, s, t, i)
  {
  }

  lemma InvertedFrame(f: Field, s: seq<int>, t: seq<int>, t': seq<int>, i: nat)
    requires f.p > 0 && |s| == |t| == |t'| && i < |s| && forall j :: i < j < |s| ==> t[j] == t'[j]
    ensures forall j :: i < j < |s| && IsInverted(f, s, t, j) ==> IsInverted(f, s, t', j)
  {
  }

  lemma InvertedAgrees(f: Field, s: seq<int>, t: seq<int>, i: nat)
    requires Valid(f) && i < |s| && i < |t| && IsInverted(f, s, t, i)
    ensures Cong(f.p, t[i], Invert(s[i]))
  {
    var p := f.p;
    hide Cong, Invert, IsPrime;
    InvertCorrect(f, s[i]);
    if Cong(p, s[i], 0) {
      CongSym(p, Invert(s[i]), 0);
      CongTrans(p, t[i], 0, Invert(s[i]));
    } else {
      InverseUnique(p, s[i], t[i], Invert(s[i]));
    }
  }

  // ---------- scalars in Montgomery form ----------

  /** The scalar modulus l with the Montgomery radix r and its inverse. */
  datatype Scalars = Scalars(l: int, r: int, rinv: int)

  /** The rows of the inversion chain: how often to square, and the power to multiply in. */
  function Chain(): seq<(nat, nat)> {
    ChainTop() + ChainMiddle() + ChainBottom()
  }

  function ChainTop(): seq<(nat, nat)> {
    [(126, 5), (4, 3), (5, 15), (5, 15), (4, 9), (2, 3), (5, 15), (4, 5), (6, 5)]
  }

  function ChainMiddle(): seq<(nat, nat)> {
    [(3, 7), (5, 15), (5, 7), (4, 3), (5, 11), (6, 11), (10, 9), (4, 3), (5, 3)]
  }

  function ChainBottom(): seq<(nat, nat)> {
    [(5, 3), (5, 9), (4, 7), (6, 15), (5, 11), (3, 5), (6, 15), (3, 5), (3, 3)]
  }

  /** The exponent reached from e by the rows of a chain. */
  function ChainExponent(e: nat, rows: seq<(nat, nat)>): nat {
    if rows == [] then e
    else
      var last := rows[|rows| - 1];
      ChainExponent(e, rows[..|rows| - 1]) * P2(last.0) + last.1
  }

  ghost predicate ValidScalars(m: Scalars) {
    IsPrime(m.l) && m.l > 2 && m.l - 2 == ChainExponent(16, Chain()) && Cong(m.l, m.r * m.rinv, 1)
  }

  function MontgomeryMul(m: Scalars, a: int, b: int): int
    requires m.l > 0
  {
    Canonical(m.l, (a * b) * m.rinv)
  }

  function AsMontgomery(m: Scalars, a: int): int
    requires m.l > 0
  {
    Canonical(m.l, a * m.r)
  }

  function FromMontgomery(m: Scalars, a: int): int
    requires m.l > 0
  {
    Canonical(m.l, a * m.rinv)
  }

  /** y is the Montgomery form of x. */
  ghost predicate MontForm(m: Scalars, y: int, x: int) {
    Cong(m.l, y, x * m.r)
  }

  lemma MontgomeryMulForms(m: Scalars, a: int, x: int, b: int, y: int)
    requires ValidScalars(m) && MontForm(m, b, y)
    ensures MontForm(m, a, x) ==> MontForm(m, MontgomeryMul(m, a, b), x * y)
    ensures Cong(m.l, a, x) ==> Cong(m.l, MontgomeryMul(m, a, b), x * y)
  {
    hide Cong, IsPrime, Canonical, ChainExponent;
    var l, r, i := m.l, m.r, m.rinv;
    CanonicalCong(l, (a * b) * i);
    // b i = y
    assert (y * r) * i == y * (r * i) by { MulSwap(y, r, i, 1); }
    CongBy2(l, b * i, y, b, y * r, i, r * i, 1, y);
    assert (a * b) * i == a * (b * i) by { MulSwap(a, b, i, 1); }
    if MontForm(m, a, x) {
      CongMul(l, a, x * r, b * i, y);
      assert (x * r) * y == (x * y) * r by { MulSwap(x, r, y, 1); }
      CongTrans(l, MontgomeryMul(m, a, b), a * (b * i), (x * y) * r);
    }
    if Cong(l, a, x) {
      CongMul(l, a, x, b * i, y);
      CongTrans(l, MontgomeryMul(m, a, b), a * (b * i), x * y);
    }
  }

  lemma AsMontgomeryForm(m: Scalars, x: int)
    requires m.l > 0
    ensures MontForm(m, AsMontgomery(m, x), x)
  {
    CanonicalCong(m.l, x * m.r);
  }

  lemma FromMontgomeryForm(m: Scalars, y: int, x: int)
    requires ValidScalars(m) && MontForm(m, y, x)
    ensures Cong(m.l, FromMontgomery(m, y), x)
  {
    hide Cong, IsPrime, Canonical, ChainExponent;
    var l, r, i := m.l, m.r, m.rinv;
    CanonicalCong(l, y * i);
    assert (x * r) * i == x * (r * i) by { MulSwap(x, r, i, 1); }
    CongBy2(l, y * i, x, y, x * r, i, r * i, 1, x);
    CongTrans(l, FromMontgomery(m, y), y * i, x);
  }

  // ---------- the inversion chain ----------

  method SquareMultiply(m: Scalars, y0: int, squarings: nat, x: int, ghost b: int, ghost e: nat, ghost d: nat)
    returns (y: int)
    requires ValidScalars(m) && MontForm(m, y0, Pow(b, e)) && MontForm(m, x, Pow(b, d))
    ensures e * P2(squarings) >= 0 && MontForm(m, y, Pow(b, e * P2(squarings) + d))
  {
    hide Pow, MontForm, ChainExponent;
    assert m.l > 0;
    hide ValidScalars, MontgomeryMul, P2;
    y := y0;
    ghost var k := e;
    assert P2(0) == 1 by { P2Next(0); }
    for i := 0 to squarings
      invariant k == e * P2(i) && MontForm(m, y, Pow(b, k))
    {
      MontgomeryMulForms(m, y, Pow(b, k), y, Pow(b, k));
      PowAdd(b, k, k);
      assert e * P2(i + 1) == k + k by { P2Next(i); assert e * (2 * P2(i)) == 2 * (e * P2(i)); }
      y := MontgomeryMul(m, y, y);
      k := k + k;
    }
    MontgomeryMulForms(m, y, Pow(b, k), x, Pow(b, d));
    PowAdd(b, k, d);
    y := MontgomeryMul(m, y, x);
  }

  /** One more multiplication in the chain adds exponents. */
  lemma ChainMul(m: Scalars, b: int, y: int, e: nat, z: int, d: nat)
    requires ValidScalars(m) && MontForm(m, y, Pow(b, e)) && MontForm(m, z, Pow(b, d))
    ensures MontForm(m, MontgomeryMul(m, y, z), Pow(b, e + d))
  {
    MontgomeryMulForms(m, y, Pow(b, e), z, Pow(b, d));
    PowAdd(b, e, d);
  }

  /** The odd powers the chain multiplies in, all in Montgomery form. */
  datatype OddPowers = OddPowers(x3: int, x5: int, x7: int, x9: int, x11: int, x15: int)

  ghost predicate AreOddPowers(m: Scalars, o: OddPowers, b: int) {
    && MontForm(m, o.x3, Pow(b, 3)) && MontForm(m, o.x5, Pow(b, 5)) && MontForm(m, o.x7, Pow(b, 7))
    && MontForm(m, o.x9, Pow(b, 9)) && MontForm(m, o.x11, Pow(b, 11)) && MontForm(m, o.x15, Pow(b, 15))
  }

  /** The start of the chain: the odd powers and the sixteenth. */
  method ChainStart(m: Scalars, x: int, ghost b: int) returns (o: OddPowers, y: int)
    requires ValidScalars(m) && MontForm(m, x, b)
    ensures AreOddPowers(m, o, b) && MontForm(m, y, Pow(b, 16))
  {
    assert Pow(b, 1) == b by { PowSmall(b); }
    assert m.l > 0;
    hide Pow, MontForm, ChainExponent, ValidScalars, MontgomeryMul;
    var x2 := MontgomeryMul(m, x, x);
    ChainMul(m, b, x, 1, x, 1);
    var x4 := MontgomeryMul(m, x2, x2);
    ChainMul(m, b, x2, 2, x2, 2);
    var x3 := MontgomeryMul(m, x2, x);
    ChainMul(m, b, x2, 2, x, 1);
    var x5 := MontgomeryMul(m, x2, x3);
    ChainMul(m, b, x2, 2, x3, 3);
    var x7 := MontgomeryMul(m, x2, x5);
    ChainMul(m, b, x2, 2, x5, 5);
    var x9 := MontgomeryMul(m, x2, x7);
    ChainMul(m, b, x2, 2, x7, 7);
    var x11 := MontgomeryMul(m, x2, x9);
    ChainMul(m, b, x2, 2, x9, 9);
    var x15 := MontgomeryMul(m, x4, x11);
    ChainMul(m, b, x4, 4, x11, 11);
    y := MontgomeryMul(m, x15, x);
    ChainMul(m, b, x15, 15, x, 1);
    o := OddPowers(x3, x5, x7, x9, x11, x15);
  }

  function PickPower(o: OddPowers, d: nat): int {
    match d
    case 3 => o.x3
    case 5 => o.x5
    case 7 => o.x7
    case 9 => o.x9
    case 11 => o.x11
    case _ => o.x15
  }

  lemma PickedPower(m: Scalars, o: OddPowers, b: int, i: nat)
    requires AreOddPowers(m, o, b) && i < |Chain()|
    ensures MontForm(m, PickPower(o, Chain()[i].1), Pow(b, Chain()[i].1))
  {
    hide MontForm, Pow, Chain;
    RowIsKnown(i);
  }

  /** The chain raises to l - 2, staying in Montgomery form. */
  method MontgomeryInvert(m: Scalars, x: int, ghost b: int) returns (y: int)
    requires ValidScalars(m) && MontForm(m, x, b)
    ensures MontForm(m, y, Pow(b, m.l - 2))
  {
    hide Pow, MontForm, ChainExponent, ValidScalars, Chain, PickPower, AreOddPowers, P2;
    var o;
    o, y := ChainStart(m, x, b);
    var rows := Chain();
    ChainNone();
    for i := 0 to |rows|
      invariant MontForm(m, y, Pow(b, ChainExponent(16, rows[..i])))
    {
      PickedPower(m, o, b, i);
      ChainNext(rows, i);
      y := SquareMultiply(m, y, rows[i].0, PickPower(o, rows[i].1), b, ChainExponent(16, rows[..i]), rows[i].1);
    }
    assert rows[..|rows|] == rows;
    ExponentIsChain(m);
  }

  lemma ExponentIsChain(m: Scalars)
    requires ValidScalars(m)
    ensures m.l > 2 && m.l - 2 == ChainExponent(16, Chain())
  {
  }

  lemma ChainNone()
    ensures ChainExponent(16, Chain()[..0]) == 16
  {
  }

  lemma ChainNext(rows: seq<(nat, nat)>, i: nat)
    requires i < |rows|
    ensures ChainExponent(16, rows[..i + 1]) == ChainExponent(16, rows[..i]) * P2(rows[i].0) + rows[i].1
  {
    assert rows[..i + 1][..i] == rows[..i];
  }

  lemma RowIsKnown(i: nat)
    requires i < |Chain()|
    ensures Chain()[i].1 in {3, 5, 7, 9, 11, 15}
  {
  }

  lemma ChainRow(i: nat, squarings: nat, k: nat, d: nat, e: nat, e': nat)
    requires i < |Chain()| && Chain()[i] == (squarings, d) && P2(squarings) == k
    requires ChainExponent(16, Chain()[..i]) == e && e' == e * k + d
    ensures ChainExponent(16, Chain()[..i + 1]) == e'
  {
    hide Chain, P2, ChainExponent;
    ChainNext(Chain(), i);
  }

  lemma ChainSlices()
    ensures |Chain()| == 27
    ensures Chain()[..9] == ChainTop() && Chain()[9..18] == ChainMiddle() && Chain()[18..] == ChainBottom()
  {
    var a, b, c := ChainTop(), ChainMiddle(), ChainBottom();
    assert |a| == |b| == |c| == 9;
    hide ChainTop, ChainMiddle, ChainBottom;
    assert (a + b + c)[..9] == a && (a + b + c)[9..18] == b && (a + b + c)[18..] == c;
  }

  lemma ChainTopRows()
    ensures |Chain()| == 27
    ensures Chain()[0] == (126, 5) && Chain()[1] == (4, 3) && Chain()[2] == (5, 15) && Chain()[3] == (5, 15)
      && Chain()[4] == (4, 9) && Chain()[5] == (2, 3) && Chain()[6] == (5, 15) && Chain()[7] == (4, 5)
      && Chain()[8] == (6, 5)
  {
    ChainSlices();
    hide Chain;
    assert forall i :: 0 <= i < 9 ==> Chain()[..9][i] == Chain()[i];
  }

  lemma ChainMiddleRows()
    ensures |Chain()| == 27
    ensures Chain()[9] == (3, 7) && Chain()[10] == (5, 15) && Chain()[11] == (5, 7) && Chain()[12] == (4, 3)
      && Chain()[13] == (5, 11) && Chain()[14] == (6, 11) && Chain()[15] == (10, 9) && Chain()[16] == (4, 3)
      && Chain()[17] == (5, 3)
  {
    ChainSlices();
    hide Chain;
    assert forall i :: 0 <= i < 9 ==> Chain()[9..18][i] == Chain()[9 + i];
  }

  lemma ChainBottomRows()
    ensures |Chain()| == 27
    ensures Chain()[18] == (5, 3) && Chain()[19] == (5, 9) && Chain()[20] == (4, 7) && Chain()[21] == (6, 15)
      && Chain()[22] == (5, 11) && Chain()[23] == (3, 5) && Chain()[24] == (6, 15) && Chain()[25] == (3, 5)
      && Chain()[26] == (3, 3)
  {
    ChainSlices();
    hide Chain;
    assert forall i :: 0 <= i < 9 ==> Chain()[18..][i] == Chain()[18 + i];
  }

  lemma ChainRows0To9()
    requires ChainExponent(16, Chain()[..0]) == 16
    ensures |Chain()| == 27 && ChainExponent(16, Chain()[..9]) == 46768052394588893382517914646921056629169121901893
  {
    hide Chain, P2, ChainExponent;
    ChainTopRows();
    ChainPowers();
    ChainRow(0, 126, 85070591730234615865843651857942052864, 5, 16, 1361129467683753853853498429727072845829);
    ChainRow(1, 4, 16, 3, 1361129467683753853853498429727072845829, 21778071482940061661655974875633165533267);
    ChainRow(2, 5, 32, 15, 21778071482940061661655974875633165533267, 696898287454081973172991196020261297064559);
    ChainRow(3, 5, 32, 15, 696898287454081973172991196020261297064559, 22300745198530623141535718272648361506065903);
    ChainRow(4, 4, 16, 9, 22300745198530623141535718272648361506065903, 356811923176489970264571492362373784097054457);
    ChainRow(5, 2, 4, 3, 356811923176489970264571492362373784097054457, 1427247692705959881058285969449495136388217831);
    ChainRow(6, 5, 32, 15, 1427247692705959881058285969449495136388217831,
      45671926166590716193865151022383844364422970607);
    ChainRow(7, 4, 16, 5, 45671926166590716193865151022383844364422970607,
      730750818665451459101842416358141509830767529717);
    ChainRow(8, 6, 64, 5, 730750818665451459101842416358141509830767529717,
      46768052394588893382517914646921056629169121901893);
  }

  lemma ChainRows9To18()
    requires ChainExponent(16, Chain()[..9]) == 46768052394588893382517914646921056629169121901893
    ensures |Chain()| == 27 && ChainExponent(16, Chain()[..18])
      == 6582018229284824168619876730229402019956174953567740527434535523
  {
    hide Chain, P2, ChainExponent;
    ChainMiddleRows();
    ChainPowers();
    ChainRow(9, 3, 8, 7, 46768052394588893382517914646921056629169121901893,
      374144419156711147060143317175368453033352975215151);
    ChainRow(10, 5, 32, 15, 374144419156711147060143317175368453033352975215151,
      11972621413014756705924586149611790497067295206884847);
    ChainRow(11, 5, 32, 7, 11972621413014756705924586149611790497067295206884847,
      383123885216472214589586756787577295906153446620315111);
    ChainRow(12, 4, 16, 3, 383123885216472214589586756787577295906153446620315111,
      6129982163463555433433388108601236734498455145925041779);
    ChainRow(13, 5, 32, 11, 6129982163463555433433388108601236734498455145925041779,
      196159429230833773869868419475239575503950564669601336939);
    ChainRow(14, 6, 64, 11, 196159429230833773869868419475239575503950564669601336939,
      12554203470773361527671578846415332832252836138854485564107);
    ChainRow(15, 10, 1024, 9, 12554203470773361527671578846415332832252836138854485564107,
      12855504354071922204335696738729300820226904206186993217645577);
    ChainRow(16, 4, 16, 3, 12855504354071922204335696738729300820226904206186993217645577,
      205688069665150755269371147819668813123630467298991891482329235);
    ChainRow(17, 5, 32, 3, 205688069665150755269371147819668813123630467298991891482329235,
      6582018229284824168619876730229402019956174953567740527434535523);
  }

  lemma ChainRows18To27()
    requires ChainExponent(16, Chain()[..18]) == 6582018229284824168619876730229402019956174953567740527434535523
    ensures |Chain()| == 27 && ChainExponent(16, Chain()[..27])
      == 7237005577332262213973186563042994240857116359379907606001950938285454250987
  {
    hide Chain, P2, ChainExponent;
    ChainBottomRows();
    ChainPowers();
    ChainRow(18, 5, 32, 3, 6582018229284824168619876730229402019956174953567740527434535523,
      210624583337114373395836055367340864638597598514167696877905136739);
    ChainRow(19, 5, 32, 9, 210624583337114373395836055367340864638597598514167696877905136739,
      6739986666787659948666753771754907668435123152453366300092964375657);
    ChainRow(20, 4, 16, 7, 6739986666787659948666753771754907668435123152453366300092964375657,
      107839786668602559178668060348078522694961970439253860801487430010519);
    ChainRow(21, 6, 64, 15, 107839786668602559178668060348078522694961970439253860801487430010519,
      6901746346790563787434755862277025452477566108112247091295195520673231);
    ChainRow(22, 5, 32, 11, 6901746346790563787434755862277025452477566108112247091295195520673231,
      220855883097298041197912187592864814479282115459591906921446256661543403);
    ChainRow(23, 3, 8, 5, 220855883097298041197912187592864814479282115459591906921446256661543403,
      1766847064778384329583297500742918515834256923676735255371570053292347229);
    ChainRow(24, 6, 64, 15, 1766847064778384329583297500742918515834256923676735255371570053292347229,
      113078212145816597093331040047546785013392443115311056343780483410710222671);
    ChainRow(25, 3, 8, 5, 113078212145816597093331040047546785013392443115311056343780483410710222671,
      904625697166532776746648320380374280107139544922488450750243867285681781373);
    ChainRow(26, 3, 8, 3, 904625697166532776746648320380374280107139544922488450750243867285681781373,
      7237005577332262213973186563042994240857116359379907606001950938285454250987);
  }

  /** The chain's exponent is l - 2 for the order l = 2^252 + 27742317777372353535851937790883648493
      of the prime-order subgroup, so the hypotheses hold of it for every radix prime to l. */
  lemma ScalarConstants(r: int) returns (m: Scalars)
    requires IsPrime(7237005577332262213973186563042994240857116359379907606001950938285454250989)
    requires !Cong(7237005577332262213973186563042994240857116359379907606001950938285454250989, r, 0)
    ensures ValidScalars(m) && m.r == r
    ensures m.l == 7237005577332262213973186563042994240857116359379907606001950938285454250989
  {
    hide Chain, P2, ChainExponent, Cong, IsPrime;
    ChainNone();
    ChainRows0To9();
    ChainRows9To18();
    ChainRows18To27();
    assert Chain()[..27] == Chain();
    var i := InverseExists(7237005577332262213973186563042994240857116359379907606001950938285454250989, r);
    m := Scalars(7237005577332262213973186563042994240857116359379907606001950938285454250989, r, i);
  }

  lemma ChainPowers()
    ensures P2(2) == 4 && P2(3) == 8 && P2(4) == 16 && P2(5) == 32 && P2(6) == 64 && P2(10) == 1024
    ensures P2(126) == 0x40000000000000000000000000000000
  {
    hide P2;
    SmallPowers();
    P2Add(2, 8);
    P2Add(6, 10);
    P2Add(16, 16);
    P2Add(32, 32);
    P2Add(16, 32);
    P2Add(48, 10);
    P2Add(58, 4);
    P2Add(64, 62);
  }

  // ---------- scalar inversion ----------

  function Prod(s: seq<int>, m: nat): int
    requires m <= |s|
  {
    if m == 0 then 1 else Prod(s, m - 1) * s[m - 1]
  }

  ghost predicate AllNonzero(l: int, s: seq<int>, m: nat)
    requires m <= |s|
  {
    forall i :: 0 <= i < m ==> !Cong(l, s[i], 0)
  }

  /** A product vanishes exactly when a factor does. */
  lemma {:induction false} ProdZero(l: int, s: seq<int>, m: nat)
    requires IsPrime(l) && m <= |s|
    ensures Cong(l, Prod(s, m), 0) <==> !AllNonzero(l, s, m)
    decreases m
  {
    hide Cong;
    if m == 0 {
      SmallIsNonzero(l, 1);
    } else {
      ProdZero(l, s, m - 1);
      NonzeroProduct(l, Prod(s, m - 1), s[m - 1]);
    }
  }

  /** From Montgomery form to the plain inverse; zero gives zero. */
  method InvertFromMontgomery(m: Scalars, x: int, ghost b: int) returns (y: int)
    requires ValidScalars(m) && MontForm(m, x, b)
    ensures 0 <= y < m.l
    ensures !Cong(m.l, b, 0) ==> Cong(m.l, b * y, 1)
    ensures Cong(m.l, b, 0) ==> Cong(m.l, y, 0)
  {
    var z := MontgomeryInvert(m, x, b);
    ghost var e := Pow(b, m.l - 2);
    FermatInverse(m.l, b);
    hide ChainExponent, Cong, IsPrime, Pow;
    FromMontgomeryForm(m, z, e);
    y := FromMontgomery(m, z);
    CongRefl(m.l, b);
    CongMul(m.l, b, b, y, e);
    if !Cong(m.l, b, 0) {
      CongTrans(m.l, b * y, b * e, 1);
    } else {
      CongTrans(m.l, y, e, 0);
    }
  }

  /** The plain inversion of a scalar. */
  method ScalarInvert(m: Scalars, x: int) returns (y: int)
    requires ValidScalars(m)
    ensures 0 <= y < m.l
    ensures !Cong(m.l, x, 0) ==> Cong(m.l, x * y, 1)
    ensures Cong(m.l, x, 0) ==> Cong(m.l, y, 0)
    ensures m.l > 2 && Cong(m.l, y, ShuffleArgument.ScalarInvert(m.l, x))
  {
    AsMontgomeryForm(m, x);
    y := InvertFromMontgomery(m, AsMontgomery(m, x), x);
    InverseIsPower(m.l, x, y);
  }

  /** The chain's result is the power l - 2 by which the arguments of knowledge invert. */
  lemma InverseIsPower(l: int, x: int, y: int)
    requires IsPrime(l) && l > 2 && (if Cong(l, x, 0) then Cong(l, y, 0) else Cong(l, x * y, 1))
    ensures Cong(l, y, ShuffleArgument.ScalarInvert(l, x))
  {
    hide Cong, IsPrime;
    FermatInverse(l, x);
    var w := Pow(x, l - 2);
    if Cong(l, x, 0) {
      CongSym(l, w, 0);
      CongTrans(l, y, 0, w);
    } else {
      CongSym(l, x * w, 1);
      CongTrans(l, x * y, 1, x * w);
      Cancel(l, x, y, w);
    }
  }

  /** acc inverts the product of the first i inputs, or is zero if some input is. */
  ghost predicate AccInv(l: int, s: seq<int>, i: nat, acc: int)
    requires i <= |s|
  {
    if AllNonzero(l, s, |s|) then Cong(l, acc * Prod(s, i), 1) else Cong(l, acc, 0)
  }

  /** What becomes of entry i: its inverse, or zero if some input is zero. */
  ghost predicate IsScalarInverse(l: int, s: seq<int>, i: nat, y: int)
    requires i < |s|
  {
    0 <= y < l && if AllNonzero(l, s, |s|) then Cong(l, s[i] * y, 1) else y == 0
  }

  lemma StepNonzero(l: int, acc: int, q: int, x: int, tmp: int, y: int)
    requires Cong(l, acc * (q * x), 1) && Cong(l, tmp, acc * x) && Cong(l, y, acc * q)
    ensures Cong(l, tmp * q, 1) && Cong(l, x * y, 1)
  {
    hide Cong;
    BackwardStep(l, acc, q, x);
    CongRefl(l, q);
    CongMul(l, tmp, acc * x, q, q);
    CongTrans(l, tmp * q, (acc * x) * q, 1);
    CongRefl(l, x);
    CongMul(l, x, x, y, acc * q);
    CongTrans(l, x * y, x * (acc * q), 1);
  }

  lemma StepZero(l: int, acc: int, q: int, tmp: int)
    requires Cong(l, acc, 0) && Cong(l, tmp, acc * q)
    ensures Cong(l, tmp, 0)
  {
    CongBy2(l, tmp, 0, tmp, acc * q, 1, acc, 0, q);
  }

  lemma ScalarStep(l: int, s: seq<int>, i: nat, acc: int, tmp: int, y: int)
    requires i < |s| && l > 0 && AccInv(l, s, i + 1, acc) && 0 <= y < l
    requires Cong(l, tmp, acc * s[i]) && Cong(l, y, acc * Prod(s, i))
    ensures AccInv(l, s, i, tmp) && IsScalarInverse(l, s, i, y)
  {
    ProdNext(s, i);
    hide Cong, Prod, AllNonzero;
    if AllNonzero(l, s, |s|) {
      StepNonzero(l, acc, Prod(s, i), s[i], tmp, y);
    } else {
      StepZero(l, acc, s[i], tmp);
      StepZero(l, acc, Prod(s, i), y);
      if y != 0 { SmallIsNonzero(l, y); }
    }
  }

  lemma ProdNext(s: seq<int>, i: nat)
    requires i < |s|
    ensures Prod(s, i + 1) == Prod(s, i) * s[i]
  {
  }

  /** Scratch holds the running products and the inputs themselves, in Montgomery form. */
  ghost predicate Prepared(m: Scalars, s: seq<int>, scratch: seq<int>, inputs: seq<int>, i: nat) {
    && |s| == |scratch| == |inputs| && i <= |s|
    && (forall j :: 0 <= j < i ==> MontForm(m, scratch[j], Prod(s, j)))
    && (forall j :: 0 <= j < i ==> MontForm(m, inputs[j], s[j]))
  }

  /** The forward pass. */
  method Accumulate(m: Scalars, inputs: array<int>, scratch: array<int>) returns (acc: int)
    requires ValidScalars(m) && scratch != inputs && scratch.Length == inputs.Length
    modifies inputs, scratch
    ensures Prepared(m, old(inputs[..]), scratch[..], inputs[..], inputs.Length)
    ensures MontForm(m, acc, Prod(old(inputs[..]), inputs.Length))
  {
    var n := inputs.Length;
    assert m.l > 2;
    hide ValidScalars, Cong, MontForm, MontgomeryMul, AsMontgomery, Prod;
    acc := AsMontgomery(m, 1);
    AsMontgomeryForm(m, 1);
    ghost var s := inputs[..];
    ProdNone(s);
    for i := 0 to n
      invariant MontForm(m, acc, Prod(s, i))
      invariant Prepared(m, s, scratch[..], inputs[..], i)
      invariant forall j :: i <= j < n ==> inputs[j] == s[j]
    {
      scratch[i] := acc;
      AsMontgomeryForm(m, inputs[i]);
      var tmp := AsMontgomery(m, inputs[i]);
      inputs[i] := tmp;
      MontgomeryMulForms(m, acc, Prod(s, i), tmp, s[i]);
      ProdNext(s, i);
      acc := MontgomeryMul(m, acc, tmp);
    }
  }

  /** The backward pass. */
  method Unwind(m: Scalars, inputs: array<int>, scratch: array<int>, start: int, ghost s: seq<int>)
    requires ValidScalars(m) && scratch != inputs && scratch.Length == inputs.Length == |s|
    requires Prepared(m, s, scratch[..], inputs[..], inputs.Length) && AccInv(m.l, s, |s|, start)
    modifies inputs
    ensures forall i :: 0 <= i < |s| ==> IsScalarInverse(m.l, s, i, inputs[i])
  {
    assert m.l > 2;
    hide ValidScalars, Cong, MontForm, MontgomeryMul, Prod, IsScalarInverse, AccInv;
    var acc := start;
    for i := inputs.Length downto 0
      invariant AccInv(m.l, s, i, acc)
      invariant Prepared(m, s, scratch[..], inputs[..], i)
      invariant forall j :: i <= j < |s| ==> IsScalarInverse(m.l, s, j, inputs[j])
    {
      var tmp := MontgomeryMul(m, acc, inputs[i]);
      var y := MontgomeryMul(m, acc, scratch[i]);
      BackwardProducts(m, s, i, acc, inputs[i], scratch[i]);
      ScalarStep(m.l, s, i, acc, tmp, y);
      inputs[i] := y;
      acc := tmp;
    }
  }

  /** Every entry becomes its inverse and the product of all inverses is returned; a zero
      among the inputs turns everything to zero. */
  method ScalarBatchInvert(m: Scalars, inputs: array<int>) returns (ret: int)
    requires ValidScalars(m)
    modifies inputs
    ensures forall i :: 0 <= i < inputs.Length ==> IsScalarInverse(m.l, old(inputs[..]), i, inputs[i])
    ensures IsProductInverse(m.l, old(inputs[..]), ret)
  {
    ghost var s := inputs[..];
    assert IsPrime(m.l);
    var one := AsMontgomery(m, 1);
    hide ValidScalars, IsPrime, Cong, MontForm, Prod, IsScalarInverse, AccInv, IsProductInverse, AsMontgomery;
    var scratch := new int[inputs.Length](_ => one);
    var acc := Accumulate(m, inputs, scratch);
    acc := InvertFromMontgomery(m, acc, Prod(s, |s|));
    AccStart(m.l, s, acc);
    ret := acc;
    Unwind(m, inputs, scratch, acc, s);
  }

  /** The product of all inverses, or zero. */
  ghost predicate IsProductInverse(l: int, s: seq<int>, ret: int) {
    0 <= ret < l && if AllNonzero(l, s, |s|) then Cong(l, ret * Prod(s, |s|), 1) else ret == 0
  }

  lemma BackwardProducts(m: Scalars, s: seq<int>, i: nat, acc: int, input: int, prefix: int)
    requires ValidScalars(m) && i < |s| && MontForm(m, input, s[i]) && MontForm(m, prefix, Prod(s, i))
    ensures Cong(m.l, MontgomeryMul(m, acc, input), acc * s[i])
    ensures Cong(m.l, MontgomeryMul(m, acc, prefix), acc * Prod(s, i))
    ensures 0 <= MontgomeryMul(m, acc, prefix) < m.l
  {
    CongRefl(m.l, acc);
    MontgomeryMulForms(m, acc, acc, input, s[i]);
    MontgomeryMulForms(m, acc, acc, prefix, Prod(s, i));
  }

  lemma ProdNone(s: seq<int>)
    ensures Prod(s, 0) == 1
  {
  }

  lemma AccStart(l: int, s: seq<int>, acc: int)
    requires IsPrime(l) && 0 <= acc < l
    requires !Cong(l, Prod(s, |s|), 0) ==> Cong(l, Prod(s, |s|) * acc, 1)
    requires Cong(l, Prod(s, |s|), 0) ==> Cong(l, acc, 0)
    ensures AccInv(l, s, |s|, acc) && IsProductInverse(l, s, acc)
  {
    hide Cong, Prod;
    ProdZero(l, s, |s|);
    assert acc * Prod(s, |s|) == Prod(s, |s|) * acc;
    if !AllNonzero(l, s, |s|) && acc != 0 { SmallIsNonzero(l, acc); }
  }
}
