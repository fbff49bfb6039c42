/** The field-switching conversion check (swanky-dev/diet-mac-and-cheese/src/edabits.rs). A
    committed element is its value: opening reveals it, and zero and multiplication checks
    accept exactly the relations they name. Field elements are integers standing for
    residues modulo the prime p. */
module Edabits {
  import opened Wrappers
  import opened Arith
  import opened Powers

  datatype Edabit = Edabit(bits: seq<bool>, value: int)
  datatype Dabit = Dabit(bit: bool, value: int)

  /** f2_to_fe. */
  function Bit(b: bool): nat {
    if b then 1 else 0
  }

  /** The integer with these little-endian bits. */
  function BitsInt(b: seq<bool>): int {
    if b == [] then 0 else BitsInt(b[..|b| - 1]) + Bit(b[|b| - 1]) * P2(|b| - 1)
  }

  lemma BitsSnoc(b: seq<bool>, i: nat)
    requires i < |b|
    ensures BitsInt(b[..i + 1]) == BitsInt(b[..i]) + Bit(b[i]) * P2(i)
  {
    assert b[..i + 1][..i] == b[..i];
  }

  lemma BitsPush(b: seq<bool>, z: bool)
    ensures BitsInt(b + [z]) == BitsInt(b) + Bit(z) * P2(|b|)
  {
    assert (b + [z])[..|b|] == b;
  }

  lemma {:induction false} BitsRange(b: seq<bool>)
    ensures 0 <= BitsInt(b) < P2(|b|)
    decreases |b|
  {
    if b == [] {
      assert P2(0) == 1;
    } else {
      BitsRange(b[..|b| - 1]);
      assert P2(|b|) == 2 * P2(|b| - 1);
    }
  }

  // ---------- conversions ----------

  /** Doubling and adding from the top bit down gives the integer. */
  method ConvertBitsToField(v: seq<bool>) returns (res: int)
    ensures res == BitsInt(v)
  {
    res := 0;
    var i := |v|;
    assert v[..|v|] == v;
    while i > 0
      invariant 0 <= i <= |v|
      invariant BitsInt(v[..i]) + P2(i) * res == BitsInt(v)
    {
      i := i - 1;
      HornerStep(v, i, res);
      res := res + res;
      res := res + Bit(v[i]);
    }
    assert v[..0] == [];
    assert P2(0) == 1;
  }

  lemma HornerStep(v: seq<bool>, i: nat, res: int)
    requires i < |v|
    ensures BitsInt(v[..i]) + P2(i) * (res + res + Bit(v[i])) == BitsInt(v[..i + 1]) + P2(i + 1) * res
  {
    BitsSnoc(v, i);
    var p := P2(i);
    assert P2(i + 1) == 2 * p;
    hide P2;
    assert p * (res + res + Bit(v[i])) == (2 * p) * res + Bit(v[i]) * p;
  }

  method PowerTwo(m: nat) returns (res: int)
    ensures res == P2(m)
  {
    res := 1;
    for i := 0 to m
      invariant res == P2(i)
    {
      res := res + res;
    }
  }

  // ---------- ripple-carry addition ----------

  function Xor(a: bool, b: bool): bool {
    a != b
  }

  /** One full adder as the code computes it, with a single multiplication. */
  function AdderSum(x: bool, y: bool, c: bool): bool {
    Xor(Xor(x, c), y)
  }

  function AdderCarry(x: bool, y: bool, c: bool): bool {
    Xor(c, Xor(x, c) && Xor(y, c))
  }

  lemma FullAdder(x: bool, y: bool, c: bool)
    ensures Bit(AdderSum(x, y, c)) + 2 * Bit(AdderCarry(x, y, c)) == Bit(x) + Bit(y) + Bit(c)
  {
  }

  /** The state of one lane after i bits: the sum so far plus the carry is the sum of the
      prefixes and of the starting carry. */
  ghost predicate LaneInv(x: seq<bool>, y: seq<bool>, start: bool, z: seq<bool>, c: bool, i: nat) {
    && i <= |x| && i <= |y| && |z| == i
    && BitsInt(z) + Bit(c) * P2(i) == BitsInt(x[..i]) + BitsInt(y[..i]) + Bit(start)
  }

  lemma AdderWeights(s: int, k: int, a: int, b: int, d: int, p: int)
    requires s + 2 * k == a + b + d
    ensures s * p + k * (2 * p) == a * p + b * p + d * p
  {
    assert (s + 2 * k) * p == s * p + 2 * (k * p) && (a + b + d) * p == a * p + b * p + d * p;
  }

  lemma LaneStep(x: seq<bool>, y: seq<bool>, start: bool, z: seq<bool>, c: bool, i: nat)
    requires LaneInv(x, y, start, z, c, i) && i < |x| && i < |y|
    ensures LaneInv(x, y, start, z + [AdderSum(x[i], y[i], c)], AdderCarry(x[i], y[i], c), i + 1)
    ensures c == Carry(x[..i], y[..i], start)
  {
    BitsSnoc(x, i);
    BitsSnoc(y, i);
    BitsPush(z, AdderSum(x[i], y[i], c));
    FullAdder(x[i], y[i], c);
    P2Next(i);
    BitsRange(z);
    hide P2, BitsInt, AdderSum, AdderCarry, Bit;
    AdderWeights(Bit(AdderSum(x[i], y[i], c)), Bit(AdderCarry(x[i], y[i], c)), Bit(x[i]), Bit(y[i]), Bit(c), P2(i));
  }

  datatype Sum = Sum(bits: seq<bool>, carry: bool)

  /** The exact sum of two bit strings of length m and a starting carry: m bits and a carry. */
  ghost predicate IsSum(x: seq<bool>, y: seq<bool>, start: bool, s: Sum) {
    |s.bits| == |x| && BitsInt(s.bits) + Bit(s.carry) * P2(|x|) == BitsInt(x) + BitsInt(y) + Bit(start)
  }

  /** The carry out of adding two bit strings of the same length and a starting carry. */
  function Carry(x: seq<bool>, y: seq<bool>, start: bool): bool {
    BitsInt(x) + BitsInt(y) + Bit(start) >= P2(|x|)
  }

  ghost predicate SameWidth(batch: seq<Edabit>, m: nat) {
    forall n :: 0 <= n < |batch| ==> |batch[n].bits| == m
  }

  /** What the prover commits while a batch is added: a starting carry for every lane, and for
      every bit the products of all lanes. */
  datatype Adder = Adder(start: seq<bool>, products: seq<seq<bool>>)

  ghost predicate AdderShaped(a: Adder, lanes: nat, m: nat) {
    |a.start| == lanes && |a.products| == m && forall i :: 0 <= i < m ==> |a.products[i]| == lanes
  }

  /** The product that belongs to bit i of a lane. */
  function RightProduct(x: seq<bool>, y: seq<bool>, start: bool, i: nat): bool
    requires i < |x| && i < |y|
  {
    var c := Carry(x[..i], y[..i], start);
    Xor(x[i], c) && Xor(y[i], c)
  }

  /** The products committed for the first m bits of lane n are the right ones. */
  ghost predicate LaneRight(x: seq<bool>, y: seq<bool>, a: Adder, n: nat, m: nat)
    requires n < |a.start| && m <= |x| && m <= |y|
  {
    forall i :: 0 <= i < m && i < |a.products| && n < |a.products[i]| ==>
      a.products[i][n] == RightProduct(x, y, a.start[n], i)
  }

  ghost predicate AllRight(x: seq<Edabit>, y: seq<Edabit>, a: Adder, m: nat)
    requires |x| == |y| == |a.start| && forall n :: 0 <= n < |x| ==> m <= |x[n].bits| && m <= |y[n].bits|
  {
    forall n :: 0 <= n < |x| ==> LaneRight(x[n].bits, y[n].bits, a, n, m)
  }

  /** The products handed to the multiplication check. */
  predicate TriplesHold(triples: seq<(bool, bool, bool)>) {
    forall j :: 0 <= j < |triples| ==> triples[j].2 == (triples[j].0 && triples[j].1)
  }

  /** Every lane has i bits of its sum and the carry out of them. */
  ghost predicate LanesInv(x: seq<Edabit>, y: seq<Edabit>, start: seq<bool>, z: seq<seq<bool>>, c: seq<bool>, i: nat,
                           lo: nat, hi: nat) {
    && |x| == |y| == |start| == |z| == |c|
    && forall n :: lo <= n < hi && n < |x| ==> LaneInv(x[n].bits, y[n].bits, start[n], z[n], c[n], i)
  }

  /** The products committed for bit i of the first lanes are the right ones. */
  ghost predicate LayerRight(x: seq<Edabit>, y: seq<Edabit>, a: Adder, i: nat, lanes: nat)
    requires lanes <= |x| == |y| == |a.start| && i < |a.products| && |a.products[i]| == |x|
    requires forall n :: 0 <= n < |x| ==> i < |x[n].bits| && i < |y[n].bits|
  {
    forall n :: 0 <= n < lanes ==> a.products[i][n] == RightProduct(x[n].bits, y[n].bits, a.start[n], i)
  }

  /** Bit i of every lane; new triples are appended. */
  method AddLayer(x: seq<Edabit>, y: seq<Edabit>, a: Adder, z: array<seq<bool>>, ci: array<bool>, i: nat, m: nat)
    returns (triples: seq<(bool, bool, bool)>)
    requires i < m && SameWidth(x, m) && SameWidth(y, m) && |x| == |y| && AdderShaped(a, |x|, m)
    requires z.Length == ci.Length == |x|
    modifies z, ci
    ensures |triples| == |x|
    ensures old(LanesInv(x, y, a.start, z[..], ci[..], i, 0, |x|)) ==>
      (TriplesHold(triples) <==> LayerRight(x, y, a, i, |x|))
    ensures old(LanesInv(x, y, a.start, z[..], ci[..], i, 0, |x|)) && TriplesHold(triples) ==>
      LanesInv(x, y, a.start, z[..], ci[..], i + 1, 0, |x|)
  {
    triples := [];
    ghost var good := LanesInv(x, y, a.start, z[..], ci[..], i, 0, |x|);
    hide LaneInv, RightProduct, TriplesHold;
    assert TriplesHold([]);
    for n := 0 to |x|
      invariant |triples| == n
      invariant good ==> LanesInv(x, y, a.start, z[..], ci[..], i, n, |x|)
      invariant good ==> (TriplesHold(triples) <==> LayerRight(x, y, a, i, n))
      invariant good && TriplesHold(triples) ==> LanesInv(x, y, a.start, z[..], ci[..], i + 1, 0, n)
    {
      var xi, yi, c := x[n].bits[i], y[n].bits[i], ci[n];
      var and1 := Xor(xi, c);
      var and2 := Xor(yi, c);
      var andRes := a.products[i][n];
      if good { LaneNext(x[n].bits, y[n].bits, a.start[n], z[n], c, i, andRes); }
      TriplesAppend(triples, [(and1, and2, andRes)]);
      OneTriple(and1, and2, andRes);
      ci[n] := Xor(c, andRes);
      z[n] := z[n] + [Xor(and1, yi)];
      triples := triples + [(and1, and2, andRes)];
    }
  }

  lemma OneTriple(a: bool, b: bool, c: bool)
    ensures TriplesHold([(a, b, c)]) <==> c == (a && b)
  {
    assert [(a, b, c)][0].2 == c;
  }

  /** In a lane that is right so far the triple of bit i holds exactly when the product is the
      right one, and then the lane stays right. */
  lemma LaneNext(x: seq<bool>, y: seq<bool>, start: bool, z: seq<bool>, c: bool, i: nat, product: bool)
    requires LaneInv(x, y, start, z, c, i) && i < |x| && i < |y|
    ensures product == (Xor(x[i], c) && Xor(y[i], c)) <==> product == RightProduct(x, y, start, i)
    ensures product == RightProduct(x, y, start, i) ==>
      LaneInv(x, y, start, z + [Xor(Xor(x[i], c), y[i])], Xor(c, product), i + 1)
  {
    hide LaneInv, Carry;
    LaneStep(x, y, start, z, c, i);
  }

  /** All bits of every lane. */
  method AddLayers(x: seq<Edabit>, y: seq<Edabit>, a: Adder, z: array<seq<bool>>, ci: array<bool>, m: nat)
    returns (triples: seq<(bool, bool, bool)>)
    requires SameWidth(x, m) && SameWidth(y, m) && |x| == |y| && AdderShaped(a, |x|, m)
    requires z.Length == ci.Length == |x| && LanesInv(x, y, a.start, z[..], ci[..], 0, 0, |x|)
    modifies z, ci
    ensures |triples| == |x| * m && (TriplesHold(triples) <==> AllRight(x, y, a, m))
    ensures TriplesHold(triples) ==> LanesInv(x, y, a.start, z[..], ci[..], m, 0, |x|)
  {
    triples := [];
    assert TriplesHold([]) && AllRight(x, y, a, 0);
    hide LanesInv, LayerRight, TriplesHold, AllRight;
    for i := 0 to m
      invariant |triples| == |x| * i
      invariant TriplesHold(triples) <==> AllRight(x, y, a, i)
      invariant TriplesHold(triples) ==> LanesInv(x, y, a.start, z[..], ci[..], i, 0, |x|)
    {
      var layer := AddLayer(x, y, a, z, ci, i, m);
      TriplesAppend(triples, layer);
      NextLayer(x, y, a, i, m);
      triples := triples + layer;
      assert |x| * (i + 1) == |x| * i + |x|;
    }
  }

  /** Adds every pair of the batch, all lanes advancing bit by bit, with the starting carries and
      products that the prover commits. The multiplication check holds exactly when every product
      is the right one, and then every sum is exact up to its starting carry. Batches of
      different size are refused. */
  method BitAddCarry(x: seq<Edabit>, y: seq<Edabit>, a: Adder)
    returns (r: Result<seq<Sum>>, triples: seq<(bool, bool, bool)>)
    requires |x| > 0 && SameWidth(x, |x[0].bits|) && SameWidth(y, |x[0].bits|) && AdderShaped(a, |x|, |x[0].bits|)
    ensures r.Ok? <==> |x| == |y|
    ensures r.Ok? ==> |r.value| == |x| && |triples| == |x| * |x[0].bits|
    ensures r.Ok? ==> (TriplesHold(triples) <==> AllRight(x, y, a, |x[0].bits|))
    ensures r.Ok? && TriplesHold(triples) ==>
      forall n :: 0 <= n < |x| ==> IsSum(x[n].bits, y[n].bits, a.start[n], r.value[n])
  {
    triples := [];
    var num := |x|;
    if num != |y| { return Err, []; }
    var m := |x[0].bits|;
    var ci := new bool[num](n requires 0 <= n < num => a.start[n]);
    var z := new seq<bool>[num](_ => []);
    LanesStart(x, y, a.start, z[..], ci[..]);
    hide LanesInv, IsSum, TriplesHold, AllRight;
    triples := AddLayers(x, y, a, z, ci, m);
    var res := Collect(x, y, a.start, z[..], ci[..], m);
    r := Ok(res);
  }

  /** The sums and carries of all lanes. */
  method Collect(ghost x: seq<Edabit>, ghost y: seq<Edabit>, ghost start: seq<bool>, z: seq<seq<bool>>, c: seq<bool>,
                 ghost m: nat) returns (res: seq<Sum>)
    requires |z| == |c| == |x| == |y| == |start| && SameWidth(x, m) && SameWidth(y, m)
    ensures |res| == |z|
    ensures LanesInv(x, y, start, z, c, m, 0, |x|) ==>
      forall n :: 0 <= n < |x| ==> IsSum(x[n].bits, y[n].bits, start[n], res[n])
  {
    hide LaneInv, IsSum;
    res := [];
    for i := 0 to |z|
      invariant |res| == i
      invariant LanesInv(x, y, start, z, c, m, 0, |x|) ==>
        forall n :: 0 <= n < i ==> IsSum(x[n].bits, y[n].bits, start[n], res[n])
    {
      if LanesInv(x, y, start, z, c, m, 0, |x|) { LaneEnd(x[i].bits, y[i].bits, start[i], z[i], c[i]); }
      res := res + [Sum(z[i], c[i])];
    }
  }

  lemma TriplesAppend(s: seq<(bool, bool, bool)>, t: seq<(bool, bool, bool)>)
    ensures TriplesHold(s + t) <==> TriplesHold(s) && TriplesHold(t)
  {
    if TriplesHold(s + t) {
      assert forall j :: 0 <= j < |s| ==> s[j] == (s + t)[j];
      assert forall j :: 0 <= j < |t| ==> t[j] == (s + t)[|s| + j];
    }
  }

  lemma NextLayer(x: seq<Edabit>, y: seq<Edabit>, a: Adder, i: nat, m: nat)
    requires i < m && SameWidth(x, m) && SameWidth(y, m) && |x| == |y| && AdderShaped(a, |x|, m)
    ensures AllRight(x, y, a, i + 1) <==> AllRight(x, y, a, i) && LayerRight(x, y, a, i, |x|)
  {
    hide RightProduct;
    forall n | 0 <= n < |x|
      ensures LaneRight(x[n].bits, y[n].bits, a, n, i + 1) <==>
        LaneRight(x[n].bits, y[n].bits, a, n, i) && a.products[i][n]
          == RightProduct(x[n].bits, y[n].bits, a.start[n], i)
    {
    }
  }

  lemma LanesStart(x: seq<Edabit>, y: seq<Edabit>, start: seq<bool>, z: seq<seq<bool>>, c: seq<bool>)
    requires |x| == |y| == |start| == |z| && c == start && forall n :: 0 <= n < |z| ==> z[n] == []
    ensures LanesInv(x, y, start, z, c, 0, 0, |x|)
  {
    forall n | 0 <= n < |x| ensures LaneInv(x[n].bits, y[n].bits, start[n], [], start[n], 0) {
      assert x[n].bits[..0] == [] && y[n].bits[..0] == [];
    }
  }

  lemma LaneEnd(x: seq<bool>, y: seq<bool>, start: bool, z: seq<bool>, c: bool)
    requires |x| == |y| && LaneInv(x, y, start, z, c, |x|)
    ensures IsSum(x, y, start, Sum(z, c))
  {
    assert x[..|x|] == x && y[..|y|] == y;
  }

  /** The products of a prover that adds without a starting carry. */
  function HonestAdder(x: seq<Edabit>, y: seq<Edabit>, m: nat): (a: Adder)
    requires |x| == |y| && forall n :: 0 <= n < |x| ==> m <= |x[n].bits| && m <= |y[n].bits|
    ensures AdderShaped(a, |x|, m) && AllRight(x, y, a, m) && forall n :: 0 <= n < |x| ==> !a.start[n]
  {
    Adder(seq(|x|, _ => false),
          seq(m, i requires 0 <= i < m =>
            seq(|x|, n requires 0 <= n < |x| => RightProduct(x[n].bits, y[n].bits, false, i))))
  }

  lemma {:induction false} BitsInjective(b: seq<bool>, c: seq<bool>)
    requires |b| == |c| && BitsInt(b) == BitsInt(c)
    ensures b == c
    decreases |b|
  {
    if b != [] {
      var k := |b| - 1;
      BitsRange(b[..k]);
      BitsRange(c[..k]);
      hide P2;
      TopBitIs(BitsInt(b[..k]), b[k], BitsInt(c[..k]), c[k], P2(k));
      BitsInjective(b[..k], c[..k]);
      assert b == b[..k] + [b[k]] && c == c[..k] + [c[k]];
    }
  }

  lemma TopBitIs(x: int, b: bool, y: int, c: bool, p: int)
    requires 0 <= x < p && 0 <= y < p && x + Bit(b) * p == y + Bit(c) * p
    ensures b == c && x == y
  {
  }

  /** The exact sum is unique: its carry is a function of the operands, and two such sums are
      equal bit for bit. */
  lemma SumIsUnique(x: seq<bool>, y: seq<bool>, start: bool, s: Sum, t: Sum)
    requires IsSum(x, y, start, s) && IsSum(x, y, start, t)
    ensures s == t && s.carry == Carry(x, y, start)
  {
    BitsRange(s.bits);
    BitsRange(t.bits);
    hide BitsInt, P2;
    TopBitIs(BitsInt(s.bits), s.carry, BitsInt(t.bits), t.carry, P2(|x|));
    BitsInjective(s.bits, t.bits);
  }

  // ---------- bits to field elements ----------

  /** The difference between a dabit's field value and its bit. */
  function DabitError(r: Dabit): int {
    r.value - Bit(r.bit)
  }

  function EdabitError(c: Edabit): int {
    c.value - BitsInt(c.bits)
  }

  /** The opened bit decides whether r's value is added or subtracted. */
  function ConvertedBit(r: Dabit, x: bool): int {
    var c := Xor(r.bit, x);
    if c then Bit(c) + -r.value else Bit(c) + r.value
  }

  /** The conversion is off by exactly the dabit's error, up to sign. */
  lemma ConvertedBitError(r: Dabit, x: bool)
    ensures ConvertedBit(r, x) == Bit(x) + (if Xor(r.bit, x) then -DabitError(r) else DabitError(r))
  {
  }

  /** It is right exactly when the dabit is. */
  lemma ConvertedBitCorrect(p: int, r: Dabit, x: bool)
    ensures Cong(p, ConvertedBit(r, x), Bit(x)) <==> Cong(p, r.value, Bit(r.bit))
  {
    ConvertedBitError(r, x);
    var a, b := ConvertedBit(r, x), Bit(x);
    var k := if Xor(r.bit, x) then -1 else 1;
    if Cong(p, a, b) { CongBy(p, r.value, Bit(r.bit), a, b, k); }
    if Cong(p, r.value, Bit(r.bit)) { CongBy(p, a, b, r.value, Bit(r.bit), k); }
  }

  method ConvertBit2Field(r: seq<Dabit>, x: seq<bool>) returns (shown: seq<bool>, xm: seq<int>)
    requires |r| == |x|
    ensures |shown| == |xm| == |r|
    ensures forall i :: 0 <= i < |r| ==> shown[i] == Xor(r[i].bit, x[i]) && xm[i] == ConvertedBit(r[i], x[i])
  {
    shown, xm := [], [];
    for i := 0 to |r|
      invariant |shown| == i && forall j :: 0 <= j < i ==> shown[j] == Xor(r[j].bit, x[j])
    {
      shown := shown + [Xor(r[i].bit, x[i])];
    }
    for i := 0 to |r|
      invariant |xm| == i && forall j :: 0 <= j < i ==> xm[j] == ConvertedBit(r[j], x[j])
    {
      var c := shown[i];
      var beq, bneq := Bit(c) + -r[i].value, Bit(c) + r[i].value;
      xm := xm + [if c then beq else bneq];
    }
  }

  // ---------- the conversion loop ----------

  /** What reaches the zero check: the two errors, less the starting carry of the addition, less
      2^m times the dabit's error, whose sign is decided by the carry of the two bit strings. */
  function CheckedValue(c: Edabit, r: Edabit, d: Dabit, start: bool): int {
    EdabitError(c) + EdabitError(r) - Bit(start)
      - P2(|c.bits|) * (if Xor(d.bit, Carry(c.bits, r.bits, start)) then -DabitError(d) else DabitError(d))
  }

  lemma CheckedValueIs(c: Edabit, r: Edabit, d: Dabit, start: bool, s: Sum)
    requires |c.bits| == |r.bits| && IsSum(c.bits, r.bits, start, s)
    ensures c.value + r.value + ConvertedBit(d, s.carry) * -P2(|c.bits|) + -BitsInt(s.bits)
      == CheckedValue(c, r, d, start)
  {
    ConvertedBitError(d, s.carry);
    SumIsUnique(c.bits, r.bits, start, s, s);
    hide P2, BitsInt, ConvertedBit, DabitError, Carry;
    var k := if Xor(d.bit, s.carry) then -DabitError(d) else DabitError(d);
    SignedTerm(Bit(s.carry), k, P2(|c.bits|));
  }

  lemma SignedTerm(b: int, k: int, p: int)
    ensures (b + k) * -p == -(b * p) - p * k
  {
  }

  /** Steps a to d: e' = c + r - 2^m e, with e the converted carry. */
  method Recombine(ed: seq<Edabit>, r: seq<Edabit>, dabits: seq<Dabit>, sums: seq<Sum>) returns (ePrime: seq<int>)
    requires |ed| > 0 && |r| == |ed| == |dabits| == |sums|
    ensures |ePrime| == |ed| && forall i :: 0 <= i < |ed| ==>
      ePrime[i] == ed[i].value + r[i].value + ConvertedBit(dabits[i], sums[i].carry) * -P2(|ed[0].bits|)
  {
    hide ConvertedBit, P2;
    var n := |ed|;
    var powerTwo := PowerTwo(|ed[0].bits|);
    var carries := [];
    for i := 0 to n
      invariant |carries| == i && forall j :: 0 <= j < i ==> carries[j] == sums[j].carry
    {
      carries := carries + [sums[i].carry];
    }
    var _, em := ConvertBit2Field(dabits, carries);
    ePrime := [];
    for i := 0 to n
      invariant |ePrime| == i
      invariant forall j :: 0 <= j < i ==> ePrime[j] == ed[j].value + r[j].value + em[j] * -powerTwo
    {
      ePrime := ePrime + [ed[i].value + r[i].value + em[i] * -powerTwo];
    }
  }

  /** The loop accepts exactly when the products of the addition are right and every checked
      value vanishes. */
  method ConvLoop(p: int, ed: seq<Edabit>, r: seq<Edabit>, dabits: seq<Dabit>, a: Adder)
    returns (zs: seq<int>, ok: bool)
    requires p > 0 && |ed| > 0 && |r| == |ed| == |dabits|
    requires SameWidth(ed, |ed[0].bits|) && SameWidth(r, |ed[0].bits|) && AdderShaped(a, |ed|, |ed[0].bits|)
    ensures AllRight(ed, r, a, |ed[0].bits|) ==>
      |zs| == |ed| && forall i :: 0 <= i < |ed| ==> zs[i] == CheckedValue(ed[i], r[i], dabits[i], a.start[i])
    ensures ok <==> AllRight(ed, r, a, |ed[0].bits|) && forall i :: 0 <= i < |zs| ==> Cong(p, zs[i], 0)
  {
    hide P2, BitsInt, ConvertedBit, CheckedValue, Cong, IsSum, LaneRight;
    var e, triples := BitAddCarry(ed, r, a);
    if !TriplesHold(triples) { return [], false; }
    hide TriplesHold;
    var ePrime := Recombine(ed, r, dabits, e.value);
    zs, ok := [], true;
    for i := 0 to |ed|
      invariant |zs| == i
      invariant forall j :: 0 <= j < i ==> zs[j] == CheckedValue(ed[j], r[j], dabits[j], a.start[j])
      invariant ok <==> forall j :: 0 <= j < i ==> Cong(p, zs[j], 0)
    {
      var sum := ConvertBitsToField(e.value[i].bits);
      CheckedValueIs(ed[i], r[i], dabits[i], a.start[i], e.value[i]);
      var z := -sum + ePrime[i];
      zs := zs + [z];
      ok := ok && Eq(p, z, 0);
    }
  }

  /** With a correct dabit the checked value is the sum of the two errors less the starting
      carry, so the check accepts exactly when they cancel. */
  lemma CheckedValueWithCorrectDabit(p: int, c: Edabit, r: Edabit, d: Dabit, start: bool)
    requires Cong(p, d.value, Bit(d.bit))
    ensures Cong(p, CheckedValue(c, r, d, start), EdabitError(c) + EdabitError(r) - Bit(start))
    ensures Cong(p, CheckedValue(c, r, d, start), 0) <==> Cong(p, EdabitError(c), Bit(start) - EdabitError(r))
  {
    hide P2, BitsInt, Cong, Carry, EdabitError;
    var k, s, b := P2(|c.bits|), Xor(d.bit, Carry(c.bits, r.bits, start)), Bit(start);
    var x, y, v := EdabitError(c), EdabitError(r), CheckedValue(c, r, d, start);
    CongBy(p, v, x + y - b, d.value, Bit(d.bit), if s then k else -k);
    if Cong(p, v, 0) { CongBy2(p, x, b - y, v, x + y - b, -1, v, 0, 1); }
    if Cong(p, x, b - y) { CongBy2(p, v, 0, v, x + y - b, 1, x, b - y, 1); }
  }

  ghost predicate IsCorrect(p: int, r: Edabit) {
    Cong(p, r.value, BitsInt(r.bits))
  }

  lemma ErrorIsZero(p: int, c: Edabit)
    ensures IsCorrect(p, c) <==> Cong(p, EdabitError(c), 0)
  {
    if IsCorrect(p, c) { CongBy(p, EdabitError(c), 0, c.value, BitsInt(c.bits), 1); }
    if Cong(p, EdabitError(c), 0) { CongBy(p, c.value, BitsInt(c.bits), EdabitError(c), 0, 1); }
  }
}
