/** The faulty-dabit test (swanky-dev/diet-mac-and-cheese/src/edabits.rs): masked sums of
    randomly selected dabits are opened over the field and over bits, and their parities
    compared. Values and masks are whatever the prover committed. */
module FaultyDabits {
  import opened Wrappers
  import opened Arith
  import opened Powers
  import opened Edabits

  const SecurityParameter: nat := 38

  // ---------- parameters ----------

  /** The position of the top bit of x > 0. */
  function Log2Floor(x: nat): nat
    requires x > 0
  {
    if x == 1 then 0 else 1 + Log2Floor(x / 2)
  }

  lemma {:induction false} Log2FloorBounds(x: nat)
    requires x > 0
    ensures P2(Log2Floor(x)) <= x < P2(Log2Floor(x) + 1)
  {
    if x == 1 {
      P2Next(0);
    } else {
      Log2FloorBounds(x / 2);
      var k := Log2Floor(x / 2);
      hide P2;
      P2Next(k);
      P2Next(k + 1);
    }
  }

  function Gamma(n: nat): nat {
    Log2Floor(n + 1) + 1
  }

  /** check_parameters: bits is the length of the field's bit decompositions. */
  predicate ParametersOk(n: nat, gamma: nat, bits: nat) {
    Log2Floor(n + 1) + gamma < bits - 1
  }

  /** gamma is the bit length of n + 1, and parameters are accepted when a field element has more
      than 2 gamma bits. */
  lemma ParametersAre(n: nat, bits: nat)
    ensures Gamma(n) >= 1 && P2(Gamma(n) - 1) <= n + 1 < P2(Gamma(n))
    ensures ParametersOk(n, Gamma(n), bits) <==> 2 * Gamma(n) < bits
  {
    Log2FloorBounds(n + 1);
  }

  /** The modulus has exactly this many bits. */
  ghost predicate HasBits(p: int, bits: nat) {
    bits >= 1 && P2(bits - 1) < p < P2(bits)
  }

  /** Accepted parameters leave room: n + 2^gamma stays below 2^(gamma+1) <= 2^(bits-1) < p. */
  lemma NoWraparound(n: nat, bits: nat, p: int)
    requires ParametersOk(n, Gamma(n), bits) && HasBits(p, bits)
    ensures n + P2(Gamma(n)) < P2(Gamma(n) + 1) <= P2(bits - 1) < p
  {
    Log2FloorBounds(n + 1);
    hide P2;
    var gamma := Gamma(n);
    P2Next(gamma);
    P2Mono(gamma + 1, bits - 1);
  }

  // ---------- sums ----------

  /** The sum of the selected entries: sum e_i v_i. */
  function Selected(v: seq<int>, e: seq<bool>): int
    requires |v| == |e|
  {
    if v == [] then 0 else Selected(v[..|v| - 1], e[..|v| - 1]) + v[|v| - 1] * Bit(e[|v| - 1])
  }

  /** The weighted sum of the masks: sum 2^j c_j. */
  function MaskSum(c: seq<int>): int {
    if c == [] then 0 else MaskSum(c[..|c| - 1]) + c[|c| - 1] * P2(|c| - 1)
  }

  function Values(ds: seq<Dabit>): (r: seq<int>)
    ensures |r| == |ds|
  {
    seq(|ds|, i requires 0 <= i < |ds| => ds[i].value)
  }

  function Bits(ds: seq<Dabit>): (r: seq<int>)
    ensures |r| == |ds|
  {
    seq(|ds|, i requires 0 <= i < |ds| => Bit(ds[i].bit))
  }

  lemma SelectedSnoc(v: seq<int>, e: seq<bool>, i: nat)
    requires |v| == |e| && i < |v|
    ensures Selected(v[..i + 1], e[..i + 1]) == Selected(v[..i], e[..i]) + v[i] * Bit(e[i])
  {
    assert v[..i + 1][..i] == v[..i] && e[..i + 1][..i] == e[..i];
  }

  lemma MaskSnoc(c: seq<int>, i: nat)
    requires i < |c|
    ensures MaskSum(c[..i + 1]) == MaskSum(c[..i]) + c[i] * P2(i)
  {
    assert c[..i + 1][..i] == c[..i];
  }

  /** The selected sum adds over concatenation, and one entry counts if it is selected. */
  lemma {:induction false} SelectedAdds(v: seq<int>, e: seq<bool>, v': seq<int>, e': seq<bool>, x: int, b: bool)
    requires |v| == |e| && |v'| == |e'|
    ensures Selected(v + v', e + e') == Selected(v, e) + Selected(v', e')
    ensures Selected([x], [b]) == if b then x else 0
    decreases |v'|
  {
    if v' == [] {
      assert v + v' == v && e + e' == e;
    } else {
      var n := |v'| - 1;
      SelectedAdds(v, e, v'[..n], e'[..n], x, b);
      assert (v + v')[..|v| + n] == v + v'[..n] && (e + e')[..|v| + n] == e + e'[..n];
    }
  }

  /** The mask sum in Horner's form: the first mask has weight one, and every other mask twice
      the weight of the one before it. */
  lemma {:induction false} MaskSumHorner(x: int, c: seq<int>)
    ensures MaskSum([]) == 0 && MaskSum([x] + c) == x + 2 * MaskSum(c)
    decreases |c|
  {
    if c == [] {
      assert [x] + c == [x] && [x][..0] == [];
      P2Next(0);
    } else {
      var n := |c| - 1;
      MaskSumHorner(x, c[..n]);
      assert ([x] + c)[..|c|] == [x] + c[..n];
      hide P2;
      P2Next(n);
      assert c[n] * (2 * P2(n)) == 2 * (c[n] * P2(n));
    }
  }

  /** Values and bits entry by entry. */
  lemma EntriesAre(ds: seq<Dabit>, i: nat)
    requires i < |ds|
    ensures Values(ds)[i] == ds[i].value && Bits(ds)[i] == if ds[i].bit then 1 else 0
  {
  }

  // ---------- one repetition ----------

  /** One repetition's committed masks: field values c_j, the bit c1 and the products that go
      to the multiplication check. */
  datatype Masks = Masks(c: seq<int>, c1: bool, products: seq<int>)

  /** The field sum opened in a repetition. */
  function Tau(ds: seq<Dabit>, m: Masks, e: seq<bool>): int
    requires |e| == |ds|
  {
    Selected(Values(ds), e) + MaskSum(m.c)
  }

  /** The number of ones added up behind the opened bit. */
  function OpenedBits(ds: seq<Dabit>, m: Masks, e: seq<bool>): int
    requires |e| == |ds|
  {
    Bit(m.c1) + Selected(Bits(ds), e)
  }

  /** Step 8: the opened bit against the low bit of the opened field element. */
  predicate Passes(p: int, ds: seq<Dabit>, m: Masks, e: seq<bool>)
    requires p > 0 && |e| == |ds|
  {
    OpenedBits(ds, m, e) % 2 == Canonical(p, Tau(ds, m, e)) % 2
  }

  /** Steps 4, 6 and 7: the opened bit r and the opened sum tau. */
  method Repetition(ds: seq<Dabit>, m: Masks, e: seq<bool>) returns (r: bool, tau: int)
    requires |e| == |ds|
    ensures Bit(r) == OpenedBits(ds, m, e) % 2 && tau == Tau(ds, m, e)
  {
    r := RepetitionBit(ds, m.c1, e);
    tau := RepetitionSum(ds, m.c, e);
  }

  method RepetitionBit(ds: seq<Dabit>, c1: bool, e: seq<bool>) returns (r: bool)
    requires |e| == |ds|
    ensures Bit(r) == (Bit(c1) + Selected(Bits(ds), e)) % 2
  {
    r := c1;
    ghost var b := Bits(ds);
    assert b[..0] == [] && e[..0] == [] && b[..|ds|] == b && e[..|ds|] == e;
    assert Selected(b[..0], e[..0]) == 0;
    hide Selected;
    for i := 0 to |ds|
      invariant Bit(r) == (Bit(c1) + Selected(b[..i], e[..i])) % 2
    {
      SelectedSnoc(b, e, i);
      assert b[i] * Bit(e[i]) == Bit(ds[i].bit && e[i]);
      r := Xor(r, ds[i].bit && e[i]);
    }
  }

  method RepetitionSum(ds: seq<Dabit>, c: seq<int>, e: seq<bool>) returns (tau: int)
    requires |e| == |ds|
    ensures tau == Selected(Values(ds), e) + MaskSum(c)
  {
    ghost var v := Values(ds);
    assert v[..0] == [] && e[..0] == [] && v[..|ds|] == v && e[..|ds|] == e;
    assert Selected(v[..0], e[..0]) == 0;
    assert c[..0] == [] && c[..|c|] == c && MaskSum(c[..0]) == 0;
    P2Next(0);
    hide Selected, MaskSum, P2;
    var rPrime := 0;
    for i := 0 to |ds|
      invariant rPrime == Selected(v[..i], e[..i])
    {
      SelectedSnoc(v, e, i);
      rPrime := rPrime + ds[i].value * Bit(e[i]);
    }
    tau := rPrime;
    var twos := 1;
    for i := 0 to |c|
      invariant twos == P2(i) && tau == rPrime + MaskSum(c[..i])
    {
      MaskSnoc(c, i);
      tau := tau + c[i] * twos;
      P2Next(i);
      twos := twos + twos;
    }
  }

  /** For all committed values and masks: the repetition passes exactly when the opened bits,
      the integer tau and the number of times it wraps around p add up to an even number. */
  lemma RepetitionVerdict(p: int, ds: seq<Dabit>, m: Masks, e: seq<bool>)
    requires p > 0 && p % 2 == 1 && |e| == |ds|
    ensures Passes(p, ds, m, e) <==> (OpenedBits(ds, m, e) + Tau(ds, m, e) + Tau(ds, m, e) / p) % 2 == 0
  {
    hide OpenedBits, Tau, Canonical;
    var t := Tau(ds, m, e);
    LowBitAfterWrapping(p, t);
    ParityRule(OpenedBits(ds, m, e), t, t / p, Canonical(p, t));
  }

  lemma ParityRule(b: int, t: int, q: int, r: int)
    requires (t - r - q) % 2 == 0
    ensures b % 2 == r % 2 <==> (b + t + q) % 2 == 0
  {
  }

  lemma LowBitAfterWrapping(p: int, t: int)
    requires p > 0 && p % 2 == 1
    ensures (t - Canonical(p, t) - t / p) % 2 == 0
  {
    hide Canonical, Cong;
    var q, r := t / p, t % p;
    assert t == p * q + r;
    CongIntro(p, t, r, q);
    CanonicalUnique(p, t, r);
    ParityOfProduct(p, q);
  }

  lemma ParityOfProduct(p: int, q: int)
    requires p % 2 == 1
    ensures (p * q - q) % 2 == 0
  {
    var h := p / 2;
    assert (2 * h + 1) * q - q == 2 * (h * q);
  }

  // ---------- wrong dabits ----------

  /** One where a dabit's value and bit differ. */
  function Mismatches(ds: seq<Dabit>): (r: seq<int>)
    ensures |r| == |ds|
  {
    seq(|ds|, i requires 0 <= i < |ds| => if ds[i].value == Bit(ds[i].bit) then 0 else 1)
  }

  /** One where they differ but have the same parity. */
  function Hidden(ds: seq<Dabit>): (r: seq<int>)
    ensures |r| == |ds|
  {
    seq(|ds|, i requires 0 <= i < |ds| =>
      if ds[i].value != Bit(ds[i].bit) && ds[i].value % 2 == Bit(ds[i].bit) then 1 else 0)
  }

  ghost predicate BitValued(ds: seq<Dabit>) {
    forall i :: 0 <= i < |ds| ==> ds[i].value == 0 || ds[i].value == 1
  }

  /** What the test is meant to detect: an even number of wrong dabits is selected. */
  ghost predicate EvenlyWrong(ds: seq<Dabit>, e: seq<bool>)
    requires |e| == |ds|
  {
    Selected(Mismatches(ds), e) % 2 == 0
  }

  /** Gamma masks that are bits. */
  ghost predicate BitMasks(m: Masks, gamma: nat) {
    |m.c| == gamma && forall j :: 0 <= j < gamma ==> m.c[j] == 0 || m.c[j] == 1
  }

  /** Masks as the prover is told to make them: gamma bits, their low one and their products. */
  ghost predicate HonestMasks(m: Masks, gamma: nat) {
    && BitMasks(m, gamma) && |m.products| == gamma
    && (forall j :: 0 <= j < gamma ==> m.products[j] == m.c[j] * (1 - m.c[j]))
    && (gamma > 0 ==> m.c1 == (m.c[0] != 0))
  }

  lemma {:induction false} SelectedRange(v: seq<int>, e: seq<bool>)
    requires |v| == |e| && forall i :: 0 <= i < |v| ==> v[i] == 0 || v[i] == 1
    ensures 0 <= Selected(v, e) <= |v|
    decreases |v|
  {
    if v != [] { SelectedRange(v[..|v| - 1], e[..|v| - 1]); }
  }

  lemma {:induction false} MaskRange(c: seq<int>)
    requires forall j :: 0 <= j < |c| ==> c[j] == 0 || c[j] == 1
    ensures 0 <= MaskSum(c) < P2(|c|)
    decreases |c|
  {
    P2Next(0);
    if c != [] {
      var k := |c| - 1;
      MaskRange(c[..k]);
      hide P2;
      P2Next(k);
    }
  }

  lemma {:induction false} MaskParity(c: seq<int>)
    requires |c| > 0
    ensures (MaskSum(c) - c[0]) % 2 == 0
    decreases |c|
  {
    var k := |c| - 1;
    if k == 0 {
      assert c[..0] == [];
      P2Next(0);
    } else {
      MaskParity(c[..k]);
      assert c[..k][0] == c[0];
      hide P2;
      P2Next(k - 1);
      EvenTerm(MaskSum(c[..k]), c[k], P2(k - 1), c[0]);
    }
  }

  lemma EvenTerm(s: int, c: int, p: int, z: int)
    requires (s - z) % 2 == 0
    ensures (s + c * (2 * p) - z) % 2 == 0
  {
    assert c * (2 * p) == 2 * (c * p);
  }

  /** Values, bits, wrong and hidden dabits of a selection have parities that cancel. */
  lemma {:induction false} SelectedParity(ds: seq<Dabit>, e: seq<bool>)
    requires |ds| == |e|
    ensures (Selected(Values(ds), e) + Selected(Bits(ds), e)
             + Selected(Mismatches(ds), e) + Selected(Hidden(ds), e)) % 2 == 0
    decreases |ds|
  {
    if ds != [] {
      var k := |ds| - 1;
      SelectedParity(ds[..k], e[..k]);
      SelectedNext(ds, e);
      var ds', e' := ds[..k], e[..k];
      hide Selected;
      DabitParity(ds, k);
      ParityStep(Selected(Values(ds'), e'), Selected(Bits(ds'), e'), Selected(Mismatches(ds'), e'),
        Selected(Hidden(ds'), e'), ds[k].value, Bit(ds[k].bit), Mismatches(ds)[k], Hidden(ds)[k], Bit(e[k]));
    }
  }

  lemma DabitParity(ds: seq<Dabit>, k: nat)
    requires k < |ds|
    ensures (ds[k].value + Bit(ds[k].bit) + Mismatches(ds)[k] + Hidden(ds)[k]) % 2 == 0
  {
  }

  lemma SelectedNext(ds: seq<Dabit>, e: seq<bool>)
    requires |ds| == |e| > 0
    ensures var k := |ds| - 1; var ds', e', s := ds[..k], e[..k], Bit(e[k]);
      && Selected(Values(ds), e) == Selected(Values(ds'), e') + ds[k].value * s
      && Selected(Bits(ds), e) == Selected(Bits(ds'), e') + Bit(ds[k].bit) * s
      && Selected(Mismatches(ds), e) == Selected(Mismatches(ds'), e') + Mismatches(ds)[k] * s
      && Selected(Hidden(ds), e) == Selected(Hidden(ds'), e') + Hidden(ds)[k] * s
  {
    var k := |ds| - 1;
    assert Values(ds)[..k] == Values(ds[..k]) && Bits(ds)[..k] == Bits(ds[..k]);
    assert Mismatches(ds)[..k] == Mismatches(ds[..k]) && Hidden(ds)[..k] == Hidden(ds[..k]);
  }

  lemma ParityStep(V: int, B: int, X: int, H: int, v: int, b: int, x: int, h: int, e: int)
    requires (V + B + X + H) % 2 == 0 && (v + b + x + h) % 2 == 0 && (e == 0 || e == 1)
    ensures (V + v * e + (B + b * e) + (X + x * e) + (H + h * e)) % 2 == 0
  {
  }

  /** For everything a prover can commit: the verdict of a repetition agrees with the number of
      wrong dabits selected exactly when c1, the masks, the selected hidden dabits and the
      wraps of tau around p add up to an even number; no bit-valued dabit is hidden. */
  lemma CountsExactly(p: int, ds: seq<Dabit>, m: Masks, e: seq<bool>)
    requires p > 0 && p % 2 == 1 && |e| == |ds|
    ensures (Passes(p, ds, m, e) <==> EvenlyWrong(ds, e))
      <==> (Bit(m.c1) + MaskSum(m.c) + Selected(Hidden(ds), e) + Tau(ds, m, e) / p) % 2 == 0
    ensures BitValued(ds) ==> Selected(Hidden(ds), e) == 0
  {
    if BitValued(ds) { NothingHidden(ds, e); }
    hide Selected, MaskSum, Canonical, Passes;
    RepetitionVerdict(p, ds, m, e);
    SelectedParity(ds, e);
    VerdictParity(Bit(m.c1), Selected(Bits(ds), e), Selected(Values(ds), e), MaskSum(m.c), Tau(ds, m, e) / p,
                  Selected(Mismatches(ds), e), Selected(Hidden(ds), e));
  }

  lemma VerdictParity(c: int, b: int, v: int, s: int, w: int, x: int, h: int)
    requires (v + b + x + h) % 2 == 0
    ensures ((c + b + (v + s) + w) % 2 == 0 <==> x % 2 == 0) <==> (c + s + h + w) % 2 == 0
  {
  }

  /** No dabit with a bit as its value is hidden. */
  lemma {:induction false} NothingHidden(ds: seq<Dabit>, e: seq<bool>)
    requires |e| == |ds| && BitValued(ds)
    ensures Selected(Hidden(ds), e) == 0
    decreases |ds|
  {
    if ds != [] {
      var k := |ds| - 1;
      NothingHidden(ds[..k], e[..k]);
      assert Hidden(ds)[..k] == Hidden(ds[..k]);
    }
  }

  // ---------- bit masks ----------

  /** With bit masks and bit-valued dabits under accepted parameters, tau is below
      2^(gamma+1) <= 2^(bits-1) < p, so opening it gives the integer itself. */
  lemma TauRange(p: int, bits: nat, ds: seq<Dabit>, m: Masks, e: seq<bool>)
    requires HasBits(p, bits) && ParametersOk(|ds|, Gamma(|ds|), bits) && BitMasks(m, Gamma(|ds|)) && |e| == |ds|
    requires BitValued(ds)
    ensures 0 <= Tau(ds, m, e) < P2(Gamma(|ds|) + 1) <= P2(bits - 1) < p
    ensures Canonical(p, Tau(ds, m, e)) == Tau(ds, m, e)
  {
    NoWraparound(|ds|, bits, p);
    MaskRange(m.c);
    SelectedRange(Values(ds), e);
    hide P2, Selected, MaskSum, Gamma, HasBits, ParametersOk, Canonical;
    var t := Tau(ds, m, e);
    CongRefl(p, t);
    CanonicalUnique(p, t, t);
  }

  /** Then the verdict depends on c1, the lowest mask and the number of wrong dabits only. */
  lemma BitMasksCount(p: int, bits: nat, ds: seq<Dabit>, m: Masks, e: seq<bool>)
    requires HasBits(p, bits) && ParametersOk(|ds|, Gamma(|ds|), bits) && BitMasks(m, Gamma(|ds|)) && |e| == |ds|
    requires BitValued(ds) && p > 0
    ensures Passes(p, ds, m, e) <==> (EvenlyWrong(ds, e) <==> Bit(m.c1) == m.c[0])
  {
    hide P2, Selected, MaskSum, HasBits, ParametersOk, Canonical, BitValued;
    TauRange(p, bits, ds, m, e);
    var c0 := m.c[0];
    assert c0 == 0 || c0 == 1;
    hide BitMasks, Gamma;
    MaskParity(m.c);
    SelectedParity(ds, e);
    NothingHidden(ds, e);
    ParitiesAgree(Bit(m.c1), c0, Selected(Bits(ds), e), Selected(Values(ds), e), MaskSum(m.c),
      Selected(Mismatches(ds), e));
  }

  lemma ParitiesAgree(c: int, z: int, b: int, v: int, s: int, x: int)
    requires (s - z) % 2 == 0 && (v + b + x) % 2 == 0 && 0 <= c <= 1 && 0 <= z <= 1
    ensures (c + b) % 2 == (v + s) % 2 <==> (x % 2 == 0 <==> c == z)
  {
  }

  /** Products that vanish modulo a prime are products of bits. */
  lemma ZeroProductsMeanBits(p: int, m: Masks, gamma: nat)
    requires IsPrime(p) && |m.c| == gamma && forall j :: 0 <= j < gamma ==> 0 <= m.c[j] < p
    ensures (forall j :: 0 <= j < gamma ==> Cong(p, m.c[j] * (1 - m.c[j]), 0)) <==> BitMasks(m, gamma)
  {
    hide Cong, IsPrime;
    forall j | 0 <= j < gamma ensures Cong(p, m.c[j] * (1 - m.c[j]), 0) <==> m.c[j] == 0 || m.c[j] == 1 {
      ZeroProduct(p, m.c[j]);
    }
  }

  lemma ZeroProduct(p: int, c: int)
    requires IsPrime(p) && 0 <= c < p
    ensures Cong(p, c * (1 - c), 0) <==> c == 0 || c == 1
  {
    hide Cong;
    if c == 0 || c == 1 {
      CongRefl(p, 0);
    } else if Cong(p, c * (1 - c), 0) {
      hide IsPrime;
      SmallIsNonzero(p, c);
      SmallIsNonzero(p, c - 1);
      NoZeroDivisors(p, c, 1 - c);
      CongBy(p, c - 1, 0, 1 - c, 0, -1);
      assert false;
    }
  }

  // ---------- the test ----------

  /** The multiplication check: every committed product is c (1 - c). */
  ghost predicate ProductsHold(p: int, m: Masks) {
    forall j :: 0 <= j < |m.c| && j < |m.products| ==> Cong(p, m.c[j] * (1 - m.c[j]), m.products[j])
  }

  ghost predicate AllPass(p: int, ds: seq<Dabit>, ms: seq<Masks>, e: seq<seq<bool>>, s: nat)
    requires p > 0
  {
    forall k :: 0 <= k < s && k < |ms| && k < |e| ==> |e[k]| == |ds| && Passes(p, ds, ms[k], e[k])
  }

  ghost predicate AllProductsHold(p: int, ms: seq<Masks>, s: nat) {
    forall k :: 0 <= k < s && k < |ms| ==> ProductsHold(p, ms[k])
  }

  /** Masks and selections of the right shape. */
  ghost predicate Shaped(n: nat, ms: seq<Masks>, e: seq<seq<bool>>) {
    && |ms| == |e| == SecurityParameter
    && (forall k :: 0 <= k < |ms| ==> |ms[k].c| == |ms[k].products| == Gamma(n))
    && (forall k :: 0 <= k < |e| ==> |e[k]| == n)
  }

  /** fdabit: Err when the parameters are refused, otherwise whether every repetition passes
      and every product is right, for whatever the prover committed. */
  method Fdabit(p: int, bits: nat, ds: seq<Dabit>, ms: seq<Masks>, e: seq<seq<bool>>) returns (verdict: Result<bool>)
    requires p > 0 && Shaped(|ds|, ms, e)
    ensures verdict.Ok? <==> ParametersOk(|ds|, Gamma(|ds|), bits)
    ensures verdict.Ok? ==>
      (verdict.value <==> AllPass(p, ds, ms, e, SecurityParameter) && AllProductsHold(p, ms, SecurityParameter))
  {
    if !ParametersOk(|ds|, Gamma(|ds|), bits) { return Err; }
    hide Canonical, ParametersOk, OpenedBits, Tau, Gamma, ProductsHold;
    var res := true;
    for k := 0 to SecurityParameter
      invariant res <==> AllPass(p, ds, ms, e, k)
    {
      var r, tau := Repetition(ds, ms[k], e[k]);
      res := res && r == (Canonical(p, tau) % 2 == 1);
    }
    var mult := true;
    for k := 0 to SecurityParameter
      invariant mult <==> AllProductsHold(p, ms, k)
    {
      var ok := CheckProducts(p, ms[k]);
      mult := mult && ok;
    }
    verdict := Ok(res && mult);
  }

  method CheckProducts(p: int, m: Masks) returns (ok: bool)
    requires p > 0 && |m.c| == |m.products|
    ensures ok <==> ProductsHold(p, m)
  {
    ok := true;
    for j := 0 to |m.c|
      invariant ok <==> forall i :: 0 <= i < j ==> Cong(p, m.c[i] * (1 - m.c[i]), m.products[i])
    {
      ok := ok && Eq(p, m.c[j] * (1 - m.c[j]), m.products[j]);
    }
  }

  lemma {:induction false} NoMismatches(ds: seq<Dabit>, e: seq<bool>)
    requires |e| == |ds| && forall i :: 0 <= i < |ds| ==> ds[i].value == Bit(ds[i].bit)
    ensures Selected(Mismatches(ds), e) == 0
    decreases |ds|
  {
    if ds != [] {
      var k := |ds| - 1;
      NoMismatches(ds[..k], e[..k]);
      assert Mismatches(ds)[..k] == Mismatches(ds[..k]);
    }
  }

  /** Honest dabits and masks pass whatever is selected. */
  lemma HonestDabitsPass(p: int, bits: nat, ds: seq<Dabit>, ms: seq<Masks>, e: seq<seq<bool>>)
    requires p > 0 && HasBits(p, bits) && ParametersOk(|ds|, Gamma(|ds|), bits) && Shaped(|ds|, ms, e)
    requires forall k :: 0 <= k < |ms| ==> HonestMasks(ms[k], Gamma(|ds|))
    requires forall i :: 0 <= i < |ds| ==> ds[i].value == Bit(ds[i].bit)
    ensures AllPass(p, ds, ms, e, SecurityParameter) && AllProductsHold(p, ms, SecurityParameter)
  {
    hide Passes, Selected, ParametersOk, HasBits;
    assert BitValued(ds);
    forall k | 0 <= k < SecurityParameter ensures Passes(p, ds, ms[k], e[k]) && ProductsHold(p, ms[k]) {
      NoMismatches(ds, e[k]);
      BitMasksCount(p, bits, ds, ms[k], e[k]);
      assert Bit(ms[k].c1) == ms[k].c[0];
      forall j | 0 <= j < |ms[k].c| ensures Cong(p, ms[k].c[j] * (1 - ms[k].c[j]), ms[k].products[j]) {
        CongRefl(p, ms[k].products[j]);
      }
    }
  }
}
