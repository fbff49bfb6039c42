/** What the faulty-dabit test (swanky-dev/diet-mac-and-cheese/src/edabits.rs) detects: the
    inputs it is blind to, and how many selections it accepts when the masks are bits. */
module DabitSoundness {
  import opened Arith
  import opened Powers
  import opened Edabits
  import opened FaultyDabits

  // ---------- inputs the test is blind to ----------

  /** The value 2 for the bit 0 is never detected, with honest masks and without any wrap. */
  lemma OutsideValuePasses(p: int, bits: nat, m: Masks, e: seq<bool>)
    requires HasBits(p, bits) && p % 2 == 1 && ParametersOk(1, Gamma(1), bits) && HonestMasks(m, Gamma(1)) && |e| == 1
    ensures var ds := [Dabit(false, 2)];
      && 0 <= Tau(ds, m, e) < p && Passes(p, ds, m, e)
      && (EvenlyWrong(ds, e) <==> !e[0])
  {
    var ds := [Dabit(false, 2)];
    hide P2, Selected, MaskSum, HasBits, ParametersOk, Canonical, Gamma, Passes;
    SingleSums(ds, m, e);
    SelectedSingle(Hidden(ds), e);
    SelectedSingle(Mismatches(ds), e);
    SingleMaskSum(p, bits, m);
    CountsExactly(p, ds, m, e);
    SmallQuotient(p, Tau(ds, m, e));
  }

  lemma SmallQuotient(p: int, t: int)
    requires 0 <= t < p
    ensures t / p == 0
  {
  }

  lemma SingleMaskSum(p: int, bits: nat, m: Masks)
    requires HasBits(p, bits) && ParametersOk(1, Gamma(1), bits) && HonestMasks(m, Gamma(1))
    ensures 0 <= MaskSum(m.c) && MaskSum(m.c) + 2 < p && (Bit(m.c1) + MaskSum(m.c)) % 2 == 0
  {
    NoWraparound(1, bits, p);
    MaskRange(m.c);
    assert Gamma(1) == 2 by { assert Log2Floor(1) == 0; }
    hide P2, MaskSum, HasBits, ParametersOk, Gamma;
    SmallPowers();
    MaskParity(m.c);
    assert m.c[0] == Bit(m.c1);
  }

  lemma SelectedSingle(v: seq<int>, e: seq<bool>)
    requires |v| == |e| == 1
    ensures Selected(v, e) == v[0] * Bit(e[0])
  {
    assert Selected(v[..0], e[..0]) == 0;
  }

  lemma SingleSums(ds: seq<Dabit>, m: Masks, e: seq<bool>)
    requires |ds| == |e| == 1
    ensures Tau(ds, m, e) == ds[0].value * Bit(e[0]) + MaskSum(m.c)
  {
    SelectedSingle(Values(ds), e);
  }

  /** Masks whose products are committed truly but do not vanish. */
  function NegativeMasks(p: int): Masks {
    Masks([p - 1, 0], false, [(p - 1) * (1 - (p - 1)), 0])
  }

  lemma NegativeMaskSum(p: int)
    ensures MaskSum(NegativeMasks(p).c) == p - 1
  {
    var c := NegativeMasks(p).c;
    assert c[..1] == [p - 1] && [p - 1][..0] == [] && MaskSum([]) == 0;
    P2Next(0);
  }

  /** The mask -1 makes tau wrap exactly when the wrong dabit (0, 1) is selected, so the whole
      test accepts it for every choice of selections. */
  lemma WrongDabitAccepted(p: int, e: seq<seq<bool>>)
    requires p > 2 && p % 2 == 1 && |e| == SecurityParameter && forall k :: 0 <= k < |e| ==> |e[k]| == 1
    ensures var ds := [Dabit(false, 1)]; var ms := seq(SecurityParameter, _ => NegativeMasks(p));
      && BitValued(ds) && Shaped(1, ms, e)
      && AllPass(p, ds, ms, e, SecurityParameter) && AllProductsHold(p, ms, SecurityParameter)
  {
    var ds, m := [Dabit(false, 1)], NegativeMasks(p);
    var ms := seq(SecurityParameter, _ => m);
    assert Gamma(1) == 2 by { assert Log2Floor(1) == 0; }
    forall j | 0 <= j < 2 ensures Cong(p, m.c[j] * (1 - m.c[j]), m.products[j]) {
      CongRefl(p, m.products[j]);
    }
    forall k | 0 <= k < SecurityParameter ensures Passes(p, ds, ms[k], e[k]) {
      NegativeMaskPasses(p, ds, e[k]);
    }
    hide Passes;
  }

  lemma NegativeMaskPasses(p: int, ds: seq<Dabit>, e: seq<bool>)
    requires p > 2 && p % 2 == 1 && ds == [Dabit(false, 1)] && |e| == 1
    ensures Passes(p, ds, NegativeMasks(p), e)
  {
    hide Selected, MaskSum, Canonical, Passes;
    var m := NegativeMasks(p);
    SingleSums(ds, m, e);
    NegativeMaskSum(p);
    SelectedSingle(Bits(ds), e);
    RepetitionVerdict(p, ds, m, e);
    WrapsWhenSelected(p, Bit(e[0]));
  }

  lemma WrapsWhenSelected(p: int, b: int)
    requires p > 2 && p % 2 == 1 && (b == 0 || b == 1)
    ensures (b + (p - 1) + (b + (p - 1)) / p) % 2 == 0
  {
    assert (b + (p - 1)) / p == b;
  }

  // ---------- counting selections ----------

  /** Every sequence of A extended by every element of B. */
  function Appended<T>(A: set<seq<T>>, B: set<T>): set<seq<T>> {
    set a, b | a in A && b in B :: a + [b]
  }

  lemma InAppended<T>(A: set<seq<T>>, B: set<T>, z: seq<T>)
    ensures z in Appended(A, B) <==> z != [] && z[..|z| - 1] in A && z[|z| - 1] in B
  {
    if z in Appended(A, B) {
      var a, b :| a in A && b in B && z == a + [b];
      assert z[..|z| - 1] == a;
    }
    if z != [] && z[..|z| - 1] in A && z[|z| - 1] in B {
      assert z == z[..|z| - 1] + [z[|z| - 1]];
    }
  }

  lemma {:induction false} RowSize<T>(a: seq<T>, B: set<T>)
    ensures |Appended({a}, B)| == |B|
    decreases |B|
  {
    if B == {} {
      assert Appended({a}, B) == {};
    } else {
      var b :| b in B;
      var R, B' := Appended({a}, B), B - {b};
      RowSize(a, B');
      forall z ensures z in R <==> z in Appended({a}, B') || z == a + [b] {
        InAppended({a}, B, z);
        InAppended({a}, B', z);
        if z != [] { assert z == z[..|z| - 1] + [z[|z| - 1]]; }
      }
      InAppended({a}, B', a + [b]);
      assert R == Appended({a}, B') + {a + [b]};
    }
  }

  lemma {:induction false} AppendedSize<T>(A: set<seq<T>>, B: set<T>)
    ensures |Appended(A, B)| == |A| * |B|
    decreases |A|
  {
    if A == {} {
      assert Appended(A, B) == {};
    } else {
      hide Appended;
      var a :| a in A;
      var A' := A - {a};
      AppendedSize(A', B);
      RowSize(a, B);
      AppendedUnion(A', {a}, B);
      assert A == A' + {a} && |A| == |A'| + 1;
      OneMore(|A'|, |B|);
    }
  }

  lemma OneMore(n: int, b: int)
    ensures (n + 1) * b == n * b + b
  {
  }

  lemma AppendedUnion<T>(A: set<seq<T>>, A': set<seq<T>>, B: set<T>)
    requires A !! A'
    ensures Appended(A + A', B) == Appended(A, B) + Appended(A', B) && Appended(A, B) !! Appended(A', B)
  {
    forall z ensures z in Appended(A + A', B) <==> z in Appended(A, B) + Appended(A', B) {
      InAppended(A + A', B, z);
      InAppended(A, B, z);
      InAppended(A', B, z);
    }
    forall z | z in Appended(A, B) ensures z !in Appended(A', B) {
      InAppended(A, B, z);
      InAppended(A', B, z);
    }
  }

  /** All selections of n dabits. */
  ghost function Selections(n: nat): set<seq<bool>> {
    if n == 0 then {[]} else Appended(Selections(n - 1), {false, true})
  }

  lemma {:induction false} SelectionsAre(n: nat, e: seq<bool>)
    ensures e in Selections(n) <==> |e| == n
  {
    if n > 0 {
      if e in Selections(n) {
        var a, b :| a in Selections(n - 1) && b in {false, true} && e == a + [b];
        SelectionsAre(n - 1, a);
      }
      if |e| == n {
        var a, b := e[..n - 1], e[n - 1];
        SelectionsAre(n - 1, a);
        assert e == a + [b] && b in {false, true};
      }
    }
  }

  lemma {:induction false} SelectionsSize(n: nat)
    ensures |Selections(n)| == P2(n)
  {
    if n == 0 {
      P2Next(0);
    } else {
      SelectionsSize(n - 1);
      AppendedSize(Selections(n - 1), {false, true});
      P2Next(n - 1);
    }
  }

  /** The selections that one repetition accepts. */
  ghost function Accepting(p: int, ds: seq<Dabit>, m: Masks): set<seq<bool>>
    requires p > 0
  {
    set e | e in Selections(|ds|) && |e| == |ds| && Passes(p, ds, m, e)
  }

  /** Selecting dabit k or not. */
  function Flip(e: seq<bool>, k: nat): (r: seq<bool>)
    requires k < |e|
    ensures |r| == |e|
  {
    e[k := !e[k]]
  }

  lemma {:induction false} SelectedFlip(v: seq<int>, e: seq<bool>, k: nat)
    requires |v| == |e| && k < |e|
    ensures Selected(v, Flip(e, k)) == Selected(v, e) + (if e[k] then -v[k] else v[k])
    decreases |v|
  {
    var n := |v| - 1;
    var f := Flip(e, k);
    if k == n {
      assert f[..n] == e[..n];
    } else {
      SelectedFlip(v[..n], e[..n], k);
      assert f[..n] == Flip(e[..n], k);
    }
  }

  /** A wrong dabit decides the verdict. */
  lemma FlipChangesVerdict(p: int, bits: nat, ds: seq<Dabit>, m: Masks, e: seq<bool>, k: nat)
    requires HasBits(p, bits) && ParametersOk(|ds|, Gamma(|ds|), bits) && BitMasks(m, Gamma(|ds|)) && |e| == |ds|
    requires BitValued(ds) && p > 0 && k < |ds| && ds[k].value != Bit(ds[k].bit)
    ensures Passes(p, ds, m, Flip(e, k)) <==> !Passes(p, ds, m, e)
  {
    BitMasksCount(p, bits, ds, m, e);
    BitMasksCount(p, bits, ds, m, Flip(e, k));
    SelectedFlip(Mismatches(ds), e, k);
    hide Selected, Passes, HasBits, ParametersOk, Gamma, BitMasks, BitValued;
  }

  /** The selections of S with dabit k selected or not. */
  ghost function Flipped(S: set<seq<bool>>, n: nat, k: nat): set<seq<bool>>
    requires k < n && forall e :: e in S ==> |e| == n
  {
    set e | e in S :: Flip(e, k)
  }

  lemma InFlipped(S: set<seq<bool>>, n: nat, k: nat, e: seq<bool>)
    requires k < n && forall x :: x in S ==> |x| == n
    ensures e in Flipped(S, n, k) <==> |e| == n && Flip(e, k) in S
  {
    if e in Flipped(S, n, k) {
      var x :| x in S && e == Flip(x, k);
      assert Flip(e, k) == x;
    }
    if |e| == n && Flip(e, k) in S {
      assert Flip(Flip(e, k), k) == e;
    }
  }

  lemma {:induction false} FlippedSize(S: set<seq<bool>>, n: nat, k: nat)
    requires k < n && forall e :: e in S ==> |e| == n
    ensures |Flipped(S, n, k)| == |S|
    decreases |S|
  {
    if S == {} {
      assert Flipped(S, n, k) == {};
    } else {
      var x :| x in S;
      var S' := S - {x};
      FlippedSize(S', n, k);
      forall e ensures e in Flipped(S, n, k) <==> e in Flipped(S', n, k) || e == Flip(x, k) {
        InFlipped(S, n, k, e);
        InFlipped(S', n, k, e);
        if |e| == n && Flip(e, k) == x { assert Flip(x, k) == e; }
        if e == Flip(x, k) { assert Flip(e, k) == x; }
      }
      assert Flipped(S, n, k) == Flipped(S', n, k) + {Flip(x, k)};
      InFlipped(S', n, k, Flip(x, k));
      assert Flip(Flip(x, k), k) == x;
    }
  }

  /** With one wrong dabit among bit-valued ones, a repetition with bit masks accepts exactly
      half of all selections. */
  lemma HalfAccepted(p: int, bits: nat, ds: seq<Dabit>, m: Masks, k: nat)
    requires HasBits(p, bits) && ParametersOk(|ds|, Gamma(|ds|), bits) && BitMasks(m, Gamma(|ds|))
    requires BitValued(ds) && p > 0 && k < |ds| && ds[k].value != Bit(ds[k].bit)
    ensures |Accepting(p, ds, m)| == P2(|ds| - 1)
  {
    hide P2, Passes, HasBits, ParametersOk, Gamma, BitMasks, BitValued, Selections;
    var n, S, A := |ds|, Selections(|ds|), Accepting(p, ds, m);
    forall e ensures Switches(A, n, k, e) {
      if |e| == n {
        SelectionsAre(n, e);
        SelectionsAre(n, Flip(e, k));
        FlipChangesVerdict(p, bits, ds, m, e, k);
      }
    }
    hide Switches, Accepting;
    SelectionsSize(n);
    P2Next(n - 1);
    forall e ensures e in S <==> |e| == n { SelectionsAre(n, e); }
    HalfOfAll(S, A, n, k);
  }

  /** A set that each flip enters or leaves is half of everything. */
  lemma HalfOfAll(S: set<seq<bool>>, A: set<seq<bool>>, n: nat, k: nat)
    requires k < n && forall e :: e in S <==> |e| == n
    requires A <= S && forall e :: Switches(A, n, k, e)
    ensures |S| == 2 * |A|
  {
    FlippedSize(A, n, k);
    var F := Flipped(A, n, k);
    hide Flipped, Flip, Switches;
    forall e ensures e in F <==> e in S && e !in A {
      InFlipped(A, n, k, e);
      if |e| == n { SwitchesAt(A, n, k, e); }
    }
    assert S == A + F && A !! F;
  }

  /** Flipping dabit k enters or leaves A. */
  ghost predicate Switches(A: set<seq<bool>>, n: nat, k: nat, e: seq<bool>)
    requires k < n
  {
    |e| == n ==> (Flip(e, k) in A <==> e !in A)
  }

  lemma SwitchesAt(A: set<seq<bool>>, n: nat, k: nat, e: seq<bool>)
    requires k < n == |e| && Switches(A, n, k, e)
    ensures Flip(e, k) in A <==> e !in A
  {
  }

  /** Without a wrong dabit the selection does not matter. */
  lemma RightDabitsIgnoreSelection(p: int, bits: nat, ds: seq<Dabit>, m: Masks, e: seq<bool>)
    requires HasBits(p, bits) && ParametersOk(|ds|, Gamma(|ds|), bits) && BitMasks(m, Gamma(|ds|)) && |e| == |ds|
    requires p > 0 && forall i :: 0 <= i < |ds| ==> ds[i].value == Bit(ds[i].bit)
    ensures |m.c| > 0 && (Passes(p, ds, m, e) <==> Bit(m.c1) == m.c[0])
  {
    NoMismatches(ds, e);
    BitMasksCount(p, bits, ds, m, e);
  }

  // ---------- the whole test ----------

  /** All choices of s selections of n dabits. */
  ghost function Choices(n: nat, s: nat): set<seq<seq<bool>>> {
    if s == 0 then {[]} else Appended(Choices(n, s - 1), Selections(n))
  }

  /** How many dabits s repetitions decide about. */
  function Total(s: nat, n: nat): nat {
    s * n
  }

  lemma PowerOfRepetitions(s: nat, n: nat)
    requires s > 0
    ensures P2(Total(s - 1, n)) * P2(n) == P2(Total(s, n))
  {
    hide P2;
    OneMore(s - 1, n);
    assert Total(s, n) == Total(s - 1, n) + n;
    hide Total;
    P2Add(Total(s - 1, n), n);
  }

  lemma {:induction false} ChoicesSize(n: nat, s: nat)
    ensures |Choices(n, s)| == P2(Total(s, n))
  {
    if s == 0 {
      P2Next(0);
    } else {
      ChoicesSize(n, s - 1);
      SelectionsSize(n);
      hide Appended, P2, Selections, Total;
      AppendedSize(Choices(n, s - 1), Selections(n));
      PowerOfRepetitions(s, n);
    }
  }

  /** The choices that the first s repetitions accept. */
  ghost function AcceptedChoices(p: int, ds: seq<Dabit>, ms: seq<Masks>, s: nat): set<seq<seq<bool>>>
    requires p > 0 && s <= |ms|
  {
    set e | e in Choices(|ds|, s) && AllPass(p, ds, ms, e, s)
  }

  lemma ChoicesLength(n: nat, s: nat, e: seq<seq<bool>>)
    requires e in Choices(n, s)
    ensures |e| == s && forall k :: 0 <= k < s ==> |e[k]| == n
    decreases s
  {
    if s > 0 {
      var a, b :| a in Choices(n, s - 1) && b in Selections(n) && e == a + [b];
      ChoicesLength(n, s - 1, a);
      SelectionsAre(n, b);
    }
  }

  lemma AllPassNext(p: int, ds: seq<Dabit>, ms: seq<Masks>, e: seq<seq<bool>>, s: nat)
    requires p > 0 && |e| == s && 0 < s <= |ms|
    ensures AllPass(p, ds, ms, e, s)
      <==> AllPass(p, ds, ms, e[..s - 1], s - 1) && |e[s - 1]| == |ds| && Passes(p, ds, ms[s - 1], e[s - 1])
  {
    hide Passes;
    assert forall k :: 0 <= k < s - 1 ==> e[..s - 1][k] == e[k];
  }

  lemma AcceptedStep(p: int, ds: seq<Dabit>, ms: seq<Masks>, s: nat)
    requires p > 0 && 0 < s <= |ms|
    ensures AcceptedChoices(p, ds, ms, s) == Appended(AcceptedChoices(p, ds, ms, s - 1), Accepting(p, ds, ms[s - 1]))
  {
    hide Passes, Selections, Appended;
    var n, C, S := |ds|, Choices(|ds|, s - 1), Selections(|ds|);
    var A, B := AcceptedChoices(p, ds, ms, s - 1), Accepting(p, ds, ms[s - 1]);
    forall e ensures e in AcceptedChoices(p, ds, ms, s) <==> e in Appended(A, B) {
      InAppended(C, S, e);
      InAppended(A, B, e);
      if e != [] && e[..|e| - 1] in C && e[|e| - 1] in S {
        ChoicesLength(n, s - 1, e[..|e| - 1]);
        SelectionsAre(n, e[|e| - 1]);
        AllPassNext(p, ds, ms, e, s);
      }
    }
  }

  lemma {:induction false} AcceptedSize(p: int, bits: nat, ds: seq<Dabit>, ms: seq<Masks>, k: nat, s: nat)
    requires HasBits(p, bits) && ParametersOk(|ds|, Gamma(|ds|), bits) && p > 0 && s <= |ms|
    requires forall i :: 0 <= i < |ms| ==> BitMasks(ms[i], Gamma(|ds|))
    requires BitValued(ds) && k < |ds| && ds[k].value != Bit(ds[k].bit)
    ensures |AcceptedChoices(p, ds, ms, s)| == P2(Total(s, |ds| - 1))
    decreases s
  {
    hide HasBits, ParametersOk, Gamma, BitMasks, BitValued;
    var n := |ds| - 1;
    if s == 0 {
      assert AcceptedChoices(p, ds, ms, 0) == {[]};
      P2Next(0);
    } else {
      AcceptedSize(p, bits, ds, ms, k, s - 1);
      AcceptedStep(p, ds, ms, s);
      HalfAccepted(p, bits, ds, ms[s - 1], k);
      hide AcceptedChoices, Accepting, Appended, P2, Total;
      AppendedSize(AcceptedChoices(p, ds, ms, s - 1), Accepting(p, ds, ms[s - 1]));
      PowerOfRepetitions(s, n);
    }
  }

  /** With bit masks, s repetitions accept a wrong dabit for one choice in 2^s. */
  lemma AcceptedFraction(p: int, bits: nat, ds: seq<Dabit>, ms: seq<Masks>, k: nat, s: nat)
    requires HasBits(p, bits) && ParametersOk(|ds|, Gamma(|ds|), bits) && p > 0 && s <= |ms|
    requires forall i :: 0 <= i < |ms| ==> BitMasks(ms[i], Gamma(|ds|))
    requires BitValued(ds) && k < |ds| && ds[k].value != Bit(ds[k].bit)
    ensures |AcceptedChoices(p, ds, ms, s)| * P2(s) == |Choices(|ds|, s)|
  {
    hide HasBits, ParametersOk, BitValued, P2, BitMasks, Gamma, AcceptedChoices, Choices, Total;
    AcceptedSize(p, bits, ds, ms, k, s);
    ChoicesSize(|ds|, s);
    LastFactor(s, |ds|);
  }

  lemma LastFactor(s: nat, n: nat)
    requires n > 0
    ensures P2(Total(s, n - 1)) * P2(s) == P2(Total(s, n))
  {
    hide P2;
    assert Total(s, n) == Total(s, n - 1) + s by { TotalNext(s, n); }
    hide Total;
    P2Add(Total(s, n - 1), s);
  }

  lemma TotalNext(s: nat, n: nat)
    requires n > 0
    ensures Total(s, n) == Total(s, n - 1) + s
  {
  }

  /** The products a prover would have to commit for masks that are bits. */
  ghost predicate ZeroProducts(p: int, m: Masks, gamma: nat) {
    && |m.c| == |m.products| == gamma
    && (forall j :: 0 <= j < gamma ==> 0 <= m.c[j] < p)
    && (forall j :: 0 <= j < gamma ==> Cong(p, m.products[j], 0))
  }

  lemma CheckedProductsMeanBits(p: int, m: Masks, gamma: nat)
    requires IsPrime(p) && ZeroProducts(p, m, gamma) && ProductsHold(p, m)
    ensures BitMasks(m, gamma)
  {
    forall j | 0 <= j < gamma ensures Cong(p, m.c[j] * (1 - m.c[j]), 0) {
      CongTrans(p, m.c[j] * (1 - m.c[j]), m.products[j], 0);
    }
    hide Cong, IsPrime;
    ZeroProductsMeanBits(p, m, gamma);
  }

  /** Soundness under the missing check: were all products also required to vanish, a wrong
      dabit among bit-valued ones would pass for one choice of selections in 2^38. */
  lemma TestSoundness(p: int, bits: nat, ds: seq<Dabit>, ms: seq<Masks>, k: nat)
    requires IsPrime(p) && HasBits(p, bits) && ParametersOk(|ds|, Gamma(|ds|), bits)
    requires |ms| == SecurityParameter && AllProductsHold(p, ms, SecurityParameter)
    requires forall i :: 0 <= i < |ms| ==> ZeroProducts(p, ms[i], Gamma(|ds|))
    requires BitValued(ds) && k < |ds| && ds[k].value != Bit(ds[k].bit)
    ensures p > 0
    ensures |AcceptedChoices(p, ds, ms, SecurityParameter)| * P2(SecurityParameter)
      == |Choices(|ds|, SecurityParameter)|
  {
    assert p > 0;
    hide IsPrime, HasBits, ParametersOk, BitValued, P2, BitMasks, ZeroProducts, ProductsHold, Gamma, AcceptedChoices,
      Choices;
    forall i | 0 <= i < |ms| ensures BitMasks(ms[i], Gamma(|ds|)) {
      CheckedProductsMeanBits(p, ms[i], Gamma(|ds|));
    }
    AcceptedFraction(p, bits, ds, ms, k, SecurityParameter);
  }
}
