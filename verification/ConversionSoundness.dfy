/** What an accepted conversion check (swanky-dev/diet-mac-and-cheese/src/edabits.rs) says about
    the committed values, by counting: how many random edabits must be wrong for a wrong
    conversion to pass, which dabits must be right, and how many selections let a wrong dabit
    through. */
module ConversionSoundness {
  import opened Arith
  import opened Powers
  import opened Folds
  import opened Permutation
  import opened Edabits
  import opened FaultyDabits
  import opened DabitSoundness
  import opened ConversionCheck

  // ---------- positions ----------

  /** Different conversions or buckets use different positions, and all of them lie before the
      entries that are opened. */
  lemma PositionsDiffer(n: nat, buckets: nat, j: nat, i: nat, j': nat, i': nat)
    requires i < n && i' < n && j < buckets && j' < buckets && (j != j' || i != i')
    ensures Slot(j, n, i) != Slot(j', n, i') && Slot(j, n, i) < n * buckets
  {
    SlotInRange(j, n, buckets);
    SlotOffset(j, n, i);
    if Slot(j, n, i) == Slot(j', n, i') {
      DivModUnique(Slot(j, n, i), n, j, i);
      DivModUnique(Slot(j', n, i'), n, j', i');
    }
  }

  /** Every position before them is used. */
  lemma PositionUsed(n: nat, buckets: nat, k: nat) returns (j: nat, i: nat)
    requires k < n * buckets
    ensures j < buckets && i < n && Slot(j, n, i) == k
  {
    NonzeroFactor(n, buckets, k);
    j, i := k / n, k % n;
    BelowFactor(n, buckets, j, i);
  }

  lemma NonzeroFactor(n: nat, b: nat, k: nat)
    requires k < n * b
    ensures n > 0
  {
  }

  lemma BelowFactor(n: nat, b: nat, j: nat, i: nat)
    requires j * n + i < n * b
    ensures j < b
  {
  }

  // ---------- counting wrong edabits ----------

  ghost function Wrong(p: int, r: seq<Edabit>): nat {
    if r == [] then 0 else Wrong(p, r[..|r| - 1]) + (if IsCorrect(p, r[|r| - 1]) then 0 else 1)
  }

  lemma {:induction false} WrongAppend(p: int, r: seq<Edabit>, s: seq<Edabit>)
    ensures Wrong(p, r + s) == Wrong(p, r) + Wrong(p, s)
    decreases |s|
  {
    hide IsCorrect;
    if s == [] {
      assert r + s == r;
    } else {
      var k := |s| - 1;
      WrongAppend(p, r, s[..k]);
      assert (r + s)[..|r + s| - 1] == r + s[..k];
    }
  }

  lemma {:induction false} WrongNone(p: int, r: seq<Edabit>)
    ensures Wrong(p, r) == 0 <==> forall k :: 0 <= k < |r| ==> IsCorrect(p, r[k])
    decreases |r|
  {
    hide IsCorrect;
    if r != [] {
      var k := |r| - 1;
      WrongNone(p, r[..k]);
      assert forall j :: 0 <= j < k ==> r[..k][j] == r[j];
    }
  }

  lemma {:induction false} WrongAlike(p: int, r: seq<Edabit>, s: seq<Edabit>)
    requires |r| == |s| && forall k :: 0 <= k < |r| ==> (IsCorrect(p, r[k]) <==> IsCorrect(p, s[k]))
    ensures Wrong(p, r) == Wrong(p, s)
    decreases |r|
  {
    hide IsCorrect;
    if r != [] { WrongAlike(p, r[..|r| - 1], s[..|s| - 1]); }
  }

  /** The count does not depend on the order. */
  lemma {:induction false} WrongReordered(p: int, r: seq<Edabit>, s: seq<Edabit>)
    requires multiset(r) == multiset(s)
    ensures Wrong(p, r) == Wrong(p, s)
    decreases |r|
  {
    hide IsCorrect, Wrong;
    if r == [] {
      assert |s| == |multiset(s)| == |multiset(r)| == 0;
    } else {
      var j := Matching(r, s);
      WrongReordered(p, r[1..], s[..j] + s[j + 1..]);
      assert r == [r[0]] + r[1..] && s == s[..j] + ([s[j]] + s[j + 1..]);
      WrongAppend(p, [r[0]], r[1..]);
      WrongAppend(p, s[..j], [s[j]] + s[j + 1..]);
      WrongAppend(p, [s[j]], s[j + 1..]);
      WrongAppend(p, s[..j], s[j + 1..]);
    }
  }

  lemma {:induction false} SattoloKeepsMultiset<T>(v: seq<T>, i: nat, draws: seq<nat>)
    requires i < |v| && ValidDraws(|v|, draws)
    ensures multiset(Sattolo(v, i, draws)) == multiset(v)
    decreases i
  {
    if i > 0 {
      var s := Swap(v, draws[i], i);
      SattoloKeepsMultiset(s, i - 1, draws);
      assert s == v[draws[i] := v[i]][i := v[draws[i]]];
    }
  }

  lemma ShuffledWrong(p: int, r: seq<Edabit>, draws: seq<nat>)
    requires ValidDraws(|r|, draws)
    ensures Wrong(p, ShuffledBy(r, draws)) == Wrong(p, r)
  {
    if r != [] {
      SattoloKeepsMultiset(r, |r| - 1, draws);
      WrongReordered(p, ShuffledBy(r, draws), r);
    }
  }

  /** Bucket by bucket: the partners of all conversions are wrong as often as the conversions. */
  lemma {:induction false} WrongInBuckets(p: int, ed: seq<Edabit>, r: seq<Edabit>, ds: seq<Dabit>, ads: seq<Adder>,
                                          buckets: nat, j: nat)
    requires BucketsPass(p, ed, r, ds, ads, buckets) && CorrectDabits(p, ds) && NoStarts(ads) && j <= buckets
      && j * |ed| <= |r|
    ensures Wrong(p, r[..j * |ed|]) == j * Wrong(p, ed)
    decreases j
  {
    hide IsCorrect, Wrong, BucketPasses, CorrectDabits;
    var n := |ed|;
    if j == 0 {
      assert r[..0 * n] == [];
      WrongNone(p, []);
    } else {
      OneBucket(j, n);
      WrongInBuckets(p, ed, r, ds, ads, buckets, j - 1);
      var a, b := (j - 1) * n, j * n;
      forall i | 0 <= i < n ensures IsCorrect(p, r[a..b][i]) <==> IsCorrect(p, ed[i]) {
        PartnersAgree(p, ed, r, ds, ads, buckets, j - 1, i);
        assert Slot(j - 1, n, i) == a + i;
      }
      WrongAlike(p, r[a..b], ed);
      assert r[..b] == r[..a] + r[a..b];
      WrongAppend(p, r[..a], r[a..b]);
      OneMore(j - 1, Wrong(p, ed));
    }
  }

  lemma OneBucket(j: nat, n: nat)
    requires j > 0
    ensures 0 <= (j - 1) * n && j * n == (j - 1) * n + n
  {
  }

  /** No addition of the buckets starts with a carry. */
  ghost predicate NoStarts(ads: seq<Adder>) {
    forall j, i :: 0 <= j < |ads| && 0 <= i < |ads[j].start| ==> !ads[j].start[i]
  }

  /** With right dabits and no starting carries an accepted check fixes the number of wrong random
      edabits: exactly numBucket for every wrong conversion, in whatever order they were
      committed. */
  lemma WrongRandomEdabits(p: int, bits: nat, ed: seq<Edabit>, r0: seq<Edabit>, d0: seq<Dabit>, ms: seq<Masks>,
                           e: seq<seq<bool>>, rDraws: seq<nat>, dDraws: seq<nat>, ads: seq<Adder>, numBucket: nat,
                           numCut: nat)
    requires p > 0 && ValidDraws(|r0|, rDraws) && ValidDraws(|d0|, dDraws) && Sized(ed, r0, d0, ads, numBucket, numCut)
    requires Accepted(p, bits, ed, r0, d0, ms, e, rDraws, dDraws, ads, numBucket) && CorrectDabits(p, d0)
      && NoStarts(ads)
    ensures Wrong(p, r0) == numBucket * Wrong(p, ed)
  {
    hide IsCorrect, Wrong, BucketsPass, AllPass, AllProductsHold, ParametersOk, Gamma, ShuffledBy;
    var r, ds, n := ShuffledBy(r0, rDraws), ShuffledBy(d0, dDraws), |ed|;
    ShuffledDabits(p, d0, dDraws);
    var base := n * numBucket;
    assert base == numBucket * n;
    WrongInBuckets(p, ed, r, ds, ads, numBucket, numBucket);
    WrongNone(p, r[base..]);
    assert r == r[..base] + r[base..];
    WrongAppend(p, r[..base], r[base..]);
    ShuffledWrong(p, r0, rDraws);
  }

  lemma ShuffledDabits(p: int, d0: seq<Dabit>, draws: seq<nat>)
    requires ValidDraws(|d0|, draws) && CorrectDabits(p, d0)
    ensures CorrectDabits(p, ShuffledBy(d0, draws))
  {
    hide Cong, ShuffledBy;
    forall k | 0 <= k < |d0|
      ensures Cong(p, ShuffledBy(d0, draws)[k].value, Bit(ShuffledBy(d0, draws)[k].bit))
    {
      ShuffledMembers(d0, draws, k);
    }
  }

  /** Off by more than a starting carry can hide. */
  ghost predicate FarOff(p: int, c: Edabit) {
    !Cong(p, EdabitError(c), 0) && !Cong(p, EdabitError(c), 1)
  }

  ghost function CountFarOff(p: int, s: seq<Edabit>): nat {
    if s == [] then 0 else CountFarOff(p, s[..|s| - 1]) + (if FarOff(p, s[|s| - 1]) then 1 else 0)
  }

  lemma {:induction false} FarOffCounted(p: int, r: seq<Edabit>, s: seq<Edabit>)
    requires |r| == |s| && forall k :: 0 <= k < |s| ==> FarOff(p, s[k]) ==> !IsCorrect(p, r[k])
    ensures CountFarOff(p, s) <= Wrong(p, r)
    decreases |r|
  {
    hide IsCorrect, FarOff;
    if r != [] { FarOffCounted(p, r[..|r| - 1], s[..|s| - 1]); }
  }

  /** Whatever the starting carries: the partners of a conversion that is far off are wrong. */
  lemma FarOffPartner(p: int, ed: seq<Edabit>, r: seq<Edabit>, ds: seq<Dabit>, ads: seq<Adder>, buckets: nat, j: nat,
                      i: nat)
    requires BucketsPass(p, ed, r, ds, ads, buckets) && CorrectDabits(p, ds) && j < buckets && i < |ed|
    ensures Slot(j, |ed|, i) < |r| && (FarOff(p, ed[i]) ==> !IsCorrect(p, r[Slot(j, |ed|, i)]))
  {
    assert BucketPasses(p, ed, r, ds, ads, j, i);
    PassesIffErrorsCancel(p, ed, r, ds, ads, j, i);
    hide Cong, IsCorrect, CheckedValue, EdabitError, Slot, BucketPasses, LaneRight;
    var k, b := Slot(j, |ed|, i), Bit(ads[j].start[i]);
    ErrorIsZero(p, r[k]);
    if IsCorrect(p, r[k]) {
      CongBy2(p, EdabitError(ed[i]), b, EdabitError(ed[i]), b - EdabitError(r[k]), 1, EdabitError(r[k]), 0, -1);
    }
  }

  lemma {:induction false} FarOffInBuckets(p: int, ed: seq<Edabit>, r: seq<Edabit>, ds: seq<Dabit>, ads: seq<Adder>,
                                           buckets: nat, j: nat)
    requires BucketsPass(p, ed, r, ds, ads, buckets) && CorrectDabits(p, ds) && j <= buckets && j * |ed| <= |r|
    ensures Wrong(p, r[..j * |ed|]) >= j * CountFarOff(p, ed)
    decreases j
  {
    hide IsCorrect, Wrong, BucketPasses, CorrectDabits, CountFarOff, FarOff;
    var n := |ed|;
    if j > 0 {
      OneBucket(j, n);
      FarOffInBuckets(p, ed, r, ds, ads, buckets, j - 1);
      var a, b := (j - 1) * n, j * n;
      forall i | 0 <= i < n ensures FarOff(p, ed[i]) ==> !IsCorrect(p, r[a..b][i]) {
        FarOffPartner(p, ed, r, ds, ads, buckets, j - 1, i);
        assert Slot(j - 1, n, i) == a + i;
      }
      FarOffCounted(p, r[a..b], ed);
      assert r[..b] == r[..a] + r[a..b];
      WrongAppend(p, r[..a], r[a..b]);
      OneMore(j - 1, CountFarOff(p, ed));
    }
  }

  /** Whatever is committed: with right dabits an accepted check needs numBucket wrong random
      edabits for every conversion whose error is neither 0 nor 1. */
  lemma WrongForFarOff(p: int, bits: nat, ed: seq<Edabit>, r0: seq<Edabit>, d0: seq<Dabit>, ms: seq<Masks>,
                       e: seq<seq<bool>>, rDraws: seq<nat>, dDraws: seq<nat>, ads: seq<Adder>, numBucket: nat,
                       numCut: nat)
    requires p > 0 && ValidDraws(|r0|, rDraws) && ValidDraws(|d0|, dDraws) && Sized(ed, r0, d0, ads, numBucket, numCut)
    requires Accepted(p, bits, ed, r0, d0, ms, e, rDraws, dDraws, ads, numBucket) && CorrectDabits(p, d0)
    ensures Wrong(p, r0) >= numBucket * CountFarOff(p, ed)
  {
    hide IsCorrect, Wrong, BucketsPass, AllPass, AllProductsHold, ParametersOk, Gamma, ShuffledBy, CountFarOff;
    var r, ds, n := ShuffledBy(r0, rDraws), ShuffledBy(d0, dDraws), |ed|;
    ShuffledDabits(p, d0, dDraws);
    var base := n * numBucket;
    assert base == numBucket * n;
    FarOffInBuckets(p, ed, r, ds, ads, numBucket, numBucket);
    assert r == r[..base] + r[base..];
    WrongAppend(p, r[..base], r[base..]);
    ShuffledWrong(p, r0, rDraws);
  }

  // ---------- which dabits must be right ----------

  lemma {:induction false} PowerIsUnit(p: int, m: nat)
    requires IsPrime(p) && p > 2
    ensures !Cong(p, P2(m), 0)
  {
    hide IsPrime, Cong;
    if m == 0 {
      SmallIsNonzero(p, 1);
    } else {
      PowerIsUnit(p, m - 1);
      SmallIsNonzero(p, 2);
      NonzeroProduct(p, 2, P2(m - 1));
    }
  }

  /** A bucket check between a right conversion and a right partner also tests the dabit. */
  lemma DabitTested(p: int, c: Edabit, r: Edabit, d: Dabit)
    requires IsPrime(p) && p > 2 && IsCorrect(p, c) && IsCorrect(p, r) && Cong(p, CheckedValue(c, r, d, false), 0)
    ensures Cong(p, d.value, Bit(d.bit))
  {
    hide IsPrime, Cong, P2, BitsInt, Carry, EdabitError, IsCorrect;
    ErrorIsZero(p, c);
    ErrorIsZero(p, r);
    PowerIsUnit(p, |c.bits|);
    var k, x := P2(|c.bits|), if Xor(d.bit, Carry(c.bits, r.bits, false)) then -DabitError(d) else DabitError(d);
    var a, b, v := EdabitError(c), EdabitError(r), CheckedValue(c, r, d, false);
    assert v == a + b - k * x;
    CongBy2(p, a + b, 0, a, 0, 1, b, 0, 1);
    CongBy2(p, k * x, 0, a + b, 0, 1, v, 0, -1);
    NoZeroDivisors(p, k, x);
    CongBy(p, d.value, Bit(d.bit), x, 0, if Xor(d.bit, Carry(c.bits, r.bits, false)) then -1 else 1);
  }

  /** If conversions and random edabits are right, an accepted check leaves no dabit wrong: every
      one of them is used. */
  lemma DabitsRight(p: int, bits: nat, ed: seq<Edabit>, r0: seq<Edabit>, d0: seq<Dabit>, ms: seq<Masks>,
                    e: seq<seq<bool>>, rDraws: seq<nat>, dDraws: seq<nat>, ads: seq<Adder>, numBucket: nat,
                    numCut: nat, d: Dabit)
    requires IsPrime(p) && p > 2 && ValidDraws(|r0|, rDraws) && ValidDraws(|d0|, dDraws)
      && Sized(ed, r0, d0, ads, numBucket, numCut)
    requires Accepted(p, bits, ed, r0, d0, ms, e, rDraws, dDraws, ads, numBucket)
    requires Wrong(p, ed) == 0 && Wrong(p, r0) == 0 && NoStarts(ads) && d in d0
    ensures Cong(p, d.value, Bit(d.bit))
  {
    hide IsPrime, Cong, IsCorrect, Wrong, CheckedValue, AllPass, AllProductsHold, ParametersOk, Gamma, ShuffledBy,
      CutsCorrect, Slot;
    var r, ds, n := ShuffledBy(r0, rDraws), ShuffledBy(d0, dDraws), |ed|;
    var k := ShuffledPlace(d0, dDraws, d);
    var j, i := PositionUsed(n, numBucket, k);
    assert BucketPasses(p, ed, r, ds, ads, j, i);
    ShuffledWrong(p, r0, rDraws);
    WrongNone(p, r);
    WrongNone(p, ed);
    DabitTested(p, ed[i], r[k], ds[k]);
  }

  lemma ShuffledPlace<T>(v: seq<T>, draws: seq<nat>, x: T) returns (k: nat)
    requires ValidDraws(|v|, draws) && x in v
    ensures k < |v| && ShuffledBy(v, draws)[k] == x
  {
    SattoloKeepsMultiset(v, |v| - 1, draws);
    hide Sattolo;
    assert x in multiset(v);
    assert x in multiset(ShuffledBy(v, draws));
    k :| 0 <= k < |v| && ShuffledBy(v, draws)[k] == x;
  }

  // ---------- how many selections accept ----------

  /** The choices of selections under which the whole check accepts. */
  ghost function AcceptingChoices(p: int, bits: nat, ed: seq<Edabit>, r0: seq<Edabit>, d0: seq<Dabit>, ms: seq<Masks>,
                                  rDraws: seq<nat>, dDraws: seq<nat>, ads: seq<Adder>, numBucket: nat)
    : set<seq<seq<bool>>>
    requires p > 0 && ValidDraws(|r0|, rDraws) && ValidDraws(|d0|, dDraws)
  {
    set e | e in Choices(|d0|, 38) && Accepted(p, bits, ed, r0, d0, ms, e, rDraws, dDraws, ads, numBucket)
  }

  /** With a wrong bit-valued dabit and bit masks the whole check accepts for at most one choice
      of selections in 2^38, whatever the shuffles. */
  lemma FewChoicesAccept(p: int, bits: nat, ed: seq<Edabit>, r0: seq<Edabit>, d0: seq<Dabit>, ms: seq<Masks>,
                         rDraws: seq<nat>, dDraws: seq<nat>, ads: seq<Adder>, numBucket: nat, k: nat)
    requires p > 0 && ValidDraws(|r0|, rDraws) && ValidDraws(|d0|, dDraws)
    requires HasBits(p, bits) && ParametersOk(|d0|, Gamma(|d0|), bits) && |ms| == 38
    requires forall i :: 0 <= i < |ms| ==> BitMasks(ms[i], Gamma(|d0|))
    requires BitValued(d0) && k < |d0| && d0[k].value != Bit(d0[k].bit)
    ensures |AcceptingChoices(p, bits, ed, r0, d0, ms, rDraws, dDraws, ads, numBucket)| * P2(38) <= |Choices(|d0|, 38)|
  {
    hide HasBits, ParametersOk, BitValued, P2, BitMasks, Gamma, AllPass, AllProductsHold, CutsCorrect, BucketsPass,
      Choices, ShuffledBy;
    AcceptedFraction(p, bits, d0, ms, k, 38);
    var A, B := AcceptingChoices(p, bits, ed, r0, d0, ms, rDraws, dDraws, ads, numBucket),
      AcceptedChoices(p, d0, ms, 38);
    assert A <= B;
    SubsetSize(A, B);
    hide AcceptingChoices, AcceptedChoices;
    Scaled(|A|, |B|, P2(38));
  }

  lemma {:induction false} SubsetSize<T>(A: set<T>, B: set<T>)
    requires A <= B
    ensures |A| <= |B|
    decreases |A|
  {
    if A != {} {
      var x :| x in A;
      SubsetSize(A - {x}, B - {x});
    }
  }

  lemma Scaled(a: nat, b: nat, k: nat)
    requires a <= b
    ensures a * k <= b * k
  {
    assert (b - a) * k >= 0;
  }
}
