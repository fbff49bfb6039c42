/** The whole conversion check (conv in swanky-dev/diet-mac-and-cheese/src/edabits.rs): the
    dabit test, the shuffles, the opened edabits and the buckets. */
module ConversionCheck {
  import opened Arith
  import opened Powers
  import opened Permutation
  import opened Edabits
  import opened FaultyDabits

  /** The position of conversion i in bucket j. */
  function Slot(j: nat, n: nat, i: nat): nat {
    j * n + i
  }

  lemma SlotInRange(j: nat, n: nat, buckets: nat)
    requires j < buckets
    ensures Slot(j, n, 0) + n <= n * buckets
  {
    assert n * buckets - j * n - n == n * (buckets - j - 1);
  }

  lemma SlotOffset(j: nat, n: nat, i: nat)
    ensures Slot(j, n, i) == Slot(j, n, 0) + i
  {
  }

  ghost predicate CutsCorrect(p: int, r: seq<Edabit>, lo: nat, hi: nat) {
    forall k :: lo <= k < hi && k < |r| ==> IsCorrect(p, r[k])
  }

  /** Conversion i in bucket j: the products of its addition are right and its zero check holds.
      ads are the starting carries and products that the prover committed, bucket by bucket. */
  ghost predicate BucketPasses(p: int, ed: seq<Edabit>, r: seq<Edabit>, ds: seq<Dabit>, ads: seq<Adder>, j: nat, i: nat)
  {
    var k := Slot(j, |ed|, i);
    && i < |ed| && k < |r| && k < |ds| && j < |ads| && i < |ads[j].start| && |ed[i].bits| == |r[k].bits|
    && LaneRight(ed[i].bits, r[k].bits, ads[j], i, |ed[i].bits|)
    && Cong(p, CheckedValue(ed[i], r[k], ds[k], ads[j].start[i]), 0)
  }

  ghost predicate BucketsPass(p: int, ed: seq<Edabit>, r: seq<Edabit>, ds: seq<Dabit>, ads: seq<Adder>, buckets: nat) {
    forall j, i :: 0 <= j < buckets && 0 <= i < |ed| ==> BucketPasses(p, ed, r, ds, ads, j, i)
  }

  /** One bucket's loop accepts exactly when all its conversions pass. */
  lemma WindowPasses(p: int, ed: seq<Edabit>, r: seq<Edabit>, ds: seq<Dabit>, ads: seq<Adder>, j: nat, m: nat,
                     zs: seq<int>)
    requires Slot(j, |ed|, 0) + |ed| <= |r| && Slot(j, |ed|, 0) + |ed| <= |ds|
    requires SameWidth(ed, m) && SameWidth(r, m) && j < |ads| && AdderShaped(ads[j], |ed|, m)
    requires var k := Slot(j, |ed|, 0); AllRight(ed, r[k..k + |ed|], ads[j], m) ==>
      |zs| == |ed| && forall i :: 0 <= i < |ed| ==>
        zs[i] == CheckedValue(ed[i], r[k..k + |ed|][i], ds[k..k + |ed|][i], ads[j].start[i])
    ensures var k := Slot(j, |ed|, 0);
      AllRight(ed, r[k..k + |ed|], ads[j], m) && (forall i :: 0 <= i < |zs| ==> Cong(p, zs[i], 0)) <==>
        forall i :: 0 <= i < |ed| ==> BucketPasses(p, ed, r, ds, ads, j, i)
  {
    hide Cong, CheckedValue, Slot, LaneRight, BucketPasses;
    var k := Slot(j, |ed|, 0);
    var w := r[k..k + |ed|];
    forall i | 0 <= i < |ed|
      ensures BucketPasses(p, ed, r, ds, ads, j, i) <==>
        LaneRight(ed[i].bits, w[i].bits, ads[j], i, m)
          && Cong(p, CheckedValue(ed[i], w[i], ds[k + i], ads[j].start[i]), 0)
    {
      EntryPasses(p, ed, r, ds, ads, j, i, m);
    }
  }

  lemma EntryPasses(p: int, ed: seq<Edabit>, r: seq<Edabit>, ds: seq<Dabit>, ads: seq<Adder>, j: nat, i: nat, m: nat)
    requires i < |ed| && Slot(j, |ed|, 0) + |ed| <= |r| && Slot(j, |ed|, 0) + |ed| <= |ds|
    requires SameWidth(ed, m) && SameWidth(r, m) && j < |ads| && AdderShaped(ads[j], |ed|, m)
    ensures var k := Slot(j, |ed|, 0) + i;
      BucketPasses(p, ed, r, ds, ads, j, i) <==>
        LaneRight(ed[i].bits, r[k].bits, ads[j], i, m) && Cong(p, CheckedValue(ed[i], r[k], ds[k], ads[j].start[i]), 0)
  {
    hide Cong, CheckedValue, Slot, LaneRight;
    SlotOffset(j, |ed|, i);
  }

  lemma CongIsSymmetric(p: int, a: int, b: int)
    ensures Cong(p, a, b) <==> Cong(p, b, a)
  {
    if Cong(p, a, b) { CongSym(p, a, b); }
    if Cong(p, b, a) { CongSym(p, b, a); }
  }

  /** Lists of the lengths that conv demands, and one committed addition per bucket. */
  ghost predicate Sized(ed: seq<Edabit>, r: seq<Edabit>, ds: seq<Dabit>, ads: seq<Adder>, numBucket: nat, numCut: nat) {
    && |r| == |ed| * numBucket + numCut && |ds| == |ed| * numBucket
    && |ads| == numBucket
    && (|ed| > 0 ==> SameWidth(ed, |ed[0].bits|) && SameWidth(r, |ed[0].bits|)
                     && forall j :: 0 <= j < numBucket ==> AdderShaped(ads[j], |ed|, |ed[0].bits|))
  }

  /** Step 5: open the last edabits. */
  method OpenCuts(p: int, r: seq<Edabit>, base: nat) returns (ok: bool)
    requires p > 0 && base <= |r|
    ensures ok <==> CutsCorrect(p, r, base, |r|)
  {
    hide BitsInt, Cong;
    for i := base to |r|
      invariant CutsCorrect(p, r, base, i)
    {
      var a := ConvertBitsToField(r[i].bits);
      CongIsSymmetric(p, a, r[i].value);
      if !Eq(p, a, r[i].value) { return false; }
    }
    ok := true;
  }

  /** Step 6: one conversion loop per bucket. */
  method CheckBuckets(p: int, ed: seq<Edabit>, r: seq<Edabit>, ds: seq<Dabit>, ads: seq<Adder>, numBucket: nat,
                      ghost numCut: nat) returns (ok: bool)
    requires p > 0 && |ed| > 0 && Sized(ed, r, ds, ads, numBucket, numCut)
    ensures ok <==> BucketsPass(p, ed, r, ds, ads, numBucket)
  {
    var n := |ed|;
    hide Cong, Slot, BucketPasses, CheckedValue, AllRight;
    for j := 0 to numBucket
      invariant BucketsPass(p, ed, r, ds, ads, j)
    {
      var k := Slot(j, n, 0);
      SlotInRange(j, n, numBucket);
      var zs, pass := ConvLoop(p, ed, r[k..k + n], ds[k..k + n], ads[j]);
      WindowPasses(p, ed, r, ds, ads, j, |ed[0].bits|, zs);
      if !pass { return false; }
    }
    ok := true;
  }

  // ---------- the run ----------

  /** Draws for the two shuffles, each strictly below its position. */
  ghost predicate ValidDraws(n: nat, draws: seq<nat>) {
    |draws| == n && forall k :: 0 < k < n ==> draws[k] < k
  }

  function ShuffledBy<T>(v: seq<T>, draws: seq<nat>): (r: seq<T>)
    requires ValidDraws(|v|, draws)
    ensures |r| == |v|
  {
    if v == [] then v else Sattolo(v, |v| - 1, draws)
  }

  method Shuffle<T>(v: seq<T>, draws: seq<nat>) returns (r: seq<T>)
    requires ValidDraws(|v|, draws)
    ensures r == ShuffledBy(v, draws)
  {
    var a := new T[|v|](i requires 0 <= i < |v| => v[i]);
    assert a[..] == v;
    GeneratePermutation(a, draws);
    r := a[..];
  }

  /** Shuffling keeps every common property of the entries. */
  lemma {:induction false} SattoloMembers<T>(v: seq<T>, i: nat, draws: seq<nat>, k: nat)
    requires i < |v| && ValidDraws(|v|, draws) && k < |v|
    ensures Sattolo(v, i, draws)[k] in v
    decreases i
  {
    if i > 0 {
      var s := Swap(v, draws[i], i);
      SattoloMembers(s, i - 1, draws, k);
      var j :| 0 <= j < |s| && s[j] == Sattolo(s, i - 1, draws)[k];
      assert s[j] == v[if j == i then draws[i] else if j == draws[i] then i else j];
    }
  }

  lemma ShuffledMembers<T>(v: seq<T>, draws: seq<nat>, k: nat)
    requires ValidDraws(|v|, draws) && k < |v|
    ensures ShuffledBy(v, draws)[k] in v
  {
    SattoloMembers(v, |v| - 1, draws, k);
  }

  /** What makes the whole check accept: the dabit test, the opened edabits and all buckets,
      after the two shuffles. */
  ghost predicate Accepted(p: int, bits: nat, ed: seq<Edabit>, r0: seq<Edabit>, d0: seq<Dabit>, ms: seq<Masks>,
                           e: seq<seq<bool>>, rDraws: seq<nat>, dDraws: seq<nat>, ads: seq<Adder>, numBucket: nat)
    requires p > 0 && ValidDraws(|r0|, rDraws) && ValidDraws(|d0|, dDraws)
  {
    && ParametersOk(|d0|, Gamma(|d0|), bits)
    && AllPass(p, d0, ms, e, SecurityParameter) && AllProductsHold(p, ms, SecurityParameter)
    && CutsCorrect(p, ShuffledBy(r0, rDraws), |ed| * numBucket, |r0|)
    && BucketsPass(p, ed, ShuffledBy(r0, rDraws), ShuffledBy(d0, dDraws), ads, numBucket)
  }

  /** conv, for whatever edabits, dabits, masks, starting carries and products were committed: it
      accepts exactly when the parameters fit, the dabit test passes, the opened edabits are right
      and in every bucket the products of the additions are right and the zero checks hold. No
      conversions are accepted at once. */
  method Conv(p: int, bits: nat, ed: seq<Edabit>, r0: seq<Edabit>, d0: seq<Dabit>, ms: seq<Masks>, e: seq<seq<bool>>,
              rDraws: seq<nat>, dDraws: seq<nat>, ads: seq<Adder>, numBucket: nat, ghost numCut: nat)
    returns (ok: bool)
    requires p > 0 && Sized(ed, r0, d0, ads, numBucket, numCut) && Shaped(|d0|, ms, e)
    requires ValidDraws(|r0|, rDraws) && ValidDraws(|d0|, dDraws)
    ensures ok <==> |ed| == 0 || Accepted(p, bits, ed, r0, d0, ms, e, rDraws, dDraws, ads, numBucket)
  {
    if |ed| == 0 { return true; }
    hide AllPass, AllProductsHold, BucketsPass, CutsCorrect, ParametersOk, Gamma;
    var verdict := Fdabit(p, bits, d0, ms, e);
    if verdict.Err? || !verdict.value { return false; }
    var r := Shuffle(r0, rDraws);
    var ds := Shuffle(d0, dDraws);
    ShuffledWidth(r0, rDraws, |ed[0].bits|);
    var base := |ed| * numBucket;
    ok := OpenCuts(p, r, base);
    if !ok { return; }
    ok := CheckBuckets(p, ed, r, ds, ads, numBucket, numCut);
  }

  lemma ShuffledWidth(r0: seq<Edabit>, draws: seq<nat>, m: nat)
    requires ValidDraws(|r0|, draws) && SameWidth(r0, m)
    ensures SameWidth(ShuffledBy(r0, draws), m)
  {
    forall k | 0 <= k < |r0| ensures |ShuffledBy(r0, draws)[k].bits| == m {
      ShuffledMembers(r0, draws, k);
    }
  }

  // ---------- what acceptance means ----------

  ghost predicate CorrectDabits(p: int, ds: seq<Dabit>) {
    forall k :: 0 <= k < |ds| ==> Cong(p, ds[k].value, Bit(ds[k].bit))
  }

  /** With a correct dabit and the right products a bucket passes exactly when the two errors add
      up to the starting carry. */
  lemma PassesIffErrorsCancel(p: int, ed: seq<Edabit>, r: seq<Edabit>, ds: seq<Dabit>, ads: seq<Adder>, j: nat, i: nat)
    requires CorrectDabits(p, ds) && i < |ed| && Slot(j, |ed|, i) < |r| && Slot(j, |ed|, i) < |ds|
    requires j < |ads| && i < |ads[j].start| && |ed[i].bits| == |r[Slot(j, |ed|, i)].bits|
    ensures BucketPasses(p, ed, r, ds, ads, j, i) <==>
      && LaneRight(ed[i].bits, r[Slot(j, |ed|, i)].bits, ads[j], i, |ed[i].bits|)
      && Cong(p, EdabitError(ed[i]), Bit(ads[j].start[i]) - EdabitError(r[Slot(j, |ed|, i)]))
  {
    hide Cong, CheckedValue, EdabitError, Slot, LaneRight;
    var k := Slot(j, |ed|, i);
    CheckedValueWithCorrectDabit(p, ed[i], r[k], ds[k], ads[j].start[i]);
  }

  /** In a bucket that passes with a correct dabit and without a starting carry, a conversion and
      its partner are right together, so a wrong conversion needs every partner of its row to be
      wrong. With a starting carry one of the two is always wrong. */
  lemma PartnersAgree(p: int, ed: seq<Edabit>, r: seq<Edabit>, ds: seq<Dabit>, ads: seq<Adder>, buckets: nat, j: nat,
                      i: nat)
    requires BucketsPass(p, ed, r, ds, ads, buckets) && CorrectDabits(p, ds) && j < buckets && i < |ed|
    ensures Slot(j, |ed|, i) < |r| && j < |ads| && i < |ads[j].start|
    ensures !ads[j].start[i] ==> (IsCorrect(p, ed[i]) <==> IsCorrect(p, r[Slot(j, |ed|, i)]))
    ensures ads[j].start[i] && p > 1 ==> !(IsCorrect(p, ed[i]) && IsCorrect(p, r[Slot(j, |ed|, i)]))
  {
    assert BucketPasses(p, ed, r, ds, ads, j, i);
    var k, start := Slot(j, |ed|, i), ads[j].start[i];
    PassesIffErrorsCancel(p, ed, r, ds, ads, j, i);
    hide Cong, IsCorrect, CheckedValue, EdabitError, Slot, BucketPasses, LaneRight;
    var a, b := EdabitError(ed[i]), EdabitError(r[k]);
    ErrorIsZero(p, ed[i]);
    ErrorIsZero(p, r[k]);
    if !start && Cong(p, a, 0) { CongBy2(p, b, 0, a, -b, 1, a, 0, -1); }
    if !start && Cong(p, b, 0) { CongBy2(p, a, 0, a, -b, 1, b, 0, -1); }
    if start && p > 1 && Cong(p, a, 0) && Cong(p, b, 0) {
      CongBy2(p, 1 - b, 0, a, 1 - b, -1, a, 0, 1);
      CongBy2(p, 1, 0, 1 - b, 0, 1, b, 0, 1);
      OneIsNotZero(p);
    }
  }

  lemma OneIsNotZero(p: int)
    requires p > 1
    ensures !Cong(p, 1, 0)
  {
    if Cong(p, 1, 0) { var k := CongWitness(p, 1, 0); }
  }

  /** The starting carry matters: the wrong conversion of the bit 0 to 1 passes with a right
      partner, a right dabit and the right product when the prover starts the addition with a
      carry, because nothing opens that carry. */
  lemma StartingCarryPasses(p: int)
    requires p > 1
    ensures var ed, r, ds := [Edabit([false], 1)], [Edabit([false], 0)], [Dabit(false, 0)];
      var ads := [Adder([true], [[true]])];
      && !IsCorrect(p, ed[0]) && IsCorrect(p, r[0]) && CorrectDabits(p, ds)
      && AdderShaped(ads[0], 1, 1) && BucketsPass(p, ed, r, ds, ads, 1)
  {
    hide CheckedValue, IsCorrect, Cong, LaneRight;
    var ed, r, ds := [Edabit([false], 1)], [Edabit([false], 0)], [Dabit(false, 0)];
    var ads := [Adder([true], [[true]])];
    SingleValues(p);
    SingleLane(ads[0]);
    assert BucketPasses(p, ed, r, ds, ads, 0, 0);
  }

  lemma SingleValues(p: int)
    requires p > 1
    ensures var ed, r, d := Edabit([false], 1), Edabit([false], 0), Dabit(false, 0);
      && !IsCorrect(p, ed) && IsCorrect(p, r) && Cong(p, d.value, Bit(d.bit))
        && Cong(p, CheckedValue(ed, r, d, true), 0)
  {
    hide Cong, P2, BitsInt, Carry;
    ZeroBit();
    OneIsNotZero(p);
    CongRefl(p, 0);
    assert CheckedValue(Edabit([false], 1), Edabit([false], 0), Dabit(false, 0), true) == -P2(1) * 0;
  }

  lemma ZeroBit()
    ensures BitsInt([false]) == 0 && BitsInt([]) == 0 && Carry([], [], true)
  {
    P2Next(0);
    assert BitsInt([]) == 0;
    BitsPush([], false);
    assert [] + [false] == [false];
  }

  lemma SingleLane(a: Adder)
    requires a == Adder([true], [[true]])
    ensures LaneRight([false], [false], a, 0, 1)
  {
    ZeroBit();
    hide Carry, BitsInt;
    assert [false][..0] == [];
    assert RightProduct([false], [false], true, 0);
  }

  /** The prover followed the protocol. */
  ghost predicate HonestProver(p: int, ed: seq<Edabit>, r0: seq<Edabit>, d0: seq<Dabit>, ms: seq<Masks>) {
    && (forall i :: 0 <= i < |ed| ==> IsCorrect(p, ed[i]))
    && (forall k :: 0 <= k < |r0| ==> IsCorrect(p, r0[k]))
    && (forall k :: 0 <= k < |d0| ==> d0[k].value == Bit(d0[k].bit))
    && (forall k :: 0 <= k < |ms| ==> HonestMasks(ms[k], Gamma(|d0|)))
  }

  /** It adds without starting carries and with the right products. */
  ghost predicate HonestAdders(ed: seq<Edabit>, r: seq<Edabit>, ads: seq<Adder>, numBucket: nat) {
    forall j, i :: 0 <= j < numBucket && 0 <= i < |ed| ==> HonestLane(ed, r, ads, j, i)
  }

  ghost predicate HonestLane(ed: seq<Edabit>, r: seq<Edabit>, ads: seq<Adder>, j: nat, i: nat) {
    var k := Slot(j, |ed|, i);
    && i < |ed| && k < |r| && j < |ads| && i < |ads[j].start| && |ed[i].bits| == |r[k].bits|
    && !ads[j].start[i] && LaneRight(ed[i].bits, r[k].bits, ads[j], i, |ed[i].bits|)
  }

  /** An honest prover is accepted under every shuffle and selection. */
  lemma HonestConversionAccepted(p: int, bits: nat, ed: seq<Edabit>, r0: seq<Edabit>, d0: seq<Dabit>, ms: seq<Masks>,
                                 e: seq<seq<bool>>, rDraws: seq<nat>, dDraws: seq<nat>, ads: seq<Adder>, numBucket: nat,
                                 numCut: nat)
    requires p > 0 && Sized(ed, r0, d0, ads, numBucket, numCut) && Shaped(|d0|, ms, e)
    requires ValidDraws(|r0|, rDraws) && ValidDraws(|d0|, dDraws)
    requires HonestProver(p, ed, r0, d0, ms) && HasBits(p, bits) && ParametersOk(|d0|, Gamma(|d0|), bits)
    requires HonestAdders(ed, ShuffledBy(r0, rDraws), ads, numBucket)
    ensures Accepted(p, bits, ed, r0, d0, ms, e, rDraws, dDraws, ads, numBucket)
  {
    HonestDabitsPass(p, bits, d0, ms, e);
    hide AllPass, AllProductsHold, ParametersOk, HasBits, Gamma, HonestMasks, Cong, Slot, ShuffledBy, HonestLane;
    var r, ds := ShuffledBy(r0, rDraws), ShuffledBy(d0, dDraws);
    forall k | 0 <= k < |r| ensures IsCorrect(p, r[k]) {
      ShuffledMembers(r0, rDraws, k);
    }
    forall k | 0 <= k < |ds| ensures Cong(p, ds[k].value, Bit(ds[k].bit)) {
      ShuffledMembers(d0, dDraws, k);
      CongRefl(p, ds[k].value);
    }
    forall j: nat, i: nat | j < numBucket && i < |ed| ensures BucketPasses(p, ed, r, ds, ads, j, i) {
      SlotInRange(j, |ed|, numBucket);
      SlotOffset(j, |ed|, i);
      assert HonestLane(ed, r, ads, j, i);
      CorrectPairPasses(p, ed, r, ds, ads, j, i);
    }
  }

  lemma CorrectPairPasses(p: int, ed: seq<Edabit>, r: seq<Edabit>, ds: seq<Dabit>, ads: seq<Adder>, j: nat, i: nat)
    requires CorrectDabits(p, ds) && HonestLane(ed, r, ads, j, i) && Slot(j, |ed|, i) < |ds|
    requires IsCorrect(p, ed[i]) && IsCorrect(p, r[Slot(j, |ed|, i)])
    ensures BucketPasses(p, ed, r, ds, ads, j, i)
  {
    PassesIffErrorsCancel(p, ed, r, ds, ads, j, i);
    hide Cong, IsCorrect, CheckedValue, EdabitError, Slot, BucketPasses, LaneRight;
    var k := Slot(j, |ed|, i);
    ErrorIsZero(p, ed[i]);
    ErrorIsZero(p, r[k]);
    CongBy2(p, EdabitError(ed[i]), -EdabitError(r[k]), EdabitError(ed[i]), 0, 1, EdabitError(r[k]), 0, 1);
  }

  /** Such additions exist for every shuffle. */
  lemma HonestAddersExist(ed: seq<Edabit>, r: seq<Edabit>, numBucket: nat, m: nat) returns (ads: seq<Adder>)
    requires SameWidth(ed, m) && SameWidth(r, m) && |ed| * numBucket <= |r|
    ensures HonestAdders(ed, r, ads, numBucket) && |ads| == numBucket
    ensures forall j :: 0 <= j < numBucket ==> AdderShaped(ads[j], |ed|, m)
  {
    hide Slot, LaneRight, RightProduct;
    var n := |ed|;
    ads := [];
    while |ads| < numBucket
      invariant |ads| <= numBucket && HonestAdders(ed, r, ads, |ads|)
      invariant forall j :: 0 <= j < |ads| ==> AdderShaped(ads[j], |ed|, m)
    {
      var j := |ads|;
      SlotInRange(j, n, numBucket);
      var k := Slot(j, n, 0);
      var a := HonestAdder(ed, r[k..k + n], m);
      var next := ads + [a];
      forall i | 0 <= i < n ensures HonestLane(ed, r, next, j, i) {
        SlotOffset(j, n, i);
        assert r[k..k + n][i] == r[Slot(j, n, i)];
      }
      forall j', i | 0 <= j' < j && 0 <= i < n ensures HonestLane(ed, r, next, j', i) {
        assert HonestLane(ed, r, ads, j', i);
      }
      ads := next;
    }
  }
}
