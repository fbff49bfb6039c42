/** The two shuffles: random_permutation with its inverse kept in step (src/aok.rs) and the
    field-switching protocol's generate_permutation (edabits.rs). Draws are arguments. */
module Permutation {
  import opened Folds

  function Swap<T>(s: seq<T>, i: nat, j: nat): (r: seq<T>)
    requires i < |s| && j < |s|
    ensures |r| == |s| && r[i] == s[j] && r[j] == s[i]
    ensures forall k :: 0 <= k < |s| && k != i && k != j ==> r[k] == s[k]
  {
    s[i := s[j]][j := s[i]]
  }

  /** inv is the inverse of perm, entry by entry in both directions. */
  ghost predicate Inverse(perm: seq<nat>, inv: seq<nat>) {
    && |perm| == |inv|
    && (forall k :: 0 <= k < |perm| ==> perm[k] < |perm| && inv[perm[k]] == k)
    && (forall k :: 0 <= k < |perm| ==> inv[k] < |perm| && perm[inv[k]] == k)
  }

  lemma InverseIsPermutation(perm: seq<nat>, inv: seq<nat>)
    requires Inverse(perm, inv)
    ensures IsPermutation(perm) && IsPermutation(inv)
  {
    forall i, j | 0 <= i < j < |perm|
      ensures perm[i] != perm[j] && inv[i] != inv[j]
    {
      assert inv[perm[i]] == i && inv[perm[j]] == j;
      assert perm[inv[i]] == i && perm[inv[j]] == j;
    }
  }

  /** Fisher-Yates from position i down, drawing j <= i at each step. */
  function FisherYates<T>(s: seq<T>, i: nat, draws: seq<nat>): (r: seq<T>)
    requires i < |s| || (i == 0 && s == [])
    requires |draws| == |s| && forall k :: 0 <= k < |draws| ==> draws[k] <= k
    ensures |r| == |s|
    decreases i
  {
    if i == 0 then s else FisherYates(Swap(s, i, draws[i]), i - 1, draws)
  }

  /** One exchange, with the inverse table re-pointed at the two moved entries. */
  method SwapStep(p: array<nat>, q: array<nat>, i: nat, j: nat)
    requires p != q && Inverse(p[..], q[..]) && i < p.Length && j < p.Length
    modifies p, q
    ensures Inverse(p[..], q[..]) && p[..] == Swap(old(p[..]), i, j)
  {
    ghost var p0: seq<nat>, q0: seq<nat> := p[..], q[..];
    p[i], p[j] := p[j], p[i];
    assert p[..] == Swap(p0, i, j);
    q[p[i]] := i;
    q[p[j]] := j;
    SwapKeepsInverse(p0, q0, i, j);
    assert q[..] == q0[p0[j] := i][p0[i] := j];
  }

  lemma IotaIsInverse(n: nat)
    ensures Inverse(Iota(n), Iota(n))
  {
  }

  lemma FisherYatesNext(s: seq<nat>, i: nat, draws: seq<nat>)
    requires 0 < i < |s| && |draws| == |s| && forall k :: 0 <= k < |draws| ==> draws[k] <= k
    ensures FisherYates(s, i, draws) == FisherYates(Swap(s, i, draws[i]), i - 1, draws)
  {
  }

  lemma FisherYatesDone(s: seq<nat>, draws: seq<nat>)
    requires |draws| == |s| && forall k :: 0 <= k < |draws| ==> draws[k] <= k
    ensures FisherYates(s, 0, draws) == s
  {
  }

  method RandomPermutation(n: nat, draws: seq<nat>) returns (perm: seq<nat>, inv: seq<nat>)
    requires |draws| == n && forall k :: 0 <= k < n ==> draws[k] <= k
    ensures |perm| == n && Inverse(perm, inv)
    ensures perm == FisherYates(Iota(n), if n == 0 then 0 else n - 1, draws)
  {
    hide Inverse, FisherYates;
    var p := new nat[n](i => i);
    var q := new nat[n](i => i);
    assert p[..] == Iota(n) && q[..] == Iota(n);
    IotaIsInverse(n);
    hide Iota;
    var i: nat := if n == 0 then 0 else n - 1;
    while i > 0
      invariant 0 <= i && (i < n || n == 0)
      invariant Inverse(p[..], q[..])
      invariant FisherYates(p[..], i, draws) == FisherYates(Iota(n), if n == 0 then 0 else n - 1, draws)
    {
      FisherYatesNext(p[..], i, draws);
      SwapStep(p, q, i, draws[i]);
      i := i - 1;
    }
    assert FisherYates(p[..], 0, draws) == p[..] by { FisherYatesDone(p[..], draws); }
    perm, inv := p[..], q[..];
  }

  /** Re-pointing the two moved entries keeps the tables mutually inverse. */
  lemma SwapKeepsInverse(p: seq<nat>, q: seq<nat>, i: nat, j: nat)
    requires Inverse(p, q) && i < |p| && j < |p|
    ensures Inverse(Swap(p, i, j), q[p[j] := i][p[i] := j])
  {
    InverseIsPermutation(p, q);
    var p', q' := Swap(p, i, j), q[p[j] := i][p[i] := j];
    forall k | 0 <= k < |p|
      ensures p'[k] < |p| && q'[p'[k]] == k
    {
      if k != i && k != j {
        assert p[k] != p[i] && p[k] != p[j];
      }
    }
    forall k | 0 <= k < |p|
      ensures q'[k] < |p| && p'[q'[k]] == k
    {
      if k != p[i] && k != p[j] {
        assert p[q[k]] == k;
        assert q[k] != i && q[k] != j;
      }
    }
  }

  /** Every arrangement is the outcome of some draws: no permutation is out of reach. */
  lemma {:induction false} EveryArrangementDrawn<T>(s: seq<T>, t: seq<T>, i: nat) returns (draws: seq<nat>)
    requires |s| == |t| && i < |s|
    requires multiset(s[..i + 1]) == multiset(t[..i + 1]) && s[i + 1..] == t[i + 1..]
    ensures |draws| == |s| && forall k :: 0 <= k < |draws| ==> draws[k] <= k
    ensures FisherYates(s, i, draws) == t
    decreases i
  {
    if i == 0 {
      draws := seq(|s|, _ => 0);
      SingletonArrangement(s, t);
    } else {
      var j := PickDraw(s, t, i);
      var rest := EveryArrangementDrawn(Swap(s, i, j), t, i - 1);
      draws := rest[i := j];
      DrawsAbove(Swap(s, i, j), i - 1, rest, i, j);
    }
  }

  lemma SingletonArrangement<T>(s: seq<T>, t: seq<T>)
    requires |s| == |t| > 0 && multiset(s[..1]) == multiset(t[..1]) && s[1..] == t[1..]
    ensures s == t
  {
    assert s[..1] == [s[0]] && t[..1] == [t[0]];
    assert s[0] in multiset(t[..1]);
    assert s == s[..1] + s[1..] && t == t[..1] + t[1..];
  }

  lemma PickDraw<T>(s: seq<T>, t: seq<T>, i: nat) returns (j: nat)
    requires |s| == |t| && 0 < i < |s|
    requires multiset(s[..i + 1]) == multiset(t[..i + 1]) && s[i + 1..] == t[i + 1..]
    ensures j <= i
    ensures multiset(Swap(s, i, j)[..i]) == multiset(t[..i]) && Swap(s, i, j)[i..] == t[i..]
  {
    j := SameMember(t[..i + 1], s[..i + 1], i);
    SwapPrefix(s, i, j);
    SwapTail(s, i, j);
    hide Swap;
    SplitLast(Swap(s, i, j), t, i);
  }

  lemma SplitLast<T>(s: seq<T>, t: seq<T>, i: nat)
    requires i < |s| == |t| && s[i] == t[i]
    requires multiset(s[..i + 1]) == multiset(t[..i + 1]) && s[i + 1..] == t[i + 1..]
    ensures multiset(s[..i]) == multiset(t[..i]) && s[i..] == t[i..]
  {
    assert s[..i + 1] == s[..i] + [t[i]] && t[..i + 1] == t[..i] + [t[i]];
    LastRemoved(s[..i], t[..i], t[i]);
    assert s[i..] == [t[i]] + s[i + 1..] && t[i..] == [t[i]] + t[i + 1..];
  }

  lemma SameMember<T>(a: seq<T>, b: seq<T>, i: nat) returns (j: nat)
    requires i < |a| && multiset(a) == multiset(b)
    ensures j < |b| && b[j] == a[i]
  {
    assert a[i] in multiset(b);
    j :| 0 <= j < |b| && b[j] == a[i];
  }

  lemma LastRemoved<T>(a: seq<T>, b: seq<T>, x: T)
    requires multiset(a + [x]) == multiset(b + [x])
    ensures multiset(a) == multiset(b)
  {
    assert multiset(a) == multiset(a + [x]) - multiset{x};
    assert multiset(b) == multiset(b + [x]) - multiset{x};
  }

  lemma SwapTail<T>(s: seq<T>, i: nat, j: nat)
    requires j <= i < |s|
    ensures Swap(s, i, j)[i + 1..] == s[i + 1..]
  {
  }

  lemma SwapPrefix<T>(s: seq<T>, i: nat, j: nat)
    requires j <= i < |s|
    ensures multiset(Swap(s, i, j)[..i + 1]) == multiset(s[..i + 1])
  {
    var a, b := s[..i + 1], Swap(s, i, j)[..i + 1];
    assert b == a[i := a[j]][j := a[i]];
  }

  /** Draws at higher positions do not matter. */
  lemma {:induction false} DrawsAbove<T>(s: seq<T>, i: nat, draws: seq<nat>, k: nat, j: nat)
    requires i < k < |s| == |draws| && j <= k && forall m :: 0 <= m < |draws| ==> draws[m] <= m
    ensures FisherYates(s, i, draws[k := j]) == FisherYates(s, i, draws)
    decreases i
  {
    if i > 0 {
      DrawsAbove(Swap(s, i, draws[i]), i - 1, draws, k, j);
    }
  }

  // ---------- generate_permutation ----------

  /** The same loop drawing strictly below i. */
  function Sattolo<T>(s: seq<T>, i: nat, draws: seq<nat>): (r: seq<T>)
    requires i < |s| == |draws| && forall k :: 0 < k < |draws| ==> draws[k] < k
    ensures |r| == |s|
    decreases i
  {
    if i == 0 then s else Sattolo(Swap(s, draws[i], i), i - 1, draws)
  }

  method GeneratePermutation<T>(v: array<T>, draws: seq<nat>)
    requires |draws| == v.Length && forall k :: 0 < k < |draws| ==> draws[k] < k
    modifies v
    ensures v.Length == 0 ==> v[..] == old(v[..])
    ensures v.Length > 0 ==> v[..] == Sattolo(old(v[..]), v.Length - 1, draws)
  {
    if v.Length == 0 {
      return;
    }
    ghost var v0 := v[..];
    var i := v.Length - 1;
    while i > 0
      invariant 0 <= i < v.Length
      invariant Sattolo(v[..], i, draws) == Sattolo(v0, v.Length - 1, draws)
    {
      ghost var before := v[..];
      var idx := draws[i];
      v[idx], v[i] := v[i], v[idx];
      assert v[..] == Swap(before, idx, i);
      i := i - 1;
    }
  }

  function Next(c: seq<nat>, j: nat): nat
    requires j < |c|
  {
    if j + 1 == |c| then c[0] else c[j + 1]
  }

  /** Each slot of the cycle c receives the element of the next slot; slots outside keep theirs. */
  ghost predicate MovesAlong<T(!new)>(v: seq<T>, r: seq<T>, c: seq<nat>) {
    && IsPermutation(c) && |c| <= |v| == |r|
    && (forall j :: 0 <= j < |c| ==> r[c[j]] == v[Next(c, j)])
    && (forall k :: |c| <= k < |v| ==> r[k] == v[k])
  }

  /** c with its own length inserted before position p. */
  function Insert(c: seq<nat>, p: nat): (r: seq<nat>)
    requires p < |c|
    ensures |r| == |c| + 1
    ensures forall j :: 0 <= j < p ==> r[j] == c[j]
    ensures r[p] == |c|
    ensures forall j :: p < j <= |c| ==> r[j] == c[j - 1]
  {
    c[..p] + [|c|] + c[p..]
  }

  lemma InsertPermutation(c: seq<nat>, p: nat)
    requires IsPermutation(c) && p < |c|
    ensures IsPermutation(Insert(c, p))
  {
  }

  /** Position i enters the cycle just before the drawn slot. */
  lemma InsertIntoCycle<T(!new)>(v: seq<T>, r: seq<T>, c: seq<nat>, i: nat, idx: nat) returns (c': seq<nat>)
    requires idx < i == |c| && i < |v| && MovesAlong(Swap(v, idx, i), r, c)
    ensures |c'| == i + 1 && MovesAlong(v, r, c')
  {
    hide Insert;
    var p := SlotIn(c, idx);
    c' := Insert(c, p);
    InsertPermutation(c, p);
    forall j | 0 <= j < |c'|
      ensures r[c'[j]] == v[Next(c', j)]
    {
      InsertedMoves(v, r, c, i, idx, p, j);
    }
  }

  lemma InsertedMoves<T(!new)>(v: seq<T>, r: seq<T>, c: seq<nat>, i: nat, idx: nat, p: nat, j: nat)
    requires idx < i == |c| && i < |v| && MovesAlong(Swap(v, idx, i), r, c) && p < |c| && c[p] == idx && j <= |c|
    ensures r[Insert(c, p)[j]] == v[Next(Insert(c, p), j)]
  {
    hide Insert, Next;
    NextInserted(c, p, j);
    if j == p {
      assert r[i] == Swap(v, idx, i)[i];
    } else {
      var a := if j < p then j else j - 1;
      NextBelow(c, a);
      assert r[c[a]] == Swap(v, idx, i)[Next(c, a)];
    }
  }

  lemma NextBelow(c: seq<nat>, a: nat)
    requires IsPermutation(c) && a < |c|
    ensures Next(c, a) < |c|
  {
  }

  lemma NextInserted(c: seq<nat>, p: nat, j: nat)
    requires IsPermutation(c) && p < |c| && j <= |c|
    ensures j == p ==> Insert(c, p)[j] == |c| && Next(Insert(c, p), j) == c[p]
    ensures j != p ==> var a := if j < p then j else j - 1;
      Insert(c, p)[j] == c[a] && Next(Insert(c, p), j) == if Next(c, a) == c[p] then |c| else Next(c, a)
  {
    hide Insert;
  }

  lemma SlotIn(c: seq<nat>, k: nat) returns (p: nat)
    requires IsPermutation(c) && k < |c|
    ensures p < |c| && c[p] == k
  {
    PermutationIsSurjective(c, |c|);
    assert Iota(|c|)[k] == k;
    assert k in multiset(c);
    p :| 0 <= p < |c| && c[p] == k;
  }

  /** The restricted draws always move the elements along one single cycle through all slots. */
  lemma {:induction false} SattoloIsOneCycle<T(!new)>(v: seq<T>, i: nat, draws: seq<nat>) returns (c: seq<nat>)
    requires i < |v| == |draws| && forall k :: 0 < k < |draws| ==> draws[k] < k
    ensures |c| == i + 1 && MovesAlong(v, Sattolo(v, i, draws), c)
    decreases i
  {
    if i == 0 {
      c := [0];
    } else {
      var w := Swap(v, draws[i], i);
      var c' := SattoloIsOneCycle(w, i - 1, draws);
      c := InsertIntoCycle(v, Sattolo(w, i - 1, draws), c', i, draws[i]);
    }
  }

  /** Hence no element stays where it was, whenever there are at least two distinct ones. */
  lemma SattoloMovesEverything<T(!new)>(v: seq<T>, draws: seq<nat>, k: nat)
    requires k < |v| == |draws| && |v| >= 2 && forall m :: 0 < m < |draws| ==> draws[m] < m
    requires forall a, b :: 0 <= a < b < |v| ==> v[a] != v[b]
    ensures Sattolo(v, |v| - 1, draws)[k] != v[k]
  {
    var c := SattoloIsOneCycle(v, |v| - 1, draws);
    var j := SlotIn(c, k);
    assert Next(c, j) != k;
  }

  // ---------- which draws give which arrangement ----------

  /** Steps from position i down leave everything above i alone. */
  lemma {:induction false} FisherYatesAbove<T>(s: seq<T>, i: nat, draws: seq<nat>, k: nat)
    requires i < k < |s| == |draws| && forall m :: 0 <= m < |draws| ==> draws[m] <= m
    ensures FisherYates(s, i, draws)[k] == s[k]
    decreases i
  {
    if i > 0 { FisherYatesAbove(Swap(s, i, draws[i]), i - 1, draws, k); }
  }

  lemma {:induction false} SattoloAbove<T>(s: seq<T>, i: nat, draws: seq<nat>, k: nat)
    requires i < k < |s| == |draws| && forall m :: 0 < m < |draws| ==> draws[m] < m
    ensures Sattolo(s, i, draws)[k] == s[k]
    decreases i
  {
    if i > 0 { SattoloAbove(Swap(s, draws[i], i), i - 1, draws, k); }
  }

  /** The entry drawn at position i is the one that ends there. */
  lemma FisherYatesLands<T>(s: seq<T>, i: nat, draws: seq<nat>)
    requires i < |s| == |draws| && forall m :: 0 <= m < |draws| ==> draws[m] <= m
    ensures FisherYates(s, i, draws)[i] == s[draws[i]]
  {
    if i > 0 { FisherYatesFrom(Swap(s, i, draws[i]), i, draws, s[draws[i]]); }
  }

  lemma FisherYatesFrom<T>(w: seq<T>, i: nat, draws: seq<nat>, x: T)
    requires 0 < i < |w| == |draws| && w[i] == x && forall m :: 0 <= m < |draws| ==> draws[m] <= m
    ensures FisherYates(w, i - 1, draws)[i] == x
  {
    hide FisherYates;
    FisherYatesAbove(w, i - 1, draws, i);
  }

  lemma SattoloLands<T>(s: seq<T>, i: nat, draws: seq<nat>)
    requires 0 < i < |s| == |draws| && forall m :: 0 < m < |draws| ==> draws[m] < m
    ensures Sattolo(s, i, draws)[i] == s[draws[i]]
  {
    SattoloFrom(Swap(s, draws[i], i), i, draws, s[draws[i]]);
  }

  lemma SattoloFrom<T>(w: seq<T>, i: nat, draws: seq<nat>, x: T)
    requires 0 < i < |w| == |draws| && w[i] == x && forall m :: 0 < m < |draws| ==> draws[m] < m
    ensures Sattolo(w, i - 1, draws)[i] == x
  {
    hide Sattolo;
    SattoloAbove(w, i - 1, draws, i);
  }

  ghost predicate AllDifferent<T>(s: seq<T>) {
    forall i, j :: 0 <= i < j < |s| ==> s[i] != s[j]
  }

  lemma SwapDifferent<T>(s: seq<T>, i: nat, j: nat)
    requires AllDifferent(s) && i < |s| && j < |s|
    ensures AllDifferent(Swap(s, i, j))
  {
  }

  /** Different draws at some position up to i give different arrangements of distinct entries. */
  lemma {:induction false} FisherYatesDrawsUnique<T>(s: seq<T>, i: nat, draws: seq<nat>, draws': seq<nat>, k: nat)
    requires k <= i < |s| == |draws| == |draws'| && AllDifferent(s)
    requires forall m :: 0 <= m < |s| ==> draws[m] <= m && draws'[m] <= m
    requires FisherYates(s, i, draws) == FisherYates(s, i, draws')
    ensures draws[k] == draws'[k]
    decreases i
  {
    FisherYatesLands(s, i, draws);
    FisherYatesLands(s, i, draws');
    if k < i {
      SwapDifferent(s, i, draws[i]);
      FisherYatesDrawsUnique(Swap(s, i, draws[i]), i - 1, draws, draws', k);
    }
  }

  /** The same for the restricted draws, from position 1 up. */
  lemma {:induction false} SattoloDrawsUnique<T>(s: seq<T>, i: nat, draws: seq<nat>, draws': seq<nat>, k: nat)
    requires 0 < k <= i < |s| == |draws| == |draws'| && AllDifferent(s)
    requires forall m :: 0 < m < |s| ==> draws[m] < m && draws'[m] < m
    requires Sattolo(s, i, draws) == Sattolo(s, i, draws')
    ensures draws[k] == draws'[k]
    decreases i
  {
    SattoloLands(s, i, draws);
    SattoloLands(s, i, draws');
    if k < i {
      SwapDifferent(s, draws[i], i);
      SattoloDrawsUnique(Swap(s, draws[i], i), i - 1, draws, draws', k);
    }
  }

  /** c without position p. */
  function Removed(c: seq<nat>, p: nat): (r: seq<nat>)
    requires p < |c|
    ensures |r| == |c| - 1
    ensures forall j :: 0 <= j < p ==> r[j] == c[j]
    ensures forall j :: p <= j < |r| ==> r[j] == c[j + 1]
  {
    c[..p] + c[p + 1..]
  }

  lemma RemovedPermutation(c: seq<nat>, p: nat)
    requires IsPermutation(c) && p < |c| && c[p] == |c| - 1
    ensures IsPermutation(Removed(c, p))
  {
  }

  /** A single cycle through the slots up to i: drawing the slot after i leaves a single cycle
      through the slots below i. */
  lemma CycleWithout<T(!new)>(v: seq<T>, r: seq<T>, c: seq<nat>, i: nat) returns (idx: nat, c': seq<nat>)
    requires 0 < i < |v| && |c| == i + 1 && MovesAlong(v, r, c)
    ensures idx < i && |c'| == i && MovesAlong(Swap(v, idx, i), r, c')
  {
    hide Removed;
    var p := SlotIn(c, i);
    idx := Next(c, p);
    c' := Removed(c, p);
    RemovedPermutation(c, p);
    var w := Swap(v, idx, i);
    assert r[c[p]] == v[Next(c, p)];
    forall j | 0 <= j < |c'|
      ensures r[c'[j]] == w[Next(c', j)]
    {
      var a := if j < p then j else j + 1;
      assert r[c[a]] == v[Next(c, a)];
      NextWithout(c, p, j);
    }
  }

  lemma NextWithout(c: seq<nat>, p: nat, j: nat)
    requires IsPermutation(c) && p < |c| && j < |c| - 1
    ensures var a := if j < p then j else j + 1; var n := Next(c, a);
      Next(Removed(c, p), j) == if n == c[p] then Next(c, p) else n
    ensures var a := if j < p then j else j + 1; Next(c, a) != Next(c, p)
  {
  }

  /** Every arrangement along one single cycle through all slots is the outcome of some draws. */
  lemma {:induction false} EveryCycleDrawn<T(!new)>(v: seq<T>, r: seq<T>, c: seq<nat>, i: nat) returns (draws: seq<nat>)
    requires i < |v| && |c| == i + 1 && MovesAlong(v, r, c)
    ensures |draws| == |v| && (forall k :: 0 < k < |draws| ==> draws[k] < k)
    ensures Sattolo(v, i, draws) == r
    decreases i
  {
    if i == 0 {
      draws := seq(|v|, _ => 0);
      assert c[0] == 0 && r[c[0]] == v[Next(c, 0)];
      assert r == v;
    } else {
      var idx, c' := CycleWithout(v, r, c, i);
      var rest := EveryCycleDrawn(Swap(v, idx, i), r, c', i - 1);
      draws := rest[i := idx];
      RestrictedDrawsAbove(Swap(v, idx, i), i - 1, rest, i, idx);
    }
  }

  lemma {:induction false} RestrictedDrawsAbove<T>(s: seq<T>, i: nat, draws: seq<nat>, k: nat, j: nat)
    requires i < k < |s| == |draws| && j < k && forall m :: 0 < m < |draws| ==> draws[m] < m
    ensures Sattolo(s, i, draws[k := j]) == Sattolo(s, i, draws)
    decreases i
  {
    if i > 0 { RestrictedDrawsAbove(Swap(s, draws[i], i), i - 1, draws, k, j); }
  }
}
