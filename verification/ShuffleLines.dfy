/** The combinatorial core of the shuffle argument (src/aok.rs): if the numbers zeta_i + delta p_i
    rearrange z_j + delta j for enough values of delta, then p is a permutation and zeta is z
    read along it. */
module ShuffleLines {
  import opened Arith
  import opened Folds
  import opened Polynomials
  import opened ShuffleArgument
  import opened ShuffleSoundness

  // ---------- lines over the residues ----------

  /** The lines u + delta v and u' + delta v' meet at delta. */
  ghost predicate Meet(l: int, u: int, v: int, u': int, v': int, delta: int) {
    Cong(l, u + delta * v, u' + delta * v')
  }

  ghost predicate SameLine(l: int, u: int, v: int, u': int, v': int) {
    Cong(l, u, u') && Cong(l, v, v')
  }

  /** Lines that meet twice are the same. */
  lemma MeetTwice(l: int, u: int, v: int, u': int, v': int, d: int, d': int)
    requires IsPrime(l) && !Cong(l, d, d') && Meet(l, u, v, u', v', d) && Meet(l, u, v, u', v', d')
    ensures SameLine(l, u, v, u', v')
  {
    hide IsPrime, Cong;
    var t, s := v - v', d - d';
    assert s * t == (u + d * v) - (u' + d * v') - ((u + d' * v) - (u' + d' * v')) by { LineDifference(d, d', v, v'); }
    CongBy2(l, s * t, 0, u + d * v, u' + d * v', 1, u + d' * v, u' + d' * v', -1);
    NoZeroDivisors(l, s, t);
    if Cong(l, s, 0) { CongBy(l, d, d', s, 0, 1); }
    CongBy(l, v, v', t, 0, 1);
    assert u - u' == ((u + d * v) - (u' + d * v')) + -d * t by { LineDifference(d, 0, v, v'); }
    CongBy2(l, u, u', u + d * v, u' + d * v', 1, t, 0, -d);
  }

  lemma LineDifference(d: int, d': int, v: int, v': int)
    ensures (d - d') * (v - v') == d * v - d * v' - d' * v + d' * v'
  {
  }

  // ---------- a value of delta at which different lines are apart ----------

  /** Lines i and j of two families are different and meet at delta. */
  ghost predicate Crossing(l: int, us: seq<int>, vs: seq<int>, us': seq<int>, vs': seq<int>, delta: int, i: nat,
                           j: nat) {
    i < |us| == |vs| && j < |us'| == |vs'| && !SameLine(l, us[i], vs[i], us'[j], vs'[j])
    && Meet(l, us[i], vs[i], us'[j], vs'[j], delta)
  }

  ghost predicate Apart(l: int, us: seq<int>, vs: seq<int>, us': seq<int>, vs': seq<int>, delta: int) {
    forall i: nat, j: nat :: !Crossing(l, us, vs, us', vs', delta, i, j)
  }

  /** Different numbers below N are at most N. */
  lemma {:induction false} FewNumbers(s: seq<nat>, N: nat)
    requires (forall i :: 0 <= i < |s| ==> s[i] < N) && (forall i, j :: 0 <= i < j < |s| ==> s[i] != s[j])
    ensures |s| <= N
    decreases N
  {
    if s != [] {
      assert s[0] < N;
      if k :| 0 <= k < |s| && s[k] == N - 1 {
        var t := s[..k] + s[k + 1..];
        forall i | 0 <= i < |t| ensures t[i] < N - 1 { assert t[i] == s[if i < k then i else i + 1]; }
        FewNumbers(t, N - 1);
      } else {
        FewNumbers(s, N - 1);
      }
    }
  }

  function PairNumber(n: nat, i: nat, j: nat): nat {
    i * n + j
  }

  lemma PairNumberUnique(n: nat, i: nat, j: nat, i': nat, j': nat)
    requires j < n && j' < n && PairNumber(n, i, j) == PairNumber(n, i', j')
    ensures i == i' && j == j'
  {
    DivModUnique(PairNumber(n, i, j), n, i, j);
    DivModUnique(PairNumber(n, i', j'), n, i', j');
  }

  lemma PairNumberSmall(m: nat, n: nat, i: nat, j: nat)
    requires i < m && j < n
    ensures PairNumber(n, i, j) < m * n
  {
    assert (m - 1 - i) * n >= 0;
    assert (m - 1 - i) * n == m * n - n - i * n;
  }

  /** m lines cross n others at no more than m n places: the values of delta with a crossing are
      numbered by pairs of lines. */
  lemma FewCrossings(l: int, us: seq<int>, vs: seq<int>, us': seq<int>, vs': seq<int>, m: nat, n: nat, ds: seq<int>)
    requires IsPrime(l) && |us| == |vs| == m && |us'| == |vs'| == n && Distinct(l, ds)
    requires forall k :: 0 <= k < |ds| ==> !Apart(l, us, vs, us', vs', ds[k])
    ensures |ds| <= m * n
  {
    hide IsPrime, Cong, Meet, SameLine, PairNumber;
    var s: seq<nat>, iv: seq<nat>, jv: seq<nat> := [], [], [];
    for k := 0 to |ds|
      invariant |s| == |iv| == |jv| == k
      invariant forall a :: 0 <= a < k ==>
        && iv[a] < m && jv[a] < n && s[a] == PairNumber(n, iv[a], jv[a])
        && Crossing(l, us, vs, us', vs', ds[a], iv[a], jv[a])
    {
      var i: nat, j: nat :| Crossing(l, us, vs, us', vs', ds[k], i, j);
      s, iv, jv := s + [PairNumber(n, i, j)], iv + [i], jv + [j];
    }
    forall a | 0 <= a < |s| ensures s[a] < m * n { PairNumberSmall(m, n, iv[a], jv[a]); }
    forall a, b | 0 <= a < b < |s| ensures s[a] != s[b] {
      if s[a] == s[b] {
        PairNumberUnique(n, iv[a], jv[a], iv[b], jv[b]);
        MeetTwice(l, us[iv[a]], vs[iv[a]], us'[jv[a]], vs'[jv[a]], ds[b], ds[a]);
      }
    }
    FewNumbers(s, m * n);
  }

  // ---------- rearranged lines ----------

  /** The line of index j: z_j + delta j. */
  ghost predicate AlongZ(l: int, z: seq<int>, p: seq<int>, zeta: seq<int>, i: nat, j: nat) {
    i < |p| == |zeta| && j < |z| && SameLine(l, zeta[i], p[i], z[j], j)
  }

  /** p_i is the index pi(i) and zeta_i is z read there. */
  ghost predicate ReadAlong(l: int, z: seq<int>, p: seq<int>, zeta: seq<int>, pi: seq<nat>) {
    && IsPermutation(pi) && |pi| == |p| == |zeta| == |z|
    && forall i :: 0 <= i < |pi| ==> AlongZ(l, z, p, zeta, i, pi[i])
  }

  function Values(us: seq<int>, vs: seq<int>, delta: int): (r: seq<int>)
    requires |us| == |vs|
    ensures |r| == |us| && forall i :: 0 <= i < |us| ==> r[i] == us[i] + delta * vs[i]
  {
    seq(|us|, i requires 0 <= i < |us| => us[i] + delta * vs[i])
  }

  /** Where all different lines are apart, a rearrangement matches equal lines. */
  lemma MatchAt(l: int, z: seq<int>, p: seq<int>, zeta: seq<int>, delta: int) returns (pi: seq<nat>)
    requires l > |z| == |p| == |zeta|
    requires Rearranged(l, Values(zeta, p, delta), Values(z, Iota(|z|), delta))
    requires Apart(l, zeta + z, p + Iota(|z|), z, Iota(|z|), delta)
    ensures ReadAlong(l, z, p, zeta, pi)
  {
    hide Cong, Canonical, Meet, SameLine;
    var n := |z|;
    var left, right := CanonVec(l, Values(zeta, p, delta)), CanonVec(l, Values(z, Iota(n), delta));
    pi := [];
    for i := 0 to n
      invariant |pi| == i
      invariant forall a :: 0 <= a < i ==> pi[a] < n && right[pi[a]] == left[a] && AlongZ(l, z, p, zeta, a, pi[a])
    {
      assert left[i] in multiset(right);
      var j: nat :| 0 <= j < n && right[j] == left[i];
      MatchOne(l, z, p, zeta, delta, i, j);
      pi := pi + [j];
    }
    RightDistinct(l, z, p, zeta, delta);
    LeftDistinct(left, right);
  }

  lemma MatchOne(l: int, z: seq<int>, p: seq<int>, zeta: seq<int>, delta: int, i: nat, j: nat)
    requires l > |z| == |p| == |zeta| && i < |z| && j < |z|
    requires Apart(l, zeta + z, p + Iota(|z|), z, Iota(|z|), delta)
    requires Canonical(l, Values(zeta, p, delta)[i]) == Canonical(l, Values(z, Iota(|z|), delta)[j])
    ensures AlongZ(l, z, p, zeta, i, j)
  {
    hide Cong, Canonical, SameLine;
    CongIffCanonical(l, Values(zeta, p, delta)[i], Values(z, Iota(|z|), delta)[j]);
    assert (zeta + z)[i] == zeta[i] && (p + Iota(|z|))[i] == p[i];
    assert !Crossing(l, zeta + z, p + Iota(|z|), z, Iota(|z|), delta, i, j);
  }

  lemma RightDistinct(l: int, z: seq<int>, p: seq<int>, zeta: seq<int>, delta: int)
    requires l > |z| == |p| == |zeta| && Apart(l, zeta + z, p + Iota(|z|), z, Iota(|z|), delta)
    ensures var right := CanonVec(l, Values(z, Iota(|z|), delta));
      forall i, j :: 0 <= i < j < |right| ==> right[i] != right[j]
  {
    hide Cong, Canonical;
    var n := |z|;
    var v := Values(z, Iota(n), delta);
    forall i: nat, j: nat | i < j < n ensures Canonical(l, v[i]) != Canonical(l, v[j]) {
      if Canonical(l, v[i]) == Canonical(l, v[j]) {
        CongIffCanonical(l, v[i], v[j]);
        assert (zeta + z)[n + i] == z[i] && (p + Iota(n))[n + i] == i;
        assert !Crossing(l, zeta + z, p + Iota(n), z, Iota(n), delta, n + i, j);
        IndicesDiffer(l, i, j);
      }
    }
  }

  lemma IndicesDiffer(l: int, i: nat, j: nat)
    requires i < j < l
    ensures !Cong(l, i, j)
  {
    SmallIsNonzero(l, i - j);
    hide Cong;
    if Cong(l, i, j) { CongBy(l, i - j, 0, i, j, 1); }
  }

  lemma LeftDistinct(s: seq<int>, t: seq<int>)
    requires multiset(s) == multiset(t) && forall i, j :: 0 <= i < j < |t| ==> t[i] != t[j]
    ensures forall i, j :: 0 <= i < j < |s| ==> s[i] != s[j]
  {
    forall i, j | 0 <= i < j < |s| ensures s[i] != s[j] {
      if s[i] == s[j] {
        assert s == s[..i] + [s[i]] + s[i + 1..j] + [s[j]] + s[j + 1..];
        assert multiset(s)[s[i]] >= 2;
        CountAtMostOne(t, s[i]);
      }
    }
  }

  lemma {:induction false} CountAtMostOne(t: seq<int>, x: int)
    requires forall i, j :: 0 <= i < j < |t| ==> t[i] != t[j]
    ensures multiset(t)[x] <= 1
    decreases |t|
  {
    if t != [] {
      assert t == [t[0]] + t[1..];
      CountAtMostOne(t[1..], x);
    }
  }

  /** Rearranged at more than 2 n^2 values of delta: p is a permutation of the indices and zeta
      is z read along it. */
  lemma LinesMatch(l: int, z: seq<int>, p: seq<int>, zeta: seq<int>, ds: seq<int>) returns (pi: seq<nat>)
    requires IsPrime(l) && l > |z| == |p| == |zeta| && Distinct(l, ds) && |ds| > 2 * |z| * |z|
    requires forall k :: 0 <= k < |ds| ==> Rearranged(l, Values(zeta, p, ds[k]), Values(z, Iota(|z|), ds[k]))
    ensures ReadAlong(l, z, p, zeta, pi)
  {
    hide IsPrime, Cong, Rearranged, Distinct, Apart;
    var n := |z|;
    if k :| 0 <= k < |ds| && Apart(l, zeta + z, p + Iota(n), z, Iota(n), ds[k]) {
      pi := MatchAt(l, z, p, zeta, ds[k]);
    } else {
      FewCrossings(l, zeta + z, p + Iota(n), z, Iota(n), 2 * n, n, ds);
      assert false;
    }
  }
}
