/** Reordering sums and products: folding a commutative operation over a sequence
    depends only on the multiset of its elements. */
module Folds {

  predicate AssocAt<T(==)>(op: (T, T) -> T, x: T, y: T, z: T) {
    op(op(x, y), z) == op(x, op(y, z))
  }

  predicate CommAt<T(==)>(op: (T, T) -> T, x: T, y: T) {
    op(x, y) == op(y, x)
  }

  predicate UnitAt<T(==)>(op: (T, T) -> T, unit: T, x: T) {
    op(unit, x) == x
  }

  ghost predicate IsCommutativeMonoid<T(!new)>(op: (T, T) -> T, unit: T) {
    && (forall x, y, z :: AssocAt(op, x, y, z))
    && (forall x, y :: CommAt(op, x, y))
    && (forall x :: UnitAt(op, unit, x))
  }

  function Fold<T>(op: (T, T) -> T, unit: T, s: seq<T>): T {
    if s == [] then unit else op(s[0], Fold(op, unit, s[1..]))
  }

  /** Any one element may be taken out first. */
  lemma {:induction false} FoldRemove<T(!new)>(op: (T, T) -> T, unit: T, s: seq<T>, j: nat)
    requires IsCommutativeMonoid(op, unit) && j < |s|
    ensures Fold(op, unit, s) == op(s[j], Fold(op, unit, s[..j] + s[j + 1..]))
    decreases j
  {
    if j == 0 {
      assert s[..0] + s[1..] == s[1..];
    } else {
      var rest := s[1..][..j - 1] + s[1..][j..];
      FoldRemove(op, unit, s[1..], j - 1);
      assert s[..j] + s[j + 1..] == [s[0]] + rest;
      assert ([s[0]] + rest)[1..] == rest;
      var x, y, z := s[0], s[j], Fold(op, unit, rest);
      assert AssocAt(op, x, y, z) && AssocAt(op, y, x, z) && CommAt(op, x, y);
    }
  }

  lemma RemoveFromMultiset<T>(s: seq<T>, j: nat)
    requires j < |s|
    ensures multiset(s[..j] + s[j + 1..]) == multiset(s) - multiset{s[j]}
  {
    assert s == s[..j] + [s[j]] + s[j + 1..];
  }

  lemma {:induction false} FoldReorder<T(!new)>(op: (T, T) -> T, unit: T, s: seq<T>, t: seq<T>)
    requires IsCommutativeMonoid(op, unit)
    requires multiset(s) == multiset(t)
    ensures Fold(op, unit, s) == Fold(op, unit, t)
    decreases |s|
  {
    hide IsCommutativeMonoid;
    assert |s| == |multiset(s)| == |multiset(t)| == |t|;
    if s != [] {
      var j := Matching(s, t);
      FoldReorder(op, unit, s[1..], t[..j] + t[j + 1..]);
      FoldRemove(op, unit, t, j);
    }
  }

  /** Where the first element of one arrangement stands in another. */
  lemma Matching<T>(s: seq<T>, t: seq<T>) returns (j: nat)
    requires s != [] && multiset(s) == multiset(t)
    ensures j < |t| && t[j] == s[0] && multiset(s[1..]) == multiset(t[..j] + t[j + 1..])
  {
    j := Place(s[0], t, s);
    RemoveFirst(s);
    RemoveFromMultiset(t, j);
  }

  lemma Place<T>(x: T, t: seq<T>, s: seq<T>) returns (j: nat)
    requires x in s && multiset(s) == multiset(t)
    ensures j < |t| && t[j] == x
  {
    assert x in multiset(t);
    j :| 0 <= j < |t| && t[j] == x;
  }

  lemma RemoveFirst<T>(s: seq<T>)
    requires s != []
    ensures multiset(s[1..]) == multiset(s) - multiset{s[0]}
  {
    assert s == [s[0]] + s[1..];
  }

  // ---------- permutations of 0..n ----------

  function Iota(n: nat): (s: seq<nat>)
    ensures |s| == n && forall i :: 0 <= i < n ==> s[i] == i
  {
    seq(n, i => i)
  }

  /** pi lists every index below its length exactly once. */
  predicate IsPermutation(pi: seq<nat>) {
    && (forall i :: 0 <= i < |pi| ==> pi[i] < |pi|)
    && (forall i, j :: 0 <= i < j < |pi| ==> pi[i] != pi[j])
  }

  function Gather<T>(s: seq<T>, pi: seq<nat>): (r: seq<T>)
    requires forall i :: 0 <= i < |pi| ==> pi[i] < |s|
    ensures |r| == |pi| && forall i :: 0 <= i < |pi| ==> r[i] == s[pi[i]]
  {
    seq(|pi|, i requires 0 <= i < |pi| => s[pi[i]])
  }

  lemma {:induction false} DistinctCount(s: seq<nat>, x: nat)
    requires forall i, j :: 0 <= i < j < |s| ==> s[i] != s[j]
    ensures multiset(s)[x] <= 1
    decreases |s|
  {
    if s != [] {
      assert s == [s[0]] + s[1..];
      DistinctCount(s[1..], x);
      assert s[0] !in s[1..];
    }
  }

  /** Pigeonhole: n distinct indices below n are all of them. */
  lemma {:induction false} PermutationIsSurjective(pi: seq<nat>, n: nat)
    requires IsPermutation(pi) && n == |pi|
    ensures multiset(pi) == multiset(Iota(n))
  {
    var range, image := Image(Iota(n)), Image(pi);
    ImageSize(Iota(n));
    ImageSize(pi);
    assert image <= range by {
      forall x | x in pi ensures x in Iota(n) { assert Iota(n)[x] == x; }
    }
    SubsetOfSameSize(image, range);
    forall x
      ensures multiset(pi)[x] == multiset(Iota(n))[x]
    {
      if x >= 0 {
        DistinctCount(pi, x);
        DistinctCount(Iota(n), x);
        assert x in pi <==> x in range;
        assert x in Iota(n) <==> x in range;
      }
    }
  }

  ghost function Image(s: seq<nat>): set<nat> {
    set x | x in s
  }

  lemma ImageCons(s: seq<nat>)
    requires s != []
    ensures Image(s) == Image(s[1..]) + {s[0]}
  {
    assert s == [s[0]] + s[1..];
    forall x
      ensures x in Image(s) <==> x in Image(s[1..]) + {s[0]}
    {
    }
  }

  lemma {:induction false} ImageSize(s: seq<nat>)
    requires forall i, j :: 0 <= i < j < |s| ==> s[i] != s[j]
    ensures |Image(s)| == |s|
  {
    if s != [] {
      ImageSize(s[1..]);
      ImageCons(s);
      assert s[0] !in s[1..];
      assert s[0] !in Image(s[1..]);
    }
  }

  lemma {:induction false} SubsetOfSameSize<T>(a: set<T>, b: set<T>)
    requires a <= b && |a| == |b|
    ensures a == b
    decreases |b|
  {
    if a != b {
      var x :| x in b && x !in a;
      assert a <= b - {x};
      SubsetSize(a, b - {x});
    }
  }

  lemma {:induction false} SubsetSize<T>(a: set<T>, b: set<T>)
    requires a <= b
    ensures |a| <= |b|
    decreases |a|
  {
    if a != {} {
      var x :| x in a;
      SubsetSize(a - {x}, b - {x});
    }
  }

  lemma GatherRemove<T>(s: seq<T>, b: seq<nat>, j: nat)
    requires j < |b| && forall i :: 0 <= i < |b| ==> b[i] < |s|
    ensures multiset(Gather(s, b)) == multiset(Gather(s, b[..j] + b[j + 1..])) + multiset{s[b[j]]}
  {
    var g := Gather(s, b);
    assert Gather(s, b[..j] + b[j + 1..]) == g[..j] + g[j + 1..];
    RemoveFromMultiset(g, j);
    assert g[j] in g;
  }

  /** Gathering is compatible with reordering the index list. */
  lemma {:induction false} GatherReorder<T>(s: seq<T>, a: seq<nat>, b: seq<nat>)
    requires forall i :: 0 <= i < |a| ==> a[i] < |s|
    requires forall i :: 0 <= i < |b| ==> b[i] < |s|
    requires multiset(a) == multiset(b)
    ensures multiset(Gather(s, a)) == multiset(Gather(s, b))
    decreases |a|
  {
    if a == [] {
      assert |b| == |multiset(b)| == 0;
    } else {
      var j := Matching(a, b);
      GatherReorder(s, a[1..], b[..j] + b[j + 1..]);
      GatherFirst(s, a);
      GatherRemove(s, b, j);
    }
  }

  lemma GatherFirst<T>(s: seq<T>, a: seq<nat>)
    requires a != [] && forall i :: 0 <= i < |a| ==> a[i] < |s|
    ensures multiset(Gather(s, a)) == multiset(Gather(s, a[1..])) + multiset{s[a[0]]}
  {
    assert Gather(s, a) == [s[a[0]]] + Gather(s, a[1..]);
  }

  /** Permuting a sequence keeps its multiset, hence every commutative fold of it. */
  lemma PermutedMultiset<T>(s: seq<T>, pi: seq<nat>)
    requires IsPermutation(pi) && |pi| == |s|
    ensures multiset(Gather(s, pi)) == multiset(s)
  {
    PermutationIsSurjective(pi, |s|);
    GatherReorder(s, pi, Iota(|s|));
    assert Gather(s, Iota(|s|)) == s;
  }

  lemma FoldPermuted<T(!new)>(op: (T, T) -> T, unit: T, s: seq<T>, pi: seq<nat>)
    requires IsCommutativeMonoid(op, unit)
    requires IsPermutation(pi) && |pi| == |s|
    ensures Fold(op, unit, Gather(s, pi)) == Fold(op, unit, s)
  {
    PermutedMultiset(s, pi);
    FoldReorder(op, unit, Gather(s, pi), s);
  }
}
