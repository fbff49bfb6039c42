/** Fixed-base scalar multiplication from precomputed tables: lookup tables of small multiples
    and their signed selection (curve25519-dalek/src/window.rs), and the table of 32 lookup
    tables with its odd/even evaluation (curve25519-dalek/src/edwards.rs). */
module BasepointTable {
  import opened Groups
  import opened Powers
  import opened Recoding

  // ---------- lookup tables ----------

  /** Entry j holds (j+1) P. */
  ghost predicate IsLookup<G>(g: Group<G>, points: seq<G>, p: G) {
    forall j :: 0 <= j < |points| ==> points[j] == Smul(g, j + 1, p)
  }

  method LookupFrom<G(!new)>(g: Group<G>, p: G, size: nat) returns (points: seq<G>)
    requires IsGroup(g) && size >= 1
    ensures |points| == size && IsLookup(g, points, p)
  {
    hide IsGroup, Smul;
    var table := new G[size](_ => p);
    SmulBasics(g, p);
    for j := 0 to size - 1
      invariant forall k :: 0 <= k <= j ==> table[k] == Smul(g, k + 1, p)
    {
      table[j + 1] := g.add(p, table[j]);
      SmulSucc(g, j + 1, p);
    }
    points := table[..];
  }

  /** The sign mask of an i8 widened to 16 bits: all ones or all zeros. */
  function SignMask(x: int): (m: int)
    requires -128 <= x < 128
  {
    x / 128
  }

  /** Exclusive or with a mask of all zeros or all ones. */
  function XorMask(y: int, mask: int): int {
    if mask == 0 then y else -1 - y
  }

  /** The absolute value as computed, also at -128. */
  lemma MaskedAbs(x: int)
    requires -128 <= x < 128
    ensures SignMask(x) == (if x < 0 then -1 else 0)
    ensures XorMask(x + SignMask(x), SignMask(x)) == (if x < 0 then -x else x)
  {
  }

  /** The scan over the whole table leaves x P for every x between -size and size. */
  method Select<G(!new)>(g: Group<G>, points: seq<G>, x: int, ghost p: G) returns (t: G)
    requires IsGroup(g) && IsLookup(g, points, p)
    requires -128 <= x < 128 && -|points| <= x <= |points|
    ensures t == Smul(g, x, p)
  {
    hide IsGroup;
    var xmask := SignMask(x);
    var xabs := XorMask(x + xmask, xmask);
    MaskedAbs(x);
    t := g.zero;
    SmulBasics(g, p);
    for j := 1 to |points| + 1
      invariant t == if 1 <= xabs < j then Smul(g, xabs, p) else g.zero
    {
      if xabs == j { t := points[j - 1]; }
    }
    if xmask % 2 == 1 { t := g.neg(t); }
    SmulNeg(g, xabs, p);
  }

  // ---------- doublings ----------

  method MulByPow2<G(!new)>(g: Group<G>, p: G, k: nat) returns (r: G)
    requires IsGroup(g) && k > 0
    ensures r == Smul(g, P2(k), p)
  {
    hide IsGroup;
    var s := p;
    SmulBasics(g, p);
    for i := 0 to k - 1
      invariant s == Smul(g, P2(i), p)
    {
      s := g.add(s, s);
      SmulAdd(g, P2(i), P2(i), p);
    }
    r := g.add(s, s);
    SmulAdd(g, P2(k - 1), P2(k - 1), p);
  }

  // ---------- the table of tables ----------

  /** 2^(2wi) B, the point table i is built from. */
  function RowPoint<G>(g: Group<G>, w: nat, i: nat, b: G): G {
    Smul(g, P2(2 * w * i), b)
  }

  lemma RowNext<G(!new)>(g: Group<G>, w: nat, i: nat, b: G)
    requires IsGroup(g)
    ensures RowPoint(g, w, 0, b) == b
    ensures Smul(g, P2(w + w), RowPoint(g, w, i, b)) == RowPoint(g, w, i + 1, b)
  {
    SmulBasics(g, b);
    assert P2(2 * w * 0) == 1;
    hide IsGroup, P2;
    P2Add(w + w, 2 * w * i);
    assert 2 * w * (i + 1) == w + w + 2 * w * i;
    SmulMul(g, P2(w + w), P2(2 * w * i), b);
  }

  /** Table i is the lookup table of row point i, of size 2^(w-1). */
  ghost predicate IsRow<G>(g: Group<G>, row: seq<G>, w: nat, i: nat, b: G)
    requires w >= 1
  {
    |row| == P2(w - 1) && IsLookup(g, row, RowPoint(g, w, i, b))
  }

  ghost predicate IsTable<G>(g: Group<G>, tables: seq<seq<G>>, w: nat, b: G)
    requires w >= 1
  {
    |tables| == 32 && forall i :: 0 <= i < 32 ==> IsRow(g, tables[i], w, i, b)
  }

  method Create<G(!new)>(g: Group<G>, basepoint: G, w: nat) returns (table: seq<seq<G>>)
    requires IsGroup(g) && 4 <= w <= 8
    ensures IsTable(g, table, w, basepoint)
  {
    hide IsGroup, IsLookup, P2, RowPoint;
    var rows := new seq<G>[32](_ => []);
    var p := basepoint;
    RowNext(g, w, 0, basepoint);
    for i := 0 to 32
      invariant p == RowPoint(g, w, i, basepoint)
      invariant forall k :: 0 <= k < i ==> IsRow(g, rows[k], w, k, basepoint)
    {
      rows[i] := LookupFrom(g, p, P2(w - 1));
      p := MulByPow2(g, p, w + w);
      RowNext(g, w, i, basepoint);
    }
    table := rows[..];
  }

  // ---------- odd and even digits ----------

  /** The sum of a_i 2^(2w (i/2)) over the i < m of the given parity. */
  function ParitySum(a: seq<int>, w: nat, m: nat, parity: nat): int
    requires m <= |a|
  {
    if m == 0 then 0
    else ParitySum(a, w, m - 1, parity) + if (m - 1) % 2 == parity then a[m - 1] * P2(2 * w * ((m - 1) / 2)) else 0
  }

  /** The odd digits, shifted by one digit, and the even digits make up the value. */
  lemma {:induction false} OddEvenSplit(a: seq<int>, w: nat, m: nat)
    requires m <= |a|
    ensures P2(w) * ParitySum(a, w, m, 1) + ParitySum(a, w, m, 0) == ValueTo(a, w, m)
    decreases m
  {
    hide P2;
    if m > 0 {
      OddEvenSplit(a, w, m - 1);
      var i := m - 1;
      var q := P2(2 * w * (i / 2));
      if i % 2 == 1 {
        assert w * i == w + 2 * w * (i / 2);
        P2Add(w, 2 * w * (i / 2));
        Spread(P2(w), ParitySum(a, w, i, 1), a[i], q);
      } else {
        assert w * i == 2 * w * (i / 2);
      }
    } else {
      assert P2(w) * 0 == 0;
    }
  }

  /** Adding one selected entry adds its digit to the parity sum. */
  lemma AddDigit<G(!new)>(g: Group<G>, a: seq<int>, w: nat, i: nat, parity: nat, shift: int, b: G)
    requires IsGroup(g) && i < |a| && i % 2 == parity
    ensures g.add(Smul(g, shift + ParitySum(a, w, i, parity), b), Smul(g, a[i], RowPoint(g, w, i / 2, b)))
         == Smul(g, shift + ParitySum(a, w, i + 1, parity), b)
  {
    hide IsGroup, P2;
    var q := P2(2 * w * (i / 2));
    SmulMul(g, a[i], q, b);
    SmulAdd(g, shift + ParitySum(a, w, i, parity), a[i] * q, b);
  }

  /** Digits that every row of the table can select. */
  ghost predicate InRange(a: seq<int>, w: nat)
    requires w >= 1
  {
    forall i :: 0 <= i < |a| ==> -128 <= a[i] < 128 && 0 - P2(w - 1) <= a[i] <= P2(w - 1)
  }

  /** One pass over the digits of one parity. */
  method AddDigits<G(!new)>(g: Group<G>, tables: seq<seq<G>>, w: nat, a: seq<int>, adds: nat, parity: nat,
                            start: G, ghost b: G, ghost shift: int) returns (p: G)
    requires IsGroup(g) && w >= 1 && IsTable(g, tables, w, b) && InRange(a, w) && adds <= |a| && adds <= 64
    requires start == Smul(g, shift, b) && parity < 2
    ensures p == Smul(g, shift + ParitySum(a, w, adds, parity), b)
  {
    ParityEmpty(a, w);
    hide IsGroup, IsLookup, P2, ParitySum, RowPoint;
    p := start;
    for i := 0 to adds
      invariant p == Smul(g, shift + ParitySum(a, w, i, parity), b)
    {
      if i % 2 == parity {
        assert IsRow(g, tables[i / 2], w, i / 2, b);
        var t := Select(g, tables[i / 2], a[i], RowPoint(g, w, i / 2, b));
        AddDigit(g, a, w, i, parity, shift, b);
        p := g.add(p, t);
      } else {
        ParitySkip(a, w, i, parity);
      }
    }
  }

  /** For every scalar, every radix and every group, the table computes [scalar] B. */
  method MulBase<G(!new)>(g: Group<G>, tables: seq<seq<G>>, w: nat, scalar: seq<int>, ghost b: G) returns (p: G)
    requires IsGroup(g) && 4 <= w <= 8 && IsTable(g, tables, w, b) && IsScalar(scalar)
    ensures p == Smul(g, ScalarValue(scalar), b)
  {
    hide IsGroup, P2, ParitySum, IsRadix, IsTable, Smul, InRange, ScalarValue, ValueTo, IsScalar;
    var digits := Radix2w(scalar, w);
    var a, adds := digits[..], SizeHint(w);
    DigitBounds(a, w, ScalarValue(scalar));
    ghost var odd := ParitySum(a, w, adds, 1);
    SmulBasics(g, b);
    p := AddDigits(g, tables, w, a, adds, 1, g.zero, b, 0);
    p := MulByPow2(g, p, w);
    SmulMul(g, P2(w), odd, b);
    p := AddDigits(g, tables, w, a, adds, 0, p, b, P2(w) * odd);
    OddEvenSplit(a, w, adds);
  }

  lemma ParityEmpty(a: seq<int>, w: nat)
    ensures ParitySum(a, w, 0, 0) == 0 && ParitySum(a, w, 0, 1) == 0
  {
  }

  lemma ParitySkip(a: seq<int>, w: nat, i: nat, parity: nat)
    requires i < |a| && i % 2 != parity
    ensures ParitySum(a, w, i + 1, parity) == ParitySum(a, w, i, parity)
  {
  }

  /** Every digit of the recoding is in the tables' range. */
  lemma DigitBounds(a: seq<int>, w: nat, x: int)
    requires 4 <= w <= 8 && IsRadix(a, w, x)
    ensures SizeHint(w) <= 64 && ValueTo(a, w, SizeHint(w)) == x
    ensures |a| == 64 && InRange(a, w)
  {
    SmallPowers();
    ValueOfZeros(a, w, SizeHint(w), 64);
    P2Mono(w - 1, 7);
    assert w == 8 ==> a[63] == 0;
    if w < 8 { P2Mono(w - 1, 6); }
  }

  /** A fresh table multiplies its own basepoint by every scalar. */
  method CreateAndMul<G(!new)>(g: Group<G>, basepoint: G, w: nat, scalar: seq<int>) returns (p: G)
    requires IsGroup(g) && 4 <= w <= 8 && IsScalar(scalar)
    ensures p == Smul(g, ScalarValue(scalar), basepoint)
  {
    var table := Create(g, basepoint, w);
    p := MulBase(g, table, w, scalar, basepoint);
  }
}
