/** Signed-digit recodings of a scalar below 2^255 (curve25519-dalek/src/scalar.rs): the
    width-w non-adjacent form and the radix-2^w digits. Shifts are divisions by powers of
    two, and the or of two disjoint bit ranges is their sum. */
module Recoding {
  import opened Arith
  import opened Powers

  // ---------- division ----------

  lemma NestedDivision(x: int, a: int, b: int, q: int, r: int, s: int)
    requires a > 0 && b > 0 && x == a * (b * q + r) + s && 0 <= r < b && 0 <= s < a
    ensures a * b > 0 && x == q * (a * b) + (a * r + s) && 0 <= a * r + s < a * b
  {
    Triple(a, b, q);
    Split(a, b * q, r);
    RemainderBound(a, b, r, s);
  }

  lemma Triple(a: int, b: int, q: int)
    ensures a * (b * q) == q * (a * b)
  {
  }

  lemma Split(a: int, u: int, r: int)
    ensures a * (u + r) == a * u + a * r
  {
  }

  lemma RemainderBound(a: int, b: int, r: int, s: int)
    requires a > 0 && 0 <= r < b && 0 <= s < a
    ensures 0 <= a * r + s < a * b
  {
    Split(a, r + 1, b - 1 - r);
    Split(a, r, 1);
    assert a * (b - 1 - r) >= 0 && a * r >= 0;
  }

  lemma DivSteps(x: int, a: int, b: int)
    requires a > 0 && b > 0
    ensures a * b > 0 && x / (a * b) == (x / a) / b
  {
    var y := x / a;
    var q, r, s := y / b, y % b, x % a;
    assert x == a * y + s && y == b * q + r;
    NestedDivision(x, a, b, q, r, s);
    DivModUnique(x, a * b, q, a * r + s);
  }

  lemma DivOfSum(x: int, r: int, m: int)
    requires m > 0
    ensures (x + r * m) / m == x / m + r && (x + r * m) % m == x % m
  {
    DivModUnique(x + r * m, m, x / m + r, x % m);
  }

  lemma DivOfProduct(y: int, r: int, t: int, m: int)
    requires m > 0
    ensures (y + r * (t * m)) % m == y % m
  {
    assert r * (t * m) == (r * t) * m;
    DivOfSum(y, r * t, m);
  }

  /** x >> k and the low w bits of x. */
  function Shr(x: nat, k: nat): nat {
    QuotientNonnegative(x, P2(k));
    x / P2(k)
  }

  function Low(x: nat, w: nat): (r: nat) {
    x % P2(w)
  }

  lemma QuotientNonnegative(x: int, m: int)
    requires x >= 0 && m > 0
    ensures x / m >= 0
  {
    var q := x / m;
    assert x == m * q + x % m;
    assert q <= -1 ==> m * q <= -m;
  }

  // ---------- limbs ----------

  /** A 256-bit value as little-endian 64-bit words. */
  function LimbValue(limbs: seq<nat>): (r: nat) {
    if limbs == [] then 0 else limbs[0] + P2(64) * LimbValue(limbs[1..])
  }

  predicate IsLimbs(limbs: seq<nat>) {
    forall i :: 0 <= i < |limbs| ==> limbs[i] < P2(64)
  }

  lemma {:induction false} LimbsFrom(limbs: seq<nat>, i: nat)
    requires IsLimbs(limbs) && i <= |limbs|
    ensures LimbValue(limbs) / P2(64 * i) == LimbValue(limbs[i..])
  {
    if i > 0 {
      LimbsFrom(limbs, i - 1);
      LimbTail(limbs, i - 1);
      hide P2, LimbValue, IsLimbs;
      P2Add(64 * (i - 1), 64);
      DivSteps(LimbValue(limbs), P2(64 * (i - 1)), P2(64));
    } else {
      assert limbs[0..] == limbs;
    }
  }

  lemma LimbTail(limbs: seq<nat>, i: nat)
    requires IsLimbs(limbs) && i < |limbs|
    ensures LimbValue(limbs[i..]) / P2(64) == LimbValue(limbs[i + 1..])
  {
    hide P2;
    assert limbs[i..][1..] == limbs[i + 1..] && limbs[i..][0] == limbs[i];
    DivModUnique(LimbValue(limbs[i..]), P2(64), LimbValue(limbs[i + 1..]), limbs[i]);
  }

  /** The low w bits of the buffer read at bit position pos; rest is the number of bits left
      in the current word. */
  function BitBuffer(limbs: seq<nat>, pos: nat, w: nat): int
    requires |limbs| >= 1 && pos / 64 + 1 < |limbs| && w <= 8
  {
    var idx, bit := pos / 64, pos % 64;
    if bit < 64 - w then limbs[idx] / P2(bit)
    else limbs[idx] / P2(bit) + (limbs[idx + 1] * P2(64 - bit)) % P2(64)
  }

  /** Adding r 2^64, shifted right by bit < 64, adds r 2^(64-bit). */
  lemma ShiftHigh(limb: int, r: int, bit: nat, top: nat)
    requires bit <= top
    ensures (limb + P2(top) * r) / P2(bit) == limb / P2(bit) + r * P2(top - bit)
  {
    hide P2;
    P2Add(top - bit, bit);
    var c := P2(top - bit);
    Regroup(r, c, P2(bit));
    assert P2(top) * r == (r * c) * P2(bit);
    DivOfSum(limb, r * c, P2(bit));
  }

  /** A multiple of 2^k added does not reach the low w <= k bits. */
  lemma LowBits(y: int, r: int, k: nat, w: nat)
    requires w <= k
    ensures (y + r * P2(k)) % P2(w) == y % P2(w)
  {
    hide P2;
    P2Add(k - w, w);
    DivOfProduct(y, r, P2(k - w), P2(w));
  }

  lemma Truncated(next: int, c: int, high: int, W: int) returns (q: int)
    requires W > 0
    ensures (next + W * high) * c == (next * c) % W + q * W
  {
    q := (next * c) / W + high * c;
    assert next * c == W * ((next * c) / W) + (next * c) % W;
    assert (next + W * high) * c == next * c + W * (high * c);
    assert q * W == W * ((next * c) / W) + W * (high * c);
  }

  lemma LimbSplit(limbs: seq<nat>, i: nat)
    requires i < |limbs|
    ensures LimbValue(limbs[i..]) == limbs[i] + P2(64) * LimbValue(limbs[i + 1..])
  {
    assert limbs[i..][1..] == limbs[i + 1..];
  }

  lemma ShiftedValue(limbs: seq<nat>, idx: nat, bit: nat)
    requires IsLimbs(limbs) && idx < |limbs| && bit < 64
    ensures LimbValue(limbs) / P2(64 * idx + bit) == limbs[idx] / P2(bit) + LimbValue(limbs[idx + 1..]) * P2(64 - bit)
  {
    hide P2, LimbValue, IsLimbs;
    LimbsFrom(limbs, idx);
    P2Add(64 * idx, bit);
    DivSteps(LimbValue(limbs), P2(64 * idx), P2(bit));
    LimbSplit(limbs, idx);
    ShiftHigh(limbs[idx], LimbValue(limbs[idx + 1..]), bit, 64);
  }

  /** The window is the w bits of the value at pos, whether or not they straddle words. */
  lemma WindowIsBits(limbs: seq<nat>, pos: nat, w: nat)
    requires IsLimbs(limbs) && pos / 64 + 1 < |limbs| && 1 <= w <= 8
    ensures BitBuffer(limbs, pos, w) % P2(w) == Low(Shr(LimbValue(limbs), pos), w)
  {
    hide P2, LimbValue, IsLimbs;
    var idx, bit := pos / 64, pos % 64;
    var y, r := limbs[idx] / P2(bit), LimbValue(limbs[idx + 1..]);
    ShiftedValue(limbs, idx, bit);
    if bit < 64 - w {
      LowBits(y, r, 64 - bit, w);
    } else {
      LimbSplit(limbs, idx + 1);
      var q := Truncated(limbs[idx + 1], P2(64 - bit), LimbValue(limbs[idx + 2..]), P2(64));
      var b := BitBuffer(limbs, pos, w);
      assert LimbValue(limbs) / P2(pos) == b + q * P2(64);
      LowBits(b, q, 64, w);
    }
  }

  // ---------- digit sums ----------

  /** The sum of the first m digits a_i 2^(w i). */
  function ValueTo(a: seq<int>, w: nat, m: nat): int
    requires m <= |a|
  {
    if m == 0 then 0 else ValueTo(a, w, m - 1) + a[m - 1] * P2(w * (m - 1))
  }

  lemma ValueLast(a: seq<int>, w: nat, m: nat)
    requires 0 < m <= |a|
    ensures ValueTo(a, w, m) == ValueTo(a, w, m - 1) + a[m - 1] * P2(w * (m - 1))
  {
  }

  lemma {:induction false} ValueUpdate(a: seq<int>, w: nat, m: nat, i: nat, v: int)
    requires i < |a| && m <= |a|
    ensures ValueTo(a[i := v], w, m) == ValueTo(a, w, m) + (if i < m then (v - a[i]) * P2(w * i) else 0)
    decreases m
  {
    hide P2;
    if m > 0 {
      ValueUpdate(a, w, m - 1, i, v);
      if i == m - 1 {
        var p := P2(w * i);
        assert v * p == a[i] * p + (v - a[i]) * p;
      }
    }
  }

  lemma {:induction false} ValueOfZeros(a: seq<int>, w: nat, lo: nat, m: nat)
    requires lo <= m <= |a| && forall i :: lo <= i < m ==> a[i] == 0
    ensures ValueTo(a, w, m) == ValueTo(a, w, lo)
    decreases m
  {
    hide P2;
    if lo < m { ValueOfZeros(a, w, lo, m - 1); }
  }

  /** Conversion to i8 wraps. */
  function I8(x: int): int {
    (x + 128) % 256 - 128
  }

  // ---------- non-adjacent form ----------

  /** Nonzero digits are odd, smaller than 2^(w-1) in size, and at least w apart. */
  ghost predicate IsNaf(a: seq<int>, w: nat)
    requires w >= 1
  {
    && (forall i :: 0 <= i < |a| && a[i] != 0 ==> a[i] % 2 == 1 && 0 - P2(w - 1) < a[i] < P2(w - 1))
    && (forall i, j :: 0 <= i < j < |a| && a[i] != 0 && a[j] != 0 ==> j - i >= w)
  }

  /** Every nonzero digit so far ends its window by position pos. */
  ghost predicate Quiet(a: seq<int>, w: nat, pos: nat) {
    forall i :: 0 <= i < |a| && a[i] != 0 ==> i + w <= pos
  }

  /** The recurrence behind the loop, with k = carry + (x >> pos). */
  lemma EvenStep(x: nat, carry: nat, k: int)
    requires carry <= 1 && k == carry + x && k % 2 == 0
    ensures k == 2 * (carry + x / 2)
  {
  }

  lemma OddStep(x: nat, carry: nat, m: nat, win: int)
    requires carry <= 1 && m > 0 && m % 2 == 0 && win == carry + x % m && win % 2 == 1
    ensures 0 < win < m
    ensures carry + x == win + m * (x / m)
  {
    assert x == m * (x / m) + x % m;
  }

  /** The bound that forces the last carry to vanish: k <= 2^(255-pos) up to pos = 255, then 0. */
  ghost predicate Remaining(k: int, pos: nat) {
    if pos <= 255 then 0 <= k <= P2(255 - pos) else k == 0
  }

  lemma EvenBound(k: int, k': int, pos: nat)
    requires Remaining(k, pos) && k == 2 * k' && pos < 256
    ensures Remaining(k', pos + 1)
  {
    if pos == 255 {
      assert P2(0) == 1;
    } else {
      assert P2(255 - pos) == 2 * P2(254 - pos);
    }
  }

  lemma QuotientBound(k: int, d: int, h: int, k': int, b: int)
    requires 0 - h < d < h && k == d + (2 * h) * k' && 0 <= k <= (2 * h) * b + h && b >= 0
    ensures 0 <= k' <= b
  {
    assert k' <= -1 ==> (2 * h) * k' <= -(2 * h);
    assert k' >= b + 1 ==> (2 * h) * k' >= (2 * h) * (b + 1);
  }

  /** After an odd step: k = d + 2^w k' with |d| < 2^(w-1). */
  lemma OddBound(k: int, d: int, k': int, pos: nat, w: nat)
    requires Remaining(k, pos) && pos < 256 && 2 <= w && k == d + P2(w) * k'
    requires 0 - P2(w - 1) < d < P2(w - 1)
    ensures Remaining(k', pos + w)
  {
    var h := P2(w - 1);
    assert P2(w) == 2 * h;
    hide P2;
    if pos + w <= 255 {
      P2Add(w, 255 - pos - w);
      QuotientBound(k, d, h, k', P2(255 - pos - w));
    } else {
      P2Mono(255 - pos, w - 1);
      QuotientBound(k, d, h, k', 0);
    }
  }

  /** Shifting in two steps. */
  lemma ShiftStep(x: nat, pos: nat, w: nat)
    ensures Shr(x, pos + w) == Shr(Shr(x, pos), w)
  {
    P2Add(pos, w);
    DivSteps(x, P2(pos), P2(w));
  }

  method NonAdjacentForm(limbs: seq<nat>, w: nat) returns (naf: array<int>)
    requires |limbs| == 5 && IsLimbs(limbs) && limbs[4] == 0 && LimbValue(limbs) < P2(255) && 2 <= w <= 8
    ensures naf.Length == 256 && IsNaf(naf[..], w)
    ensures ValueTo(naf[..], 1, 256) == LimbValue(limbs)
    ensures forall i :: 0 <= i < 256 ==> -128 <= naf[i] < 128
  {
    hide P2, LimbValue, IsLimbs;
    naf := new int[256](i => 0);
    var width := P2(w);
    ghost var x := LimbValue(limbs);
    var pos, carry := 0, 0;
    NafStart(naf[..], w, x);
    while pos < 256
      invariant 0 <= pos && 0 <= carry <= 1
      invariant NafInv(naf[..], w, x, pos, carry)
    {
      var window := carry + BitBuffer(limbs, pos, w) % width;
      WindowIsBits(limbs, pos, w);
      ghost var before := naf[..];
      if window % 2 == 0 {
        NafSkip(before, w, x, pos, carry, window);
        pos := pos + 1;
      } else {
        NafEmit(before, w, x, pos, carry, window);
        DigitFits(window, w);
        if window < width / 2 {
          carry := 0;
          naf[pos] := I8(window);
        } else {
          carry := 1;
          naf[pos] := I8(I8(window) - I8(width));
        }
        assert naf[..] == before[pos := naf[pos]];
        pos := pos + w;
      }
    }
    NafDone(naf[..], w, x, pos, carry);
  }

  ghost predicate NafShape(a: seq<int>, w: nat, pos: nat) {
    |a| == 256 && 2 <= w <= 8 && IsNaf(a, w) && Quiet(a, w, pos)
  }

  /** The digits so far and what is left: value + 2^pos k = x, and k fits in the room left. */
  ghost predicate NafLeft(a: seq<int>, x: nat, pos: nat, k: int) {
    |a| == 256 && ValueTo(a, 1, 256) + P2(pos) * k == x && Remaining(k, pos)
  }

  /** With carry in hand, what is left is carry + (x >> pos). */
  ghost predicate NafInv(a: seq<int>, w: nat, x: nat, pos: nat, carry: nat) {
    carry <= 1 && NafShape(a, w, pos) && NafLeft(a, x, pos, carry + Shr(x, pos))
  }

  lemma NafStart(a: seq<int>, w: nat, x: nat)
    requires |a| == 256 && 2 <= w <= 8 && x < P2(255) && forall i :: 0 <= i < 256 ==> a[i] == 0
    ensures NafInv(a, w, x, 0, 0)
  {
    ValueOfZeros(a, 1, 0, 256);
    assert P2(0) == 1;
  }

  lemma NafSkip(a: seq<int>, w: nat, x: nat, pos: nat, carry: nat, window: int)
    requires NafInv(a, w, x, pos, carry) && pos < 256 && 2 <= w <= 8
    requires window == carry + Low(Shr(x, pos), w) && window % 2 == 0
    ensures NafInv(a, w, x, pos + 1, carry)
  {
    hide P2, NafLeft, IsNaf, Shr, Low;
    var X := Shr(x, pos);
    ShiftStep(x, pos, 1);
    SameParity(X, w);
    ShrOne(X);
    EvenStep(X, carry, carry + X);
    NafSkipValue(a, x, pos, carry + X, carry + X / 2);
  }

  lemma ShrOne(x: nat)
    ensures Shr(x, 1) == x / 2
  {
    assert P2(1) == 2 * P2(0);
  }

  lemma NafSkipValue(a: seq<int>, x: nat, pos: nat, k: int, k': int)
    requires pos < 256 && NafLeft(a, x, pos, k) && k == 2 * k'
    ensures NafLeft(a, x, pos + 1, k')
  {
    assert P2(pos + 1) == 2 * P2(pos);
    hide P2, ValueTo;
    EvenBound(k, k', pos);
    Regroup(P2(pos), 2, k');
  }

  lemma Regroup(a: int, b: int, c: int)
    ensures a * (b * c) == (b * a) * c
  {
  }

  lemma EvenPart(x: int, m: int, h: int, q: int, r: int)
    requires x == m * q + r && m == 2 * h
    ensures r % 2 == x % 2
  {
    Outer2(h, q);
  }

  lemma Outer2(h: int, q: int)
    ensures (2 * h) * q == 2 * (h * q)
  {
  }

  lemma SameParity(x: nat, w: nat)
    requires w >= 1
    ensures Low(x, w) % 2 == x % 2
  {
    assert P2(w) == 2 * P2(w - 1);
    hide P2;
    assert x == P2(w) * (x / P2(w)) + x % P2(w);
    EvenPart(x, P2(w), P2(w - 1), x / P2(w), x % P2(w));
  }

  /** The digit the code writes: window or window - 2^w, also when i8 wraps at w = 8. */
  function NafDigit(window: int, w: nat): int {
    if window < P2(w) / 2 then window else window - P2(w)
  }

  lemma DigitFits(window: int, w: nat)
    requires 2 <= w <= 8 && 0 < window < P2(w) && window % 2 == 1
    ensures I8(window) == NafDigit(window, w) || window >= P2(w) / 2
    ensures window >= P2(w) / 2 ==> I8(I8(window) - I8(P2(w))) == NafDigit(window, w)
    ensures 0 - P2(w - 1) < NafDigit(window, w) < P2(w - 1) && -128 <= NafDigit(window, w) < 128
    ensures NafDigit(window, w) % 2 == 1
  {
    hide P2, I8;
    var m, h := P2(w), P2(w - 1);
    HalfWidth(w);
    if window < h {
      I8Fits(window);
    } else {
      I8Difference(window, m);
      I8Fits(window - m);
    }
    assert NafDigit(window, w) == if window < h then window else window - 2 * h;
    OddDifference(window, h);
  }

  lemma HalfWidth(w: nat)
    requires 2 <= w <= 8
    ensures P2(w) == 2 * P2(w - 1) && P2(w - 1) % 2 == 0 && 2 <= P2(w - 1) <= 128
  {
    P2Next(w - 1);
    P2Next(w - 2);
    hide P2;
    SmallPowers();
    P2Mono(1, w - 1);
    P2Mono(w - 1, 7);
  }

  lemma OddDifference(x: int, h: int)
    requires x % 2 == 1
    ensures (x - 2 * h) % 2 == 1
  {
  }

  lemma I8Fits(x: int)
    requires -128 <= x < 128
    ensures I8(x) == x
  {
  }

  lemma I8Difference(a: int, b: int)
    ensures I8(I8(a) - I8(b)) == I8(a - b)
  {
  }

  /** The window and the carry it leaves split k = carry + X as digit + 2^w k'. */
  lemma OddSplit(X: nat, carry: nat, w: nat, window: int, carry': int)
    requires w >= 1 && carry <= 1 && window == carry + Low(X, w) && window % 2 == 1
    requires carry' == if window < P2(w) / 2 then 0 else 1
    ensures 0 < window < P2(w)
    ensures carry + X == NafDigit(window, w) + P2(w) * (carry' + Shr(X, w))
  {
    var m := P2(w);
    assert m == 2 * P2(w - 1);
    hide P2;
    OddStep(X, carry, m, window);
    assert m * (carry' + X / m) == m * carry' + m * (X / m);
  }

  lemma SplitTerm(v: int, p: int, d: int, m: int, k: int, k': int, x: int)
    requires v + p * k == x && k == d + m * k'
    ensures (v + d * p) + (p * m) * k' == x
  {
    assert p * (d + m * k') == p * d + (p * m) * k';
  }

  lemma NafEmit(a: seq<int>, w: nat, x: nat, pos: nat, carry: nat, window: int)
    requires NafInv(a, w, x, pos, carry) && pos < 256 && 2 <= w <= 8
    requires window == carry + Low(Shr(x, pos), w) && window % 2 == 1
    ensures 0 < window < P2(w)
    ensures NafInv(a[pos := NafDigit(window, w)], w, x, pos + w, if window < P2(w) / 2 then 0 else 1)
  {
    hide P2, NafLeft, NafShape, NafDigit, Shr, Low;
    var X, d, carry' := Shr(x, pos), NafDigit(window, w), if window < P2(w) / 2 then 0 else 1;
    OddSplit(X, carry, w, window, carry');
    DigitFits(window, w);
    ShiftStep(x, pos, w);
    NafEmitValue(a, w, x, pos, d, carry + X, carry' + Shr(x, pos + w));
    NafEmitShape(a, w, pos, d);
  }

  lemma NafEmitValue(a: seq<int>, w: nat, x: nat, pos: nat, d: int, k: int, k': int)
    requires pos < 256 && NafShape(a, w, pos) && NafLeft(a, x, pos, k) && k == d + P2(w) * k'
    requires 0 - P2(w - 1) < d < P2(w - 1)
    ensures NafLeft(a[pos := d], x, pos + w, k')
  {
    hide P2;
    OddBound(k, d, k', pos, w);
    assert a[pos] == 0;
    ValueUpdate(a, 1, 256, pos, d);
    P2Add(pos, w);
    SplitTerm(ValueTo(a, 1, 256), P2(pos), d, P2(w), k, k', x);
  }

  lemma NafEmitShape(a: seq<int>, w: nat, pos: nat, d: int)
    requires pos < 256 && NafShape(a, w, pos)
    requires d % 2 == 1 && 0 - P2(w - 1) < d < P2(w - 1)
    ensures NafShape(a[pos := d], w, pos + w)
  {
    hide P2;
  }

  lemma NafDone(a: seq<int>, w: nat, x: nat, pos: nat, carry: nat)
    requires NafInv(a, w, x, pos, carry) && pos >= 256
    ensures ValueTo(a, 1, 256) == x && IsNaf(a, w) && forall i :: 0 <= i < 256 ==> -128 <= a[i] < 128
  {
    SmallPowers();
    P2Mono(w - 1, 7);
    assert P2(pos) * 0 == 0;
  }

  // ---------- radix 2^w ----------

  /** How many digits radix 2^w needs. */
  function SizeHint(w: nat): nat
    requires 4 <= w <= 8
  {
    if w == 8 then 33 else (256 + w - 1) / w
  }

  /** Digits in [-2^(w-1), 2^(w-1)), the top one possibly equal to 2^(w-1). */
  ghost predicate IsCentered(a: seq<int>, w: nat)
    requires w >= 1
  {
    forall i :: 0 <= i < |a| ==> 0 - P2(w - 1) <= a[i] <= P2(w - 1) && (a[i] == P2(w - 1) ==> i == 63)
  }

  /** The digits the radix-2^w recodings promise for x. */
  ghost predicate IsRadix(a: seq<int>, w: nat, x: int)
    requires 4 <= w <= 8
  {
    && |a| == 64 && IsCentered(a, w)
    && ValueTo(a, w, 64) == x
    && (forall i :: SizeHint(w) <= i < 64 ==> a[i] == 0)
  }

  lemma {:induction false} ValueSame(a: seq<int>, b: seq<int>, w: nat, m: nat)
    requires m <= |a| && m <= |b| && forall i :: 0 <= i < m ==> a[i] == b[i]
    ensures ValueTo(a, w, m) == ValueTo(b, w, m)
    decreases m
  {
    hide P2;
    if m > 0 { ValueSame(a, b, w, m - 1); }
  }

  /** One byte is its two nibbles. */
  lemma NibblePair(a: seq<int>, bytes: seq<int>, i: nat)
    requires 2 * i + 2 <= |a| && i < |bytes| && 0 <= bytes[i] < 256
    requires a[2 * i] == bytes[i] % 16 && a[2 * i + 1] == bytes[i] / 16
    requires ValueTo(a, 4, 2 * i) == ValueTo(bytes, 8, i)
    ensures ValueTo(a, 4, 2 * i + 2) == ValueTo(bytes, 8, i + 1)
  {
    assert P2(4 * (2 * i + 1)) == 16 * P2(8 * i) by { SmallPowers(); P2Add(4, 8 * i); }
    hide P2;
    var p := P2(8 * i);
    assert ValueTo(a, 4, 2 * i + 1) == ValueTo(a, 4, 2 * i) + a[2 * i] * p;
    assert ValueTo(a, 4, 2 * i + 2) == ValueTo(a, 4, 2 * i + 1) + a[2 * i + 1] * (16 * p);
    assert bytes[i] * p == a[2 * i] * p + a[2 * i + 1] * (16 * p);
  }

  /** Moving 2^w of a digit into a carry of one to the next keeps the value. */
  lemma CarryKeepsValue(a: seq<int>, w: nat, m: nat, i: nat, c: int)
    requires i + 1 < m <= |a|
    ensures ValueTo(a[i := a[i] - c * P2(w)][i + 1 := a[i + 1] + c], w, m) == ValueTo(a, w, m)
  {
    hide P2;
    var b := a[i := a[i] - c * P2(w)];
    ValueUpdate(a, w, m, i, a[i] - c * P2(w));
    ValueUpdate(b, w, m, i + 1, a[i + 1] + c);
    P2Add(w, w * i);
    assert w * (i + 1) == w + w * i;
    assert (-(c * P2(w))) * P2(w * i) + c * (P2(w) * P2(w * i)) == 0;
  }

  /** i8 arithmetic shift right by four. */
  function Sar4(x: int): int {
    x / 16
  }

  method AsRadix16(bytes: seq<int>) returns (output: array<int>)
    requires |bytes| == 32 && (forall i :: 0 <= i < 32 ==> 0 <= bytes[i] < 256) && bytes[31] <= 127
    ensures fresh(output)
    ensures output.Length == 64 && IsRadix(output[..], 4, ValueTo(bytes, 8, 32))
  {
    hide P2, ValueTo;
    output := new int[64](i => 0);
    ValueEmpty(output[..], 4);
    ValueEmpty(bytes, 8);
    for i := 0 to 32
      invariant ValueTo(output[..], 4, 2 * i) == ValueTo(bytes, 8, i)
      invariant forall j :: 0 <= j < 2 * i ==> 0 <= output[j] < 16
      invariant i == 32 ==> output[63] <= 7
    {
      ghost var before := output[..];
      output[2 * i] := bytes[i] % 16;
      output[2 * i + 1] := (bytes[i] / 16) % 16;
      ValueSame(before, output[..], 4, 2 * i);
      NibblePair(output[..], bytes, i);
    }
    Recentre(output, ValueTo(bytes, 8, 32));
  }

  /** Step 2: carries move the digits from [0,16) to [-8,8). */
  method Recentre(output: array<int>, ghost x: int)
    requires output.Length == 64 && (forall j :: 0 <= j < 64 ==> 0 <= output[j] < 16) && output[63] <= 7
    requires ValueTo(output[..], 4, 64) == x
    modifies output
    ensures IsRadix(output[..], 4, x)
  {
    hide P2, ValueTo;
    SmallPowers();
    for i := 0 to 63
      invariant ValueTo(output[..], 4, 64) == x
      invariant forall j :: 0 <= j < i ==> -8 <= output[j] < 8
      invariant forall j :: i < j < 64 ==> 0 <= output[j] < 16
      invariant 0 <= output[i] <= 16
      invariant i < 63 ==> output[63] <= 7
      invariant i == 63 ==> output[63] <= 8
    {
      ghost var before := output[..];
      var carry := Sar4(output[i] + 8);
      output[i] := output[i] - carry * 16;
      output[i + 1] := output[i + 1] + carry;
      assert output[..] == before[i := before[i] - carry * 16][i + 1 := before[i + 1] + carry];
      CarryKeepsValue(before, 4, 64, i, carry);
    }
  }

  lemma ValueEmpty(a: seq<int>, w: nat)
    ensures ValueTo(a, w, 0) == 0
  {
  }

  // ---------- radix 2^w, w = 5..8 ----------

  /** The word reader of as_radix_2w, which has no fifth word. */
  function BitBuffer4(limbs: seq<nat>, pos: nat, w: nat): int
    requires |limbs| == 4 && pos < 256 && w <= 8
  {
    var idx, bit := pos / 64, pos % 64;
    if bit < 64 - w || idx == 3 then limbs[idx] / P2(bit)
    else limbs[idx] / P2(bit) + (limbs[idx + 1] * P2(64 - bit)) % P2(64)
  }

  lemma {:induction false} LimbsPadded(limbs: seq<nat>)
    ensures LimbValue(limbs + [0]) == LimbValue(limbs)
  {
    if limbs == [] {
      assert (limbs + [0])[1..] == [];
    } else {
      assert (limbs + [0])[1..] == limbs[1..] + [0];
      LimbsPadded(limbs[1..]);
    }
  }

  lemma ZeroShifted(c: int, m: int)
    requires m > 0
    ensures (0 * c) % m == 0
  {
  }

  lemma Window4IsBits(limbs: seq<nat>, pos: nat, w: nat)
    requires |limbs| == 4 && IsLimbs(limbs) && pos < 256 && 1 <= w <= 8
    ensures BitBuffer4(limbs, pos, w) % P2(w) == Low(Shr(LimbValue(limbs), pos), w)
  {
    LimbsPadded(limbs);
    assert IsLimbs(limbs + [0]) by { assert P2(64) > 0; }
    hide P2, LimbValue, IsLimbs, Low, Shr;
    WindowIsBits(limbs + [0], pos, w);
    ZeroShifted(P2(64 - pos % 64), P2(64));
  }

  /** The digits so far, the carry and the bits not yet read make up x. */
  ghost predicate RadixInv(a: seq<int>, w: nat, x: nat, i: nat, carry: int) {
    && |a| == 64 && 5 <= w <= 8 && i <= 64 && 0 <= carry <= 1
    && (forall j :: 0 <= j < i ==> 0 - P2(w - 1) <= a[j] < P2(w - 1))
    && (forall j :: i <= j < 64 ==> a[j] == 0)
    && ValueTo(a, w, i) + P2(w * i) * (carry + Shr(x, w * i)) == x
  }

  /** The carry out of a coefficient, rounding to the nearest multiple of 2^w. */
  function RadixCarry(coef: int, w: nat): int {
    (coef + P2(w) / 2) / P2(w)
  }

  lemma LowBound(x: nat, w: nat)
    ensures 0 <= Low(x, w) < P2(w)
  {
  }

  /** Recentering one coefficient. */
  lemma Recenter(coef: int, w: nat, carry': int, d: int)
    requires 5 <= w <= 8 && 0 <= coef <= P2(w)
    requires carry' == RadixCarry(coef, w) && d == coef - carry' * P2(w)
    ensures 0 <= carry' <= 1 && 0 - P2(w - 1) <= d < P2(w - 1) && I8(d) == d
    ensures coef < P2(w) / 2 ==> carry' == 0
  {
    SmallPowers();
  }

  lemma RadixSplit(X: nat, carry: int, w: nat, coef: int, carry': int)
    requires coef == carry + Low(X, w)
    ensures carry + X == (coef - carry' * P2(w)) + P2(w) * (carry' + Shr(X, w))
  {
    var m := P2(w);
    hide P2;
    assert X == m * (X / m) + X % m;
    assert m * (carry' + X / m) == m * carry' + m * (X / m);
  }

  lemma RadixEmitValue(a: seq<int>, w: nat, x: nat, i: nat, carry: int, coef: int, carry': int, d: int)
    requires i < |a| && ValueTo(a, w, i) + P2(w * i) * (carry + Shr(x, w * i)) == x
    requires coef == carry + Low(Shr(x, w * i), w) && d == coef - carry' * P2(w)
    ensures ValueTo(a[i := d], w, i + 1) + P2(w * (i + 1)) * (carry' + Shr(x, w * (i + 1))) == x
  {
    hide P2, Shr, Low, ValueTo;
    var X, s := Shr(x, w * i), w * i;
    assert w * (i + 1) == s + w;
    RadixSplit(X, carry, w, coef, carry');
    ShiftStep(x, s, w);
    P2Add(s, w);
    SplitTerm(ValueTo(a, w, i), P2(s), d, P2(w), carry + X, carry' + Shr(x, s + w), x);
    ValueSame(a, a[i := d], w, i);
    ValueLast(a[i := d], w, i + 1);
  }

  lemma RadixEmit(a: seq<int>, w: nat, x: nat, i: nat, carry: int, coef: int, carry': int, d: int)
    requires RadixInv(a, w, x, i, carry) && 5 <= w <= 8 && i < 64
    requires coef == carry + Low(Shr(x, w * i), w)
    requires carry' == RadixCarry(coef, w) && d == coef - carry' * P2(w)
    ensures I8(d) == d && RadixInv(a[i := d], w, x, i + 1, carry')
  {
    hide P2, Shr, Low, I8, RadixCarry, ValueTo;
    LowBound(Shr(x, w * i), w);
    Recenter(coef, w, carry', d);
    RadixEmitValue(a, w, x, i, carry, coef, carry', d);
  }

  /** Below 2^255 the last window is so small that for w < 8 no carry leaves it. */
  lemma LastCarry(x: nat, w: nat, i: nat, carry: int, coef: int)
    requires x < P2(255) && 5 <= w <= 7 && i == (256 + w - 1) / w - 1 && 0 <= carry <= 1
    requires coef == carry + Low(Shr(x, w * i), w)
    ensures coef < P2(w) / 2
  {
    hide P2;
    assert w * i == 252 || w * i == 255;
    ShrBound(x, 255, w * i);
    assert Shr(x, w * i) <= 7 by {
      SmallPowers();
      if w * i == 252 { assert 255 - w * i == 3; }
    }
    SmallPowers();
  }

  lemma ShrBound(x: nat, top: nat, k: nat)
    requires x < P2(top) && k <= top
    ensures Shr(x, k) < P2(top - k)
  {
    hide P2;
    P2Add(k, top - k);
    var p, q := P2(k), x / P2(k);
    var t := P2(top - k);
    assert x == p * q + x % p;
    assert q >= t ==> p * q >= p * t;
  }

  lemma ShrPast(x: nat, k: nat)
    requires x < P2(255) && k >= 255
    ensures Shr(x, k) == 0
  {
    hide P2;
    P2Mono(255, k);
    DivModUnique(x, P2(k), 0, x);
  }

  lemma I8Small()
    ensures I8(0) == 0 && I8(1) == 1
  {
  }

  lemma RadixStart(a: seq<int>, w: nat, x: nat)
    requires |a| == 64 && 5 <= w <= 8 && forall i :: 0 <= i < 64 ==> a[i] == 0
    ensures RadixInv(a, w, x, 0, 0)
  {
    assert w * 0 == 0 && P2(0) == 1;
  }

  lemma RadixFinish(a: seq<int>, w: nat, x: nat, carry: int)
    requires 5 <= w <= 8 && RadixInv(a, w, x, (256 + w - 1) / w, carry) && x < P2(255)
    requires w < 8 ==> carry == 0
    ensures w == 8 ==> a[32] == 0
    ensures IsRadix(if w == 8 then a[32 := carry] else a, w, x)
  {
    hide P2, Shr, ValueTo, IsCentered;
    var n := (256 + w - 1) / w;
    assert n == if w == 5 then 52 else if w == 6 then 43 else if w == 7 then 37 else 32;
    RadixDigits(a, w, n, carry);
    RadixValue(a, w, x, n, carry);
    if w == 8 {
      ValueUpdate(a, w, 64, 32, carry);
    }
  }

  /** Past the last digit only the carry is left. */
  lemma RadixValue(a: seq<int>, w: nat, x: nat, n: nat, carry: int)
    requires RadixInv(a, w, x, n, carry) && 255 <= w * n && x < P2(255)
    ensures ValueTo(a, w, 64) + carry * P2(w * n) == x && (carry == 0 ==> ValueTo(a, w, 64) == x)
  {
    hide P2, Shr, ValueTo;
    ShrPast(x, w * n);
    ValueOfZeros(a, w, n, 64);
    RadixTotal(ValueTo(a, w, n), P2(w * n), carry, x);
  }

  lemma RadixDigits(a: seq<int>, w: nat, n: nat, carry: int)
    requires |a| == 64 && 5 <= w <= 8 && n <= 52 && (w == 8 ==> n == 32) && 0 <= carry <= 1
    requires (forall j :: 0 <= j < n ==> 0 - P2(w - 1) <= a[j] < P2(w - 1)) && (forall j :: n <= j < 64 ==> a[j] == 0)
    ensures IsCentered(if w == 8 then a[32 := carry] else a, w)
  {
    assert 16 <= P2(w - 1) by { SmallPowers(); P2Mono(4, w - 1); }
    hide P2;
  }

  lemma RadixTotal(v: int, p: int, carry: int, x: int)
    requires v + p * (carry + 0) == x
    ensures v + carry * p == x && (carry == 0 ==> v == x)
  {
  }

  method AsRadix2w(limbs: seq<nat>, w: nat) returns (digits: array<int>)
    requires |limbs| == 4 && IsLimbs(limbs) && LimbValue(limbs) < P2(255) && 5 <= w <= 8
    ensures fresh(digits)
    ensures digits.Length == 64 && IsRadix(digits[..], w, LimbValue(limbs))
  {
    hide P2, LimbValue, IsLimbs, Shr, Low, I8, IsRadix, BitBuffer4, ValueTo;
    ghost var x := LimbValue(limbs);
    var radix, carry := P2(w), 0;
    digits := new int[64](i => 0);
    RadixStart(digits[..], w, x);
    var count := (256 + w - 1) / w;
    for i := 0 to count
      invariant RadixInv(digits[..], w, x, i, carry)
      invariant i == count && w < 8 ==> carry == 0
    {
      ghost var before := digits[..];
      assert i * w < 256 && w * i == i * w by { assert i * w <= (count - 1) * w; }
      Window4IsBits(limbs, i * w, w);
      var coef := carry + BitBuffer4(limbs, i * w, w) % radix;
      ghost var last := carry;
      carry := (coef + radix / 2) / radix;
      RadixEmit(before, w, x, i, last, coef, carry, coef - carry * radix);
      if i == count - 1 && w < 8 {
        LastCarry(x, w, i, last, coef);
        LowBound(Shr(x, w * i), w);
        Recenter(coef, w, carry, coef - carry * radix);
      }
      digits[i] := I8(coef - carry * radix);
      assert digits[..] == before[i := digits[i]];
    }
    ghost var before := digits[..];
    assert I8(0) == 0 && I8(1) == 1 by { I8Small(); }
    RadixFinish(before, w, x, carry);
    if w == 8 {
      digits[count] := digits[count] + I8(carry);
    } else {
      digits[count - 1] := digits[count - 1] + I8(carry * radix);
    }
    assert digits[..] == if w == 8 then before[32 := carry] else before;
  }

  // ---------- from the scalar's bytes ----------

  /** A scalar: 32 little-endian bytes with the top bit clear. */
  ghost predicate IsScalar(bytes: seq<int>) {
    |bytes| == 32 && AllBytes(bytes) && bytes[31] <= 127
  }

  ghost predicate AllBytes(bytes: seq<int>) {
    forall i :: 0 <= i < |bytes| ==> 0 <= bytes[i] < 256
  }

  function ScalarValue(bytes: seq<int>): int {
    ValueTo(bytes, 8, |bytes|)
  }

  lemma {:induction false} ValueBound(bytes: seq<int>, m: nat)
    requires AllBytes(bytes) && m <= |bytes|
    ensures 0 <= ValueTo(bytes, 8, m) < P2(8 * m)
    decreases m
  {
    if m == 0 {
      assert P2(0) == 1;
    } else {
      ValueBound(bytes, m - 1);
      SmallPowers();
      hide P2;
      P2Add(8, 8 * (m - 1));
      var p := P2(8 * (m - 1));
      assert 0 <= bytes[m - 1] * p <= 255 * p;
    }
  }

  lemma ScalarBound(bytes: seq<int>)
    requires IsScalar(bytes)
    ensures 0 <= ScalarValue(bytes) < P2(255)
  {
    hide P2, ValueTo;
    SmallPowers();
    ValueBound(bytes, 31);
    ValueLast(bytes, 8, 32);
    P2Add(7, 248);
    var p := P2(248);
    assert 0 <= bytes[31] * p <= 127 * p;
  }

  lemma {:induction false} ValueAppend(a: seq<int>, b: seq<int>, w: nat, m: nat)
    requires m <= |b|
    ensures ValueTo(a + b, w, |a| + m) == ValueTo(a, w, |a|) + P2(w * |a|) * ValueTo(b, w, m)
    decreases m
  {
    hide P2;
    if m == 0 {
      ValueSame(a + b, a, w, |a|);
      assert P2(w * |a|) * ValueTo(b, w, 0) == 0;
    } else {
      ValueAppend(a, b, w, m - 1);
      assert (a + b)[|a| + m - 1] == b[m - 1];
      P2Add(w * |a|, w * (m - 1));
      assert w * (|a| + m - 1) == w * |a| + w * (m - 1);
      Spread(P2(w * |a|), ValueTo(b, w, m - 1), b[m - 1], P2(w * (m - 1)));
    }
  }

  lemma Spread(p: int, v: int, d: int, q: int)
    ensures p * v + d * (p * q) == p * (v + d * q)
  {
    assert p * (d * q) == d * (p * q);
  }

  /** The little-endian 64-bit words of a byte string. */
  function Words(bytes: seq<int>): (r: seq<nat>)
    requires AllBytes(bytes) && |bytes| % 8 == 0
    ensures |r| == |bytes| / 8
    decreases |bytes|
  {
    if bytes == [] then [] else
      ValueBound(bytes[..8], 8);
      [ValueTo(bytes[..8], 8, 8)] + Words(bytes[8..])
  }

  lemma {:induction false} WordsValue(bytes: seq<int>)
    requires AllBytes(bytes) && |bytes| % 8 == 0
    ensures LimbValue(Words(bytes)) == ScalarValue(bytes) && IsLimbs(Words(bytes))
    decreases |bytes|
  {
    if bytes != [] {
      var first, rest := bytes[..8], bytes[8..];
      WordsValue(rest);
      ValueBound(first, 8);
      var words := Words(bytes);
      assert words == [ValueTo(first, 8, 8)] + Words(rest);
      assert words[1..] == Words(rest);
      hide P2;
      assert bytes == first + rest;
      ValueAppend(first, rest, 8, |rest|);
    }
  }

  /** as_radix_2w on a scalar: digits of the promised shape that sum to it. */
  method Radix2w(bytes: seq<int>, w: nat) returns (digits: array<int>)
    requires IsScalar(bytes) && 4 <= w <= 8
    ensures fresh(digits) && digits.Length == 64 && IsRadix(digits[..], w, ScalarValue(bytes))
  {
    if w == 4 {
      digits := AsRadix16(bytes);
    } else {
      WordsValue(bytes);
      ScalarBound(bytes);
      digits := AsRadix2w(Words(bytes), w);
    }
  }

  lemma OneInEveryWindow(a: seq<int>, w: nat)
    requires w >= 1 && IsNaf(a, w)
    ensures forall i, j :: 0 <= i < j < |a| && j < i + w ==> a[i] == 0 || a[j] == 0
  {
    hide P2;
  }

  /** non_adjacent_form on a scalar. */
  method Naf(bytes: seq<int>, w: nat) returns (naf: array<int>)
    requires IsScalar(bytes) && 2 <= w <= 8
    ensures naf.Length == 256 && IsNaf(naf[..], w)
    ensures forall i, j :: 0 <= i < j < 256 && j < i + w ==> naf[i] == 0 || naf[j] == 0
    ensures ValueTo(naf[..], 1, 256) == ScalarValue(bytes)
    ensures forall i :: 0 <= i < 256 ==> -128 <= naf[i] < 128
  {
    WordsValue(bytes);
    ScalarBound(bytes);
    var words := Words(bytes);
    LimbsPadded(words);
    assert IsLimbs(words + [0]) by { assert P2(64) > 0; }
    hide IsLimbs, LimbValue, P2, ValueTo, ScalarValue, Words;
    naf := NonAdjacentForm(words + [0], w);
    OneInEveryWindow(naf[..], w);
  }

  // ---------- the form is unique ----------

  lemma {:induction false} ValueZeroTail(a: seq<int>, m: nat)
    requires 0 < m <= |a| && forall i :: 1 <= i < m ==> a[i] == 0
    ensures ValueTo(a, 1, m) == a[0]
    decreases m
  {
    if m == 1 {
      assert ValueTo(a, 1, 0) == 0 && P2(0) == 1;
      ValueLast(a, 1, 1);
    } else {
      hide P2;
      ValueZeroTail(a, m - 1);
      ValueLast(a, 1, m);
    }
  }

  /** Cutting after k digits. */
  lemma ValueCut(a: seq<int>, k: nat)
    requires k <= |a|
    ensures ValueTo(a, 1, |a|) == ValueTo(a[..k], 1, k) + P2(k) * ValueTo(a[k..], 1, |a| - k)
  {
    hide P2, ValueTo;
    assert a == a[..k] + a[k..];
    ValueAppend(a[..k], a[k..], 1, |a| - k);
  }

  /** An odd lowest digit is the value modulo 2^w. */
  lemma LowestDigit(a: seq<int>, w: nat) returns (q: int)
    requires w >= 1 && |a| > 0 && IsNaf(a, w) && a[0] != 0
    ensures ValueTo(a, 1, |a|) == a[0] + P2(w) * q
  {
    hide P2, ValueTo;
    if |a| <= w {
      ValueZeroTail(a, |a|);
      q := 0;
      assert P2(w) * 0 == 0;
    } else {
      ValueCut(a, w);
      ValueZeroTail(a[..w], w);
      q := ValueTo(a[w..], 1, |a| - w);
    }
  }

  lemma SameResidue(x: int, y: int, h: int, q: int, r: int)
    requires 0 - h < x < h && 0 - h < y < h && x + (2 * h) * q == y + (2 * h) * r
    ensures x == y && q == r
  {
    assert (2 * h) * (r - q) == x - y by { Split(2 * h, r - q, q); }
    assert r - q >= 1 ==> (2 * h) * (r - q) >= 2 * h;
    assert r - q <= -1 ==> (2 * h) * (r - q) <= -(2 * h);
  }

  lemma LowParity(a: seq<int>, w: nat)
    requires w >= 1 && |a| > 0 && IsNaf(a, w)
    ensures ValueTo(a, 1, |a|) == a[0] + 2 * ValueTo(a[1..], 1, |a| - 1)
    ensures ValueTo(a, 1, |a|) % 2 == 0 <==> a[0] == 0
  {
    P2Next(0);
    hide P2, ValueTo;
    ValueCut(a, 1);
    ValueZeroTail(a[..1], 1);
    EvenRest(a[0], ValueTo(a[1..], 1, |a| - 1));
  }

  lemma EvenRest(d: int, v: int)
    ensures (d + 2 * v) % 2 == d % 2
  {
  }

  /** Equal values have equal lowest digits. */
  lemma LowestDigitsAgree(a: seq<int>, b: seq<int>, w: nat)
    requires w >= 1 && |a| > 0 && |b| > 0 && IsNaf(a, w) && IsNaf(b, w) && ValueTo(a, 1, |a|) == ValueTo(b, 1, |b|)
    ensures a[0] == b[0]
  {
    hide ValueTo;
    LowParity(a, w);
    LowParity(b, w);
    if a[0] != 0 {
      var q := LowestDigit(a, w);
      var r := LowestDigit(b, w);
      assert P2(w) == 2 * P2(w - 1);
      hide P2;
      SameResidue(a[0], b[0], P2(w - 1), q, r);
    }
  }

  /** A width-w form of an integer is unique: forms of the same length and value are equal. */
  lemma {:induction false} NafIsUnique(a: seq<int>, b: seq<int>, w: nat)
    requires w >= 1 && |a| == |b| && IsNaf(a, w) && IsNaf(b, w) && ValueTo(a, 1, |a|) == ValueTo(b, 1, |b|)
    ensures a == b
    decreases |a|
  {
    if a != [] {
      hide ValueTo, P2;
      LowestDigitsAgree(a, b, w);
      LowParity(a, w);
      LowParity(b, w);
      NafTail(a, w);
      NafTail(b, w);
      NafIsUnique(a[1..], b[1..], w);
      assert a == [a[0]] + a[1..] && b == [b[0]] + b[1..];
    }
  }

  lemma NafTail(a: seq<int>, w: nat)
    requires w >= 1 && |a| > 0 && IsNaf(a, w)
    ensures IsNaf(a[1..], w)
  {
    hide P2;
  }
}
