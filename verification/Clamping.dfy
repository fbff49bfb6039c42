/** Clamped keys (clamp_integer in curve25519-dalek/src/scalar.rs). */
module Clamping {
  import opened Arith
  import opened Powers
  import opened Feistel
  import opened Mapping

  /** clamp_integer: clear the low three bits and the top bit, set the next one. */
  function ClampInteger(b: Block): (c: Block)
    requires |b| == 32
    ensures |c| == 32
  {
    b[0 := b[0] - b[0] % 8][31 := b[31] % 64 + 64]
  }

  lemma LowBitsOfLe(c: Block)
    requires |c| == 32 && c[0] % 8 == 0
    ensures LeValue(c) % 8 == 0
  {
    hide Pow;
    assert LeValue(c) == c[0] + 256 * LeValue(c[1..]);
  }

  /** decodeScalar25519 of section 5 of RFC 7748: a clamped string is 8 k with
      2^251 <= k < 2^252, and clamping again changes nothing. */
  lemma ClampedKey(b: Block)
    requires |b| == 32
    ensures var v := LeValue(ClampInteger(b));
      && v % 8 == 0 && 8 * Pow(256, 31) <= v / 8 < 16 * Pow(256, 31)
      && ClampInteger(ClampInteger(b)) == ClampInteger(b)
  {
    hide Pow, LeValue, ClampInteger;
    ClampedBytes(b);
    var c := ClampInteger(b);
    LowBitsOfLe(c);
    LastByteBound(c);
    EighthRange(LeValue(c), c[31], Pow(256, 31));
  }

  lemma EighthRange(v: int, b: int, w: int)
    requires v % 8 == 0 && 64 <= b < 128 && w > 0 && b * w <= v < (b + 1) * w
    ensures 8 * w <= v / 8 < 16 * w
  {
    ClampRange(b, w);
  }

  lemma ClampedBytes(b: Block)
    requires |b| == 32
    ensures var c := ClampInteger(b); c[0] % 8 == 0 && 64 <= c[31] < 128 && ClampInteger(c) == c
  {
  }

  lemma ClampRange(b: int, w: int)
    requires 64 <= b < 128 && w > 0
    ensures 64 * w <= b * w && (b + 1) * w <= 128 * w
  {
    assert b * w - 64 * w == (b - 64) * w;
    assert 128 * w - (b + 1) * w == (127 - b) * w;
  }

  lemma ByteWeight(n: nat)
    ensures Pow(256, n) == P2(8 * n)
  {
    P2IsPow(8);
    SmallPowers();
    hide P2, Pow;
    PowPow(2, 8, n);
    P2IsPow(8 * n);
  }

  /** A clamped string stays below 2^255. */
  lemma ClampedBelow255(b: Block)
    requires |b| == 32
    ensures LeValue(ClampInteger(b)) < P2(255)
  {
    ClampedKey(b);
    hide P2, Pow, LeValue;
    ByteWeight(31);
    SmallPowers();
    P2Add(7, 248);
  }

  /** The clamped value in numbers: bits 3 to 253 of the key are kept, bit 254 is set, and
      every other bit is cleared. */
  lemma ClampedValue(b: Block)
    requires |b| == 32
    ensures LeValue(ClampInteger(b)) == P2(254) + 8 * (LeValue(b) / 8 % P2(251))
  {
    hide P2, Pow, LeValue;
    var w, t, y := P2(248), b[31] as int, b[31] % 64 + 64;
    var e := (y - t) * w;
    ClampWeights();
    LastByteBound(b);
    LowByte(b);
    ReplacedBytes(b, b[0] - b[0] % 8, y, w, e);
    ClampedQuotient(LeValue(b), t, y, w, e);
  }

  lemma ClampWeights()
    ensures Pow(256, 31) == P2(248) && P2(254) == 64 * P2(248) && P2(251) == 8 * P2(248)
  {
    SmallPowers();
    hide P2, Pow;
    ByteWeight(31);
    P2Add(3, 248);
    P2Add(6, 248);
  }

  lemma ReplacedBytes(b: Block, x: Byte, y: Byte, w: int, e: int)
    requires |b| == 32 && w == Pow(256, 31) && e == (y - b[31]) * w
    ensures LeValue(b[0 := x][31 := y]) == LeValue(b) + x - b[0] + e
  {
    hide *;
    var d := b[0 := x];
    FirstByte(b, x);
    ReplacedLast(d, y);
    assert d[31] == b[31];
  }

  lemma ReplacedLast(d: Block, t: Byte)
    requires |d| == 32
    ensures LeValue(d[31 := t]) == LeValue(d) + (t - d[31]) * Pow(256, 31)
  {
    hide *;
    LastByte(d, t);
  }

  /** Changing the first byte changes the value by as much. */
  lemma FirstByte(s: Block, b: Byte)
    requires s != []
    ensures LeValue(s[0 := b]) == LeValue(s) + b - s[0]
  {
    assert s[0 := b][1..] == s[1..];
  }

  lemma LowByte(b: Block)
    requires b != []
    ensures LeValue(b) % 8 == b[0] % 8
  {
    assert LeValue(b) == b[0] + 8 * (32 * LeValue(b[1..]));
  }

  /** With w = 2^248: what replacing the last byte t does to the value. */
  lemma ClampedQuotient(v: int, t: int, y: int, w: int, e: int)
    requires w > 0 && t >= 0 && y == t % 64 + 64 && t * w <= v < (t + 1) * w && e == (y - t) * w
    ensures v - v % 8 + e == 64 * w + 8 * (v / 8 % (8 * w))
  {
    var q, s := t / 64, t % 64;
    var r := q * (8 * w);
    TopParts(q, s, w);
    assert t == 64 * q + s;
    var u := v - 8 * r;
    assert 0 <= u < 64 * w;
    assert v / 8 == r + u / 8;
    DivModUnique(v / 8, 8 * w, q, u / 8);
  }

  lemma TopParts(q: int, s: int, w: int)
    requires w > 0 && 0 <= s < 64
    ensures (64 * q + s) * w >= 8 * (q * (8 * w)) && (64 * q + s + 1) * w <= 8 * (q * (8 * w)) + 64 * w
    ensures (s + 64 - (64 * q + s)) * w == 64 * w - 8 * (q * (8 * w))
  {
    assert 8 * (q * (8 * w)) == 64 * (q * w);
    ProductMono(s + 1, 64, w);
    ProductMono(0, s, w);
    assert (64 * q + s) * w == 64 * (q * w) + s * w;
    assert (64 * q + s + 1) * w == 64 * (q * w) + (s + 1) * w;
    assert (64 - 64 * q) * w == 64 * w - 64 * (q * w);
  }
}
