/** The 256-bit permutation: a three-round Feistel network whose round function is the
    block cipher under a derived key (src/mapping.rs). The cipher is an arbitrary function. */
module Feistel {
  import opened Arith
  import opened Powers

  type Byte = x: int | 0 <= x < 256

  type Block = seq<Byte>

  /** Exclusive or of the low n bits. */
  function XorBits(a: nat, b: nat, n: nat): (r: nat)
    decreases n
  {
    if n == 0 then 0 else (a + b) % 2 + 2 * XorBits(a / 2, b / 2, n - 1)
  }

  lemma {:induction false} XorBitsRange(a: nat, b: nat, n: nat)
    ensures XorBits(a, b, n) < P2(n)
    decreases n
  {
    if n > 0 { XorBitsRange(a / 2, b / 2, n - 1); }
  }

  lemma LowBitCancels(a: nat, b: nat, x: nat)
    ensures ((a + b) % 2 + 2 * x) / 2 == x
    ensures ((a + b) % 2 + 2 * x + b) % 2 + 2 * (a / 2) == a
  {
    assert b % 2 == 0 || b % 2 == 1;
    assert a % 2 == 0 || a % 2 == 1;
  }

  lemma {:induction false} XorBitsCancel(a: nat, b: nat, n: nat)
    requires a < P2(n)
    ensures XorBits(XorBits(a, b, n), b, n) == a
    decreases n
  {
    if n > 0 {
      XorBitsCancel(a / 2, b / 2, n - 1);
      LowBitCancels(a, b, XorBits(a / 2, b / 2, n - 1));
    }
  }

  /** Halving first and then dividing by 2^j is dividing by 2^(j + 1). */
  lemma HalfQuotient(x: nat, j: nat)
    ensures x / P2(j + 1) == x / 2 / P2(j)
  {
    P2Next(j);
    var w := P2(j);
    hide P2;
    var h := x / 2;
    var q := h / w;
    assert 2 * (w * q) == (2 * w) * q;
    DivModUnique(x, 2 * w, q, x - (2 * w) * q);
  }

  /** Bit j of the result is set exactly when the bits j of a and b differ. */
  lemma {:induction false} XorBitsBit(a: nat, b: nat, n: nat, j: nat)
    requires j < n
    ensures XorBits(a, b, n) / P2(j) % 2 == 1 <==> a / P2(j) % 2 != b / P2(j) % 2
    decreases n
  {
    var x := XorBits(a / 2, b / 2, n - 1);
    LowBitCancels(a, b, x);
    if j == 0 {
      P2Next(0);
    } else {
      XorBitsBit(a / 2, b / 2, n - 1, j - 1);
      hide P2, XorBits;
      HalfQuotient(a, j - 1);
      HalfQuotient(b, j - 1);
      HalfQuotient((a + b) % 2 + 2 * x, j - 1);
    }
  }

  function Xor(a: Byte, b: Byte): Byte {
    XorBitsRange(a, b, 8);
    SmallPowers();
    XorBits(a, b, 8)
  }

  lemma XorCancel(a: Byte, b: Byte)
    ensures Xor(Xor(a, b), b) == a
  {
    SmallPowers();
    XorBitsCancel(a, b, 8);
  }

  function XorBlock(a: Block, b: Block): (r: Block)
    requires |a| == |b|
    ensures |r| == |a|
  {
    seq(|a|, i requires 0 <= i < |a| => Xor(a[i], b[i]))
  }

  lemma XorBlockCancel(a: Block, b: Block)
    requires |a| == |b|
    ensures XorBlock(XorBlock(a, b), b) == a
  {
    forall i | 0 <= i < |a|
      ensures Xor(Xor(a[i], b[i]), b[i]) == a[i]
    {
      XorCancel(a[i], b[i]);
    }
  }

  /** XorBlock bit by bit. */
  lemma XorBlockBit(a: Block, b: Block, i: nat, j: nat)
    requires |a| == |b| && i < |a| && j < 8
    ensures XorBlock(a, b)[i] / P2(j) % 2 == 1 <==> a[i] / P2(j) % 2 != b[i] / P2(j) % 2
  {
    XorBitsBit(a[i], b[i], 8, j);
  }

  /** The cipher takes a key and a block of 16 bytes to 16 bytes. */
  type Cipher = (Block, Block) -> Block

  ghost predicate IsCipher(aes: Cipher) {
    forall k, b :: |aes(k, b)| == 16
  }

  /** aes: the cipher, keys: the three round keys. */
  datatype Prp = Prp(aes: Cipher, keys: seq<Block>)

  ghost predicate ValidPrp(p: Prp) {
    IsCipher(p.aes) && |p.keys| == 3 && forall i :: 0 <= i < 3 ==> |p.keys[i]| == 16
  }

  function Zeros(n: nat): (s: Block)
    ensures |s| == n && forall i :: 0 <= i < n ==> s[i] == 0
  {
    if n == 0 then [] else [0] + Zeros(n - 1)
  }

  /** Key derivation: K_i encrypts the block starting with i + 1 under the master key. */
  function NewPrp(aes: Cipher, master: Block): (p: Prp)
    ensures IsCipher(aes) ==> ValidPrp(p)
  {
    Prp(aes, [aes(master, [1] + Zeros(15)), aes(master, [2] + Zeros(15)), aes(master, [3] + Zeros(15))])
  }

  /** f = AES_K(half xor K). */
  function RoundF(aes: Cipher, key: Block, half: Block): Block
    requires |key| == |half|
  {
    aes(key, XorBlock(half, key))
  }

  /** (L, R) becomes (R, L xor f(R)) for each key in turn. */
  function EncryptRounds(aes: Cipher, keys: seq<Block>, l: Block, r: Block): (Block, Block)
    requires |l| == |r| == 16 && IsCipher(aes)
    requires forall i :: 0 <= i < |keys| ==> |keys[i]| == 16
  {
    if keys == [] then (l, r)
    else EncryptRounds(aes, keys[1..], r, XorBlock(l, RoundF(aes, keys[0], r)))
  }

  /** (L, R) becomes (R xor f(L), L) for each key from the last to the first. */
  function DecryptRounds(aes: Cipher, keys: seq<Block>, l: Block, r: Block): (Block, Block)
    requires |l| == |r| == 16 && IsCipher(aes)
    requires forall i :: 0 <= i < |keys| ==> |keys[i]| == 16
  {
    if keys == [] then (l, r)
    else
      var n := |keys| - 1;
      DecryptRounds(aes, keys[..n], XorBlock(r, RoundF(aes, keys[n], l)), l)
  }

  lemma {:induction false} RoundsLength(aes: Cipher, keys: seq<Block>, l: Block, r: Block)
    requires |l| == |r| == 16 && IsCipher(aes)
    requires forall i :: 0 <= i < |keys| ==> |keys[i]| == 16
    ensures var e := EncryptRounds(aes, keys, l, r); |e.0| == |e.1| == 16
    ensures var d := DecryptRounds(aes, keys, l, r); |d.0| == |d.1| == 16
    decreases |keys|
  {
    if keys != [] {
      var n := |keys| - 1;
      RoundsLength(aes, keys[1..], r, XorBlock(l, RoundF(aes, keys[0], r)));
      RoundsLength(aes, keys[..n], XorBlock(r, RoundF(aes, keys[n], l)), l);
    }
  }

  /** The last decryption round undoes the first encryption round. */
  lemma {:induction false} DecryptSplit(aes: Cipher, keys: seq<Block>, l: Block, r: Block)
    requires |l| == |r| == 16 && IsCipher(aes) && keys != []
    requires forall i :: 0 <= i < |keys| ==> |keys[i]| == 16
    ensures var d := DecryptRounds(aes, keys[1..], l, r);
      |d.0| == |d.1| == 16 && DecryptRounds(aes, keys, l, r) == (XorBlock(d.1, RoundF(aes, keys[0], d.0)), d.0)
    decreases |keys|
  {
    RoundsLength(aes, keys[1..], l, r);
    var n := |keys| - 1;
    if n > 0 {
      DecryptSplit(aes, keys[..n], XorBlock(r, RoundF(aes, keys[n], l)), l);
      assert keys[1..][..n - 1] == keys[..n][1..];
    } else {
      assert keys[..0] == [] && keys[1..] == [];
    }
  }

  lemma {:induction false} EncryptSplit(aes: Cipher, keys: seq<Block>, l: Block, r: Block)
    requires |l| == |r| == 16 && IsCipher(aes) && keys != []
    requires forall i :: 0 <= i < |keys| ==> |keys[i]| == 16
    ensures var n := |keys| - 1; var e := EncryptRounds(aes, keys[..n], l, r);
      |e.0| == |e.1| == 16 && EncryptRounds(aes, keys, l, r) == (e.1, XorBlock(e.0, RoundF(aes, keys[n], e.1)))
    decreases |keys|
  {
    var n := |keys| - 1;
    RoundsLength(aes, keys[..n], l, r);
    if n > 0 {
      EncryptSplit(aes, keys[1..], r, XorBlock(l, RoundF(aes, keys[0], r)));
      assert keys[1..][..n - 1] == keys[..n][1..];
    } else {
      assert keys[..0] == [] && keys[1..] == [];
    }
  }

  /** Decryption undoes encryption, for any number of rounds and any cipher. */
  lemma {:induction false} DecryptEncryptRounds(aes: Cipher, keys: seq<Block>, l: Block, r: Block)
    requires |l| == |r| == 16 && IsCipher(aes)
    requires forall i :: 0 <= i < |keys| ==> |keys[i]| == 16
    ensures var e := EncryptRounds(aes, keys, l, r);
      |e.0| == |e.1| == 16 && DecryptRounds(aes, keys, e.0, e.1) == (l, r)
    decreases |keys|
  {
    RoundsLength(aes, keys, l, r);
    if keys != [] {
      var f := RoundF(aes, keys[0], r);
      DecryptEncryptRounds(aes, keys[1..], r, XorBlock(l, f));
      var e := EncryptRounds(aes, keys, l, r);
      DecryptSplit(aes, keys, e.0, e.1);
      XorBlockCancel(l, f);
    }
  }

  /** Encryption undoes decryption. */
  lemma {:induction false} EncryptDecryptRounds(aes: Cipher, keys: seq<Block>, l: Block, r: Block)
    requires |l| == |r| == 16 && IsCipher(aes)
    requires forall i :: 0 <= i < |keys| ==> |keys[i]| == 16
    ensures var d := DecryptRounds(aes, keys, l, r);
      |d.0| == |d.1| == 16 && EncryptRounds(aes, keys, d.0, d.1) == (l, r)
    decreases |keys|
  {
    RoundsLength(aes, keys, l, r);
    if keys != [] {
      var n := |keys| - 1;
      var f := RoundF(aes, keys[n], l);
      EncryptDecryptRounds(aes, keys[..n], XorBlock(r, f), l);
      var d := DecryptRounds(aes, keys, l, r);
      EncryptSplit(aes, keys, d.0, d.1);
      XorBlockCancel(r, f);
    }
  }

  function Encrypt(p: Prp, b: Block): (c: Block)
    requires ValidPrp(p) && |b| == 32
    ensures |c| == 32
  {
    RoundsLength(p.aes, p.keys, b[..16], b[16..]);
    var (l, r) := EncryptRounds(p.aes, p.keys, b[..16], b[16..]);
    l + r
  }

  function Decrypt(p: Prp, b: Block): (c: Block)
    requires ValidPrp(p) && |b| == 32
    ensures |c| == 32
  {
    RoundsLength(p.aes, p.keys, b[..16], b[16..]);
    var (l, r) := DecryptRounds(p.aes, p.keys, b[..16], b[16..]);
    l + r
  }

  /** The network is a permutation of 32-byte blocks: each direction undoes the other. */
  lemma MutualInverses(p: Prp, b: Block)
    requires ValidPrp(p) && |b| == 32
    ensures Decrypt(p, Encrypt(p, b)) == b && Encrypt(p, Decrypt(p, b)) == b
  {
    var l, r := b[..16], b[16..];
    DecryptEncryptRounds(p.aes, p.keys, l, r);
    EncryptDecryptRounds(p.aes, p.keys, l, r);
    var e := EncryptRounds(p.aes, p.keys, l, r);
    assert (e.0 + e.1)[..16] == e.0 && (e.0 + e.1)[16..] == e.1;
    var d := DecryptRounds(p.aes, p.keys, l, r);
    assert (d.0 + d.1)[..16] == d.0 && (d.0 + d.1)[16..] == d.1;
    assert l + r == b;
  }

  /** Encryption as equations in the cipher: with K_i the encryption under the master key of
      the block that is i followed by zeros, and L and R the halves of the block, three times
      (L, R) becomes (R, L xor AES_{K_i}(R xor K_i)). */
  lemma ThreeRounds(aes: Cipher, master: Block, b: Block)
    requires IsCipher(aes) && |b| == 32
    ensures var k1 := aes(master, [1, 0, 0, 0, 0, 0, 0, 0, 0, 0, 0, 0, 0, 0, 0, 0]);
      var k2 := aes(master, [2, 0, 0, 0, 0, 0, 0, 0, 0, 0, 0, 0, 0, 0, 0, 0]);
      var k3 := aes(master, [3, 0, 0, 0, 0, 0, 0, 0, 0, 0, 0, 0, 0, 0, 0, 0]);
      var l, r := b[..16], b[16..];
      var r1 := XorBlock(l, aes(k1, XorBlock(r, k1)));
      var r2 := XorBlock(r, aes(k2, XorBlock(r1, k2)));
      var r3 := XorBlock(r1, aes(k3, XorBlock(r2, k3)));
      Encrypt(NewPrp(aes, master), b) == r2 + r3
  {
    assert [1] + Zeros(15) == [1, 0, 0, 0, 0, 0, 0, 0, 0, 0, 0, 0, 0, 0, 0, 0];
    assert [2] + Zeros(15) == [2, 0, 0, 0, 0, 0, 0, 0, 0, 0, 0, 0, 0, 0, 0, 0];
    assert [3] + Zeros(15) == [3, 0, 0, 0, 0, 0, 0, 0, 0, 0, 0, 0, 0, 0, 0, 0];
    hide XorBlock, EncryptRounds;
    var keys, l, r := NewPrp(aes, master).keys, b[..16], b[16..];
    var r1 := XorBlock(l, aes(keys[0], XorBlock(r, keys[0])));
    var r2 := XorBlock(r, aes(keys[1], XorBlock(r1, keys[1])));
    OneRound(aes, keys, l, r);
    OneRound(aes, keys[1..], r, r1);
    OneRound(aes, keys[2..], r1, r2);
    assert keys[1..][1..] == keys[2..] && keys[2..][1..] == keys[3..] && keys[3..] == [];
  }

  lemma OneRound(aes: Cipher, keys: seq<Block>, l: Block, r: Block)
    requires |l| == |r| == 16 && IsCipher(aes) && keys != []
    requires forall i :: 0 <= i < |keys| ==> |keys[i]| == 16
    ensures var next := XorBlock(l, aes(keys[0], XorBlock(r, keys[0])));
      && EncryptRounds(aes, keys, l, r) == EncryptRounds(aes, keys[1..], r, next)
      && (keys[1..] == [] ==> EncryptRounds(aes, keys, l, r) == (r, next))
  {
  }

  // ---------- in place ----------

  /** One in-place round: the halves swap and the old left half absorbs f. */
  method SwapXor(block: array<Byte>, f: Block)
    requires block.Length == 32 && |f| == 16
    modifies block
    ensures block[..16] == old(block[16..])
    ensures block[16..] == XorBlock(old(block[..16]), f)
  {
    hide Xor;
    ghost var l0, r0 := block[..16], block[16..];
    ghost var x := XorBlock(l0, f);
    var i := 0;
    while i < 16
      invariant 0 <= i <= 16
      invariant forall j :: 0 <= j < i ==> block[j] == r0[j]
      invariant forall j :: 16 <= j < 16 + i ==> block[j] == x[j - 16]
      invariant forall j :: i <= j < 16 ==> block[j] == l0[j]
      invariant forall j :: 16 + i <= j < 32 ==> block[j] == r0[j - 16]
    {
      var tmp := Xor(block[i], f[i]);
      block[i] := block[16 + i];
      block[16 + i] := tmp;
      i := i + 1;
    }
  }

  /** One in-place inverse round. */
  method UnswapXor(block: array<Byte>, f: Block)
    requires block.Length == 32 && |f| == 16
    modifies block
    ensures block[16..] == old(block[..16])
    ensures block[..16] == XorBlock(old(block[16..]), f)
  {
    hide Xor;
    ghost var l0, r0 := block[..16], block[16..];
    ghost var x := XorBlock(r0, f);
    var i := 0;
    while i < 16
      invariant 0 <= i <= 16
      invariant forall j :: 16 <= j < 16 + i ==> block[j] == l0[j - 16]
      invariant forall j :: 0 <= j < i ==> block[j] == x[j]
      invariant forall j :: i <= j < 16 ==> block[j] == l0[j]
      invariant forall j :: 16 + i <= j < 32 ==> block[j] == r0[j - 16]
    {
      var tmp := block[16 + i];
      block[16 + i] := block[i];
      block[i] := Xor(tmp, f[i]);
      i := i + 1;
    }
  }

  method EncryptBlock(p: Prp, block: array<Byte>)
    requires ValidPrp(p) && block.Length == 32
    modifies block
    ensures block[..] == Encrypt(p, old(block[..]))
  {
    ghost var l0, r0 := block[..16], block[16..];
    assert block[..][..16] == l0 && block[..][16..] == r0;
    var i := 0;
    while i < 3
      invariant 0 <= i <= 3
      invariant EncryptRounds(p.aes, p.keys[i..], block[..16], block[16..]) == EncryptRounds(p.aes, p.keys, l0, r0)
    {
      var f := RoundF(p.aes, p.keys[i], block[16..]);
      assert p.keys[i..][0] == p.keys[i] && p.keys[i..][1..] == p.keys[i + 1..];
      SwapXor(block, f);
      i := i + 1;
    }
    assert p.keys[3..] == [];
    assert block[..] == block[..16] + block[16..];
  }

  method DecryptBlock(p: Prp, block: array<Byte>)
    requires ValidPrp(p) && block.Length == 32
    modifies block
    ensures block[..] == Decrypt(p, old(block[..]))
  {
    ghost var l0, r0 := block[..16], block[16..];
    assert block[..][..16] == l0 && block[..][16..] == r0;
    var i := 3;
    assert p.keys[..3] == p.keys;
    while i > 0
      invariant 0 <= i <= 3
      invariant DecryptRounds(p.aes, p.keys[..i], block[..16], block[16..]) == DecryptRounds(p.aes, p.keys, l0, r0)
    {
      i := i - 1;
      var f := RoundF(p.aes, p.keys[i], block[..16]);
      assert p.keys[..i + 1][i] == p.keys[i] && p.keys[..i + 1][..i] == p.keys[..i];
      UnswapXor(block, f);
    }
    assert p.keys[..0] == [];
    assert block[..] == block[..16] + block[16..];
  }
}
