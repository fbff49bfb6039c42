/** Powers of two. */
module Powers {
  import opened Arith

  /** 2^k. The measure is not k itself, so that powers of literals are not unrolled. */
  function P2(k: nat): (r: int)
    ensures r > 0
    decreases if k < 0 then 0 else k
  {
    if k == 0 then 1 else 2 * P2(k - 1)
  }

  lemma P2Next(i: nat)
    ensures P2(0) == 1 && P2(i + 1) == 2 * P2(i)
  {
  }

  lemma {:induction false} P2Add(a: nat, b: nat)
    ensures P2(a + b) == P2(a) * P2(b)
  {
    if a == 0 {
      P2Next(0);
    } else {
      P2Add(a - 1, b);
      hide P2;
      P2Next(a - 1);
      P2Next(a - 1 + b);
      DoubleProduct(P2(a - 1), P2(b));
    }
  }

  lemma DoubleProduct(x: int, y: int)
    ensures 2 * (x * y) == (2 * x) * y
  {
  }

  lemma {:induction false} P2Mono(a: nat, b: nat)
    requires a <= b
    ensures P2(a) <= P2(b)
    decreases b
  {
    if a < b { P2Mono(a, b - 1); }
  }

  lemma SmallPowers()
    ensures P2(0) == 1 && P2(1) == 2 && P2(2) == 4 && P2(3) == 8 && P2(4) == 16
    ensures P2(5) == 32 && P2(6) == 64 && P2(7) == 128 && P2(8) == 256
  {
    assert P2(3) == 8;
    assert P2(6) == 8 * P2(3) by { P2Add(3, 3); }
  }

  /** The power of two among all powers. */
  lemma {:induction false} P2IsPow(k: nat)
    ensures P2(k) == Pow(2, k)
  {
    if k > 0 { P2IsPow(k - 1); }
  }
}
