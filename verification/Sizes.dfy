/** How many digits of one radix a number of digits of another needs: the
    rational approximations the codec sizes its buffers with. */
module Sizes {
  import opened Radix
  import opened Words

  lemma PowOfPow(b: nat, m: nat, n: nat, k: nat)
    requires k == m * n || k == n * m
    ensures Pow(Pow(b, m), n) == Pow(b, k)
  {
    PowMul(b, m, n);
  }

  lemma PowSwap(b: nat, m: nat, n: nat)
    ensures Pow(Pow(b, m), n) == Pow(Pow(b, n), m)
  {
    PowOfPow(b, m, n, m * n);
    PowOfPow(b, n, m, m * n);
  }

  lemma PowChain(x: nat, y: nat, b: nat, p: nat, n: nat)
    requires p > 0 && x < Pow(b, n) && Pow(b, p) <= y
    ensures Pow(x, p) < Pow(y, n)
  {
    hide Pow;
    PowBaseStrict(x, Pow(b, n), p);
    PowSwap(b, n, p);
    PowBaseMonotone(Pow(b, p), y, n);
  }

  /** If a^d < b^n and b^p <= a^q then d/n < q/p. */
  lemma DigitRatio(a: nat, b: nat, p: nat, q: nat, d: nat, n: nat, dp: nat, qn: nat)
    requires a > 0 && p > 0 && dp == d * p && qn == q * n
    requires Pow(a, d) < Pow(b, n)
    requires Pow(b, p) <= Pow(a, q)
    ensures dp < qn
  {
    hide Pow;
    PowChain(Pow(a, d), Pow(a, q), b, p, n);
    PowOfPow(a, d, p, dp);
    PowOfPow(a, q, n, qn);
    PowInjective(a, dp, qn);
  }

  /** 2^64 < 58^11. */
  lemma EightBytes()
    ensures Pow(256, 8) == W64 < Pow(58, 11)
  {
    assert Pow(256, 4) == W32;
    PowAdd(256, 4, 4);
    assert Pow(58, 5) == LIMB;
    PowAdd(58, 5, 5);
    PowAdd(58, 10, 1);
    assert Pow(58, 1) == 58;
  }

  lemma LimbPowers()
    ensures Pow(58, 5) == LIMB
    ensures Pow(58, 10) == LIMB * LIMB
    ensures Pow(58, 20) == LIMB * LIMB * LIMB * LIMB
  {
    assert Pow(58, 5) == LIMB;
    PowAdd(58, 5, 5);
    PowAdd(58, 10, 10);
  }

  lemma SmallPowers()
    ensures Pow(58, 1) == 58 && Pow(256, 4) == W32
  {
  }

  /** 58^71 < 2^416. */
  lemma SeventyOneDigits()
    ensures Pow(58, 71) < Pow(256, 52)
  {
    SmallPowers();
    hide Pow;
    LimbPowers();
    PowAdd(58, 20, 20);
    PowAdd(58, 40, 20);
    PowAdd(58, 60, 10);
    PowAdd(58, 70, 1);
    PowAdd(256, 4, 4);
    PowAdd(256, 8, 8);
    PowAdd(256, 16, 16);
    PowAdd(256, 32, 16);
    PowAdd(256, 48, 4);
  }

  /** A value of n bytes with d+1 digits has d < 1.375 n. */
  lemma EncodedDigits(v: nat, d: nat, n: nat)
    requires Pow(58, d) <= v < Pow(256, n)
    ensures 8 * d < 11 * n
  {
    EightBytes();
    DigitRatio(58, 256, 8, 11, d, n, 8 * d, 11 * n);
  }

  /** A value of n digits with m+1 bytes has m < 52n/71. */
  lemma DecodedBytes(v: nat, m: nat, n: nat)
    requires Pow(256, m) <= v < Pow(58, n)
    ensures 71 * m < 52 * n
  {
    SeventyOneDigits();
    DigitRatio(256, 58, 71, 52, m, n, 71 * m, 52 * n);
  }
}
