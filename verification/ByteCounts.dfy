/** decMinBytes and decMaxBytes (tables.go): how many bytes a number of k base-58
    digits can have. */
module ByteCounts {
  import opened Radix
  import opened Base58
  import opened Sizes

  /** The tables, in rows of 22 entries. */
  const MIN0: seq<nat> :=
    [0, 1, 1, 2, 3, 3, 4, 5, 6, 6, 7, 8, 9, 9, 10, 11, 11, 12, 13, 14, 14, 15]
  const MIN1: seq<nat> :=
    [16, 17, 17, 18, 19, 20, 20, 21, 22, 22, 23, 24, 25, 25, 26, 27, 28, 28, 29, 30, 31, 31]
  const MIN2: seq<nat> :=
    [32, 33, 33, 34, 35, 36, 36, 37, 38, 39, 39, 40, 41, 42, 42, 43, 44, 44, 45, 46, 47, 47]
  const MIN3: seq<nat> :=
    [48, 49, 50, 50, 51, 52, 52, 53, 54, 55, 55, 56, 57, 58, 58, 59, 60, 61, 61, 62, 63, 63]
  const MIN4: seq<nat> := [64]
  const DEC_MIN: seq<nat> := MIN0 + MIN1 + MIN2 + MIN3 + MIN4

  const MAX0: seq<nat> :=
    [0, 1, 2, 3, 3, 4, 5, 6, 6, 7, 8, 9, 9, 10, 11, 11, 12, 13, 14, 14, 15, 16]
  const MAX1: seq<nat> :=
    [17, 17, 18, 19, 20, 20, 21, 22, 22, 23, 24, 25, 25, 26, 27, 28, 28, 29, 30, 31, 31, 32]
  const MAX2: seq<nat> :=
    [33, 33, 34, 35, 36, 36, 37, 38, 39, 39, 40, 41, 42, 42, 43, 44, 44, 45, 46, 47, 47, 48]
  const MAX3: seq<nat> :=
    [49, 50, 50, 51, 52, 52, 53, 54, 55, 55, 56, 57, 58, 58, 59, 60, 61, 61, 62, 63, 63, 64]
  const MAX4: seq<nat> := [65]
  const DEC_MAX: seq<nat> := MAX0 + MAX1 + MAX2 + MAX3 + MAX4

  /** Two roundings of k * log 58 / log 256. */
  function LeastBytes(k: nat): nat
    requires k >= 1
  {
    41 * (k - 1) / 56 + 1
  }

  function MostBytes(k: nat): nat {
    (52 * k + 70) / 71
  }

  lemma MinRow0(k: nat)
    requires 1 <= k < 22
    ensures |MIN0| == 22 && MIN0[k] == LeastBytes(k)
  {
  }

  lemma MinRow1(k: nat)
    requires 22 <= k < 44
    ensures |MIN1| == 22 && MIN1[k - 22] == LeastBytes(k)
  {
  }

  lemma MinRow2(k: nat)
    requires 44 <= k < 66
    ensures |MIN2| == 22 && MIN2[k - 44] == LeastBytes(k)
  {
  }

  lemma MinRow3(k: nat)
    requires 66 <= k < 88
    ensures |MIN3| == 22 && MIN3[k - 66] == LeastBytes(k)
  {
  }

  lemma MinShapes()
    ensures |MIN0| == 22 && |MIN1| == 22 && |MIN2| == 22 && |MIN3| == 22
    ensures |MIN4| == 1 && MIN4[0] == LeastBytes(88)
  {
  }

  lemma MinEntry(k: nat)
    requires 1 <= k <= 88
    ensures |DEC_MIN| == 89 && DEC_MIN[k] == LeastBytes(k)
  {
    hide MIN0, MIN1, MIN2, MIN3, MIN4, LeastBytes;
    MinShapes();
    if k < 22 {
      MinRow0(k);
    } else if k < 44 {
      MinRow1(k);
    } else if k < 66 {
      MinRow2(k);
    } else if k < 88 {
      MinRow3(k);
    }
  }

  lemma MaxRow0(k: nat)
    requires 1 <= k < 22
    ensures |MAX0| == 22 && MAX0[k] == MostBytes(k)
  {
  }

  lemma MaxRow1(k: nat)
    requires 22 <= k < 44
    ensures |MAX1| == 22 && MAX1[k - 22] == MostBytes(k)
  {
  }

  lemma MaxRow2(k: nat)
    requires 44 <= k < 66
    ensures |MAX2| == 22 && MAX2[k - 44] == MostBytes(k)
  {
  }

  lemma MaxRow3(k: nat)
    requires 66 <= k < 88
    ensures |MAX3| == 22 && MAX3[k - 66] == MostBytes(k)
  {
  }

  lemma MaxShapes()
    ensures |MAX0| == 22 && |MAX1| == 22 && |MAX2| == 22 && |MAX3| == 22
    ensures |MAX4| == 1 && MAX4[0] == MostBytes(88)
  {
  }

  lemma MaxEntry(k: nat)
    requires 1 <= k <= 88
    ensures |DEC_MAX| == 89 && DEC_MAX[k] == MostBytes(k)
  {
    hide MAX0, MAX1, MAX2, MAX3, MAX4, MostBytes;
    MaxShapes();
    if k < 22 {
      MaxRow0(k);
    } else if k < 44 {
      MaxRow1(k);
    } else if k < 66 {
      MaxRow2(k);
    } else if k < 88 {
      MaxRow3(k);
    }
  }

  /** 256^41 < 58^56. */
  lemma FiftySixDigits()
    ensures Pow(256, 41) < Pow(58, 56)
  {
    Powers256();
    SmallPowers();
    hide Pow;
    LimbPowers();
    PowAdd(58, 20, 20);
    PowAdd(58, 40, 10);
    PowAdd(58, 50, 5);
    PowAdd(58, 55, 1);
    PowAdd(256, 4, 4);
    PowAdd(256, 8, 8);
    PowAdd(256, 16, 16);
    PowAdd(256, 32, 8);
    PowAdd(256, 40, 1);
  }

  /** If a^q < b^p and m/n <= q/p then a^m < b^n. */
  lemma RatioLess(a: nat, b: nat, q: nat, p: nat, m: nat, n: nat, mp: nat, qn: nat)
    requires a > 0 && b > 0 && p > 0 && n > 0 && mp == m * p && qn == q * n && mp <= qn
    requires Pow(a, q) < Pow(b, p)
    ensures Pow(a, m) < Pow(b, n)
  {
    hide Pow;
    PowOfPow(a, m, p, mp);
    PowMonotone(a, mp, qn);
    PowOfPow(a, q, n, qn);
    PowBaseStrict(Pow(a, q), Pow(b, p), n);
    PowSwap(b, p, n);
    if Pow(a, m) >= Pow(b, n) {
      PowBaseMonotone(Pow(b, n), Pow(a, m), p);
    }
  }

  lemma FewBytes(m: nat, n: nat)
    requires 56 * m <= 41 * n && n > 0
    ensures Pow(256, m) < Pow(58, n)
  {
    FiftySixDigits();
    RatioLess(256, 58, 41, 56, m, n, 56 * m, 41 * n);
  }

  lemma FewDigits(n: nat, m: nat)
    requires 52 * n <= 71 * m && m > 0
    ensures Pow(58, n) < Pow(256, m)
  {
    SeventyOneDigits();
    hide Pow;
    if n == 0 {
      RatioLess(58, 256, 71, 52, 0, m, 0, 71 * m);
    } else {
      RatioLess(58, 256, 71, 52, n, m, 52 * n, 71 * m);
    }
  }

  /** Where the two roundings lie between the ratios 41/56 and 52/71. */
  lemma Roundings(k: nat)
    requires 1 <= k <= 88
    ensures var mn := LeastBytes(k); mn >= 1 && 56 * (mn - 1) <= 41 * (k - 1) && 52 * (k - 1) <= 71 * mn
    ensures var mx := MostBytes(k); mx >= 1 && 56 * (mx - 1) <= 41 * k && 52 * k <= 71 * mx
  {
  }

  lemma LeastIsExact(k: nat)
    requires 1 <= k <= 88
    ensures LeastBytes(k) >= 1 && Pow(256, LeastBytes(k) - 1) <= Pow(58, k - 1) < Pow(256, LeastBytes(k))
  {
    Roundings(k);
    hide Pow;
    if k == 1 {
      PowZero();
    } else {
      hide LeastBytes;
      FewBytes(LeastBytes(k) - 1, k - 1);
    }
    FewDigits(k - 1, LeastBytes(k));
  }

  lemma MostIsExact(k: nat)
    requires 1 <= k <= 88
    ensures MostBytes(k) >= 1 && Pow(256, MostBytes(k) - 1) <= Pow(58, k) - 1 < Pow(256, MostBytes(k))
  {
    Roundings(k);
    hide Pow, MostBytes;
    FewBytes(MostBytes(k) - 1, k);
    FewDigits(k, MostBytes(k));
  }

  /** The tables are exact: the least number of k digits has DEC_MIN[k] bytes, the
      greatest DEC_MAX[k]. */
  lemma TablesAreExact(k: nat)
    requires 1 <= k <= 88
    ensures |DEC_MIN| == 89 && DEC_MIN[k] >= 1
    ensures Pow(256, DEC_MIN[k] - 1) <= Pow(58, k - 1) < Pow(256, DEC_MIN[k])
    ensures |DEC_MAX| == 89 && DEC_MAX[k] >= 1
    ensures Pow(256, DEC_MAX[k] - 1) <= Pow(58, k) - 1 < Pow(256, DEC_MAX[k])
  {
    hide Pow, LeastBytes, MostBytes, DEC_MIN, DEC_MAX;
    MinEntry(k);
    MaxEntry(k);
    LeastIsExact(k);
    MostIsExact(k);
  }

  lemma PowZero()
    ensures Pow(256, 0) == 1 && Pow(58, 0) == 1
  {
  }

  /** The byte count of a number of k digits lies between the table entries. */
  lemma ByteCount(v: nat, k: nat, m: nat)
    requires 1 <= k <= 88 && m >= 1
    requires Pow(58, k - 1) <= v < Pow(58, k)
    requires Pow(256, m - 1) <= v < Pow(256, m)
    ensures |DEC_MIN| == 89 && |DEC_MAX| == 89
    ensures DEC_MIN[k] <= m <= DEC_MAX[k]
  {
    hide Pow, DEC_MIN, DEC_MAX;
    TablesAreExact(k);
    PowInjective(256, DEC_MIN[k] - 1, m);
    PowInjective(256, m - 1, DEC_MAX[k]);
  }
}
