/** Multiplying the state by 2^512: the row-major and the column-major (Comba)
    convolutions of encode_block.go and encode_block_other.go, and the column
    reduction that follows them. */
module Convolve {
  import opened Radix
  import opened Sequences
  import opened Words
  import opened Tables
  import opened Matrix

  /** pow2_512_base58_5, least significant limb first. */
  const P512: seq<uint32> := [
    114698272, 475011419, 135769242, 494394213, 526051483, 437394159,
    19598664, 243715433, 337219057, 222507322, 211243284, 450400380,
    416249884, 213548060, 82779834, 283734095, 542475966, 17217]

  lemma P512Shape()
    ensures |P512| == 18 && AllBelow(P512, LIMB)
  {
  }

  lemma Pairs(s: seq<nat>, i: nat)
    requires i + 2 <= |s|
    ensures ValLE(s[i..i + 2], LIMB) == s[i] + s[i + 1] * LIMB
  {
    assert s[i..i + 2] == [s[i]] + [s[i + 1]];
    ValLECons(s[i], [s[i + 1]], LIMB);
    ValLECons(s[i + 1], [], LIMB);
    assert [s[i + 1]] + [] == [s[i + 1]];
  }

  lemma JoinLE(s: seq<nat>, i: nat, m: nat, n: nat, p: nat)
    requires i + m + n <= |s| && p == Pow(LIMB, m)
    ensures ValLE(s[i..i + m + n], LIMB) == ValLE(s[i..i + m], LIMB) + p * ValLE(s[i + m..i + m + n], LIMB)
  {
    hide ValLE, Pow;
    assert s[i..i + m + n] == s[i..i + m] + s[i + m..i + m + n];
    ValLEAppend(s[i..i + m], s[i + m..i + m + n], LIMB);
  }

  lemma Fours(s: seq<nat>, i: nat)
    requires i + 4 <= |s|
    ensures ValLE(s[i..i + 4], LIMB) == (s[i] + s[i + 1] * LIMB) + (s[i + 2] + s[i + 3] * LIMB) * L2
  {
    hide ValLE, Pow;
    LimbsPowers();
    Pairs(s, i);
    Pairs(s, i + 2);
    JoinLE(s, i, 2, 2, L2);
  }

  function EightLimbs(s: seq<nat>, i: nat): nat
    requires i + 8 <= |s|
  {
    ((s[i] + s[i + 1] * LIMB) + (s[i + 2] + s[i + 3] * LIMB) * L2)
    + ((s[i + 4] + s[i + 5] * LIMB) + (s[i + 6] + s[i + 7] * LIMB) * L2) * L4
  }

  lemma Eights(s: seq<nat>, i: nat)
    requires i + 8 <= |s|
    ensures ValLE(s[i..i + 8], LIMB) == EightLimbs(s, i)
  {
    hide ValLE, Pow;
    LimbsPowers();
    Fours(s, i);
    Fours(s, i + 4);
    JoinLE(s, i, 4, 4, L4);
  }

  lemma EighteenLimbs(s: seq<nat>)
    requires |s| == 18
    ensures ValLE(s, LIMB) == (EightLimbs(s, 0) + L8 * EightLimbs(s, 8)) + L16 * (s[16] + s[17] * LIMB)
  {
    hide ValLE, Pow, EightLimbs;
    LimbsPowers();
    Eights(s, 0);
    Eights(s, 8);
    Pairs(s, 16);
    JoinLE(s, 0, 8, 8, L8);
    JoinLE(s, 0, 16, 2, L16);
    assert s[0..18] == s;
  }

  lemma P512Values()
    ensures |P512| == 18
    ensures (EightLimbs(P512, 0) + L8 * EightLimbs(P512, 8)) + L16 * (P512[16] + P512[17] * LIMB) == W16
  {
  }

  /** The multiplier is 2^512. */
  lemma P512Value()
    ensures ValLE(P512, LIMB) == W16
  {
    hide ValLE, Pow, EightLimbs;
    P512Shape();
    P512Values();
    EighteenLimbs(P512);
  }

  // ---- the convolution ----

  /** Weight j of the multiplier, zero outside its eighteen limbs. */
  function Weight(j: int): (w: nat)
    ensures w < LIMB
    ensures !(0 <= j < 18) ==> w == 0
  {
    P512Shape();
    if 0 <= j < 18 then P512[j] else 0
  }

  /** Column c of d times the multiplier. */
  function Conv(d: seq<nat>, c: int): nat {
    if d == [] then 0 else Conv(d[..|d| - 1], c) + d[|d| - 1] * Weight(c - (|d| - 1))
  }

  lemma ConvStep(d: seq<nat>, k: nat, c: int)
    requires k < |d|
    ensures Conv(d[..k + 1], c) == Conv(d[..k], c) + d[k] * Weight(c - k)
  {
    assert d[..k + 1][..k] == d[..k];
  }

  function ConvRow(d: seq<nat>, n: nat): (s: seq<nat>)
    ensures |s| == n && forall c :: 0 <= c < n ==> s[c] == Conv(d, c)
  {
    seq(n, c requires 0 <= c < n => Conv(d, c))
  }

  /** A column receives at most eighteen products. */
  function Terms(m: nat, c: int): (t: int)
    ensures 0 <= t <= 18
  {
    var hi := if c + 1 < m then c + 1 else m;
    var lo := if c - 17 > 0 then c - 17 else 0;
    if hi <= lo then 0 else hi - lo
  }

  lemma TermsStep(m: nat, c: int)
    ensures Terms(m + 1, c) == Terms(m, c) + (if 0 <= c - m < 18 then 1 else 0)
  {
  }

  const SQUARE: nat := (LIMB - 1) * (LIMB - 1)

  lemma {:induction false} ConvBound(d: seq<nat>, c: int)
    requires AllBelow(d, LIMB)
    ensures Conv(d, c) <= Terms(|d|, c) * SQUARE
    decreases |d|
  {
    hide Conv, Weight, Terms;
    if d == [] {
      ConvEmpty(c);
    } else {
      var m := |d| - 1;
      ConvBound(d[..m], c);
      ConvStep(d, m, c);
      assert d[..m + 1] == d;
      Product2(d[m], Weight(c - m));
      TermsStep(m, c);
    }
  }

  lemma ConvEmpty(c: int)
    ensures Conv([], c) == 0
  {
  }

  lemma Product2(a: nat, b: nat)
    requires a < LIMB && b < LIMB
    ensures a * b <= SQUARE
    ensures b == 0 ==> a * b == 0
  {
    MulMonotone(a, LIMB - 1, b);
  }

  /** So a column leaves more than half of its 64 bits free. */
  lemma ConvFits(d: seq<nat>, c: int)
    requires AllBelow(d, LIMB)
    ensures Conv(d, c) < W64 / 2
  {
    hide Conv, Terms;
    ConvBound(d, c);
  }

  lemma {:induction false} ConvRowValue(d: seq<nat>, n: nat)
    requires |d| + 18 <= n
    ensures ValLE(ConvRow(d, n), LIMB) == ValLE(d, LIMB) * W16
    decreases |d|
  {
    hide ValLE, Pow, P512;
    if d == [] {
      assert ConvRow(d, n) == Zeros(n);
      ValLEZeros(n, LIMB);
      ValLEZeros(0, LIMB);
      assert d == Zeros(0);
    } else {
      var m := |d| - 1;
      var e := d[..m];
      ConvRowValue(e, n);
      var shifted := ShiftedWeights(m, n);
      forall c | 0 <= c < n
        ensures ConvRow(d, n)[c] == ConvRow(e, n)[c] + d[m] * shifted[c]
      {
        ConvStep(d, m, c);
        assert d[..m + 1] == d;
      }
      ValLELinear(ConvRow(d, n), ConvRow(e, n), d[m], shifted, LIMB);
      ShiftedValue(m, n);
      ValLEStep(d, m, LIMB);
      assert d[..m + 1] == d;
      ScaleUp(ValLE(e, LIMB), d[m], Pow(LIMB, m), W16);
    }
  }

  lemma ScaleUp(v: nat, x: nat, p: nat, w: nat)
    ensures (v + x * p) * w == v * w + x * (p * w)
  {
  }

  function ShiftedWeights(m: nat, n: nat): (s: seq<nat>)
    ensures |s| == n && forall c :: 0 <= c < n ==> s[c] == Weight(c - m)
  {
    seq<nat>(n, c requires 0 <= c < n => Weight(c - m))
  }

  lemma ShiftedValue(m: nat, n: nat)
    requires m + 18 <= n
    ensures ValLE(ShiftedWeights(m, n), LIMB) == Pow(LIMB, m) * W16
  {
    hide ValLE, Pow, P512;
    P512Shape();
    var s := ShiftedWeights(m, n);
    assert s == Zeros(m) + (P512 + Zeros(n - m - 18));
    ValLEAppend(Zeros(m), P512 + Zeros(n - m - 18), LIMB);
    ValLEZeros(m, LIMB);
    ValLETrailingZeros(P512, n - m - 18, LIMB);
    P512Value();
  }

  // ---- row-major: one row per limb of the state ----

  lemma RowStep(d: seq<nat>, i: nat, n: nat, row: seq<nat>)
    requires i < |d| && |d| + 18 <= n && row == ConvRow(d[..i], n)
    ensures |P512| == 18
    ensures ConvRow(d[..i + 1], n)[..i] == row[..i]
    ensures ConvRow(d[..i + 1], n)[i..i + 18] == AddScaled(row[i..i + 18], d[i], P512)
    ensures ConvRow(d[..i + 1], n)[i + 18..] == row[i + 18..]
  {
    hide Conv, P512;
    P512Shape();
    var next := ConvRow(d[..i + 1], n);
    forall c | 0 <= c < n
      ensures next[c] == row[c] + d[i] * Weight(c - i)
    {
      ConvStep(d, i, c);
    }
  }

  lemma RowFits(d: seq<nat>, n: nat)
    requires AllBelow(d, LIMB)
    ensures AllBelow(ConvRow(d, n), W64 / 2)
  {
    hide Conv;
    var row := ConvRow(d, n);
    forall c | 0 <= c < n
      ensures row[c] < W64 / 2
    {
      ConvFits(d, c);
    }
  }

  lemma SliceBelow(s: seq<nat>, i: nat, j: nat, b: nat)
    requires i <= j <= |s| && AllBelow(s, b)
    ensures AllBelow(s[i..j], b)
  {
  }

  /** tmp[i+j] += digit * weight[j]. */
  method AddLimbRow(tmp: array<uint64>, n: nat, d: seq<uint32>, i: nat)
    requires i < |d| && |d| + 18 <= n <= tmp.Length && AllBelow(d, LIMB)
    requires tmp[..n] == ConvRow(d[..i], n)
    modifies tmp
    ensures tmp[..n] == ConvRow(d[..i + 1], n)
  {
    hide ConvRow, AddScaled, P512, Bounds;
    P512Shape();
    FullBounds(P512);
    ghost var row: seq<nat> := tmp[..n];
    ghost var next := ConvRow(d[..i + 1], n);
    RowStep(d, i, n, row);
    RowFits(d[..i + 1], n);
    SliceBelow(next, i, i + 18, W64 / 2);
    ghost var before := tmp[..];
    SubSlice(before, 0, n, i, i + 18);
    SubSlice(before, 0, n, i + 18, n);
    AddRow(tmp, i, d[i], P512, 0, 18);
    KeptAfter(before, tmp[..], i + 18, i + 18, n);
    ThreeParts(tmp[..], next, i, i + 18);
  }

  /** The row-major branch: every limb of the state adds one row. */
  method ConvolveRows(digits: array<uint32>, count: nat, n: nat, tmp: array<uint64>)
    requires count <= digits.Length && n == count + 18 <= tmp.Length
    requires AllBelow(digits[..count], LIMB)
    modifies tmp
    ensures tmp[..n] == ConvRow(digits[..count], n)
  {
    hide ConvRow, P512;
    ghost var d: seq<nat> := digits[..count];
    for c := 0 to n
      invariant forall k :: 0 <= k < c ==> tmp[k] == 0
    {
      tmp[c] := 0;
    }
    assert tmp[..n] == Zeros(n);
    ConvRowZero(n);
    assert d[..0] == [];
    var i := 0;
    while i < count
      invariant i <= count
      invariant tmp[..n] == ConvRow(d[..i], n)
    {
      AddLimbRow(tmp, n, digits[..count], i);
      i := i + 1;
    }
    assert d[..count] == d;
  }

  lemma FullBounds(row: seq<nat>)
    ensures Bounds(row, 0, |row|)
  {
  }

  lemma ConvRowZero(n: nat)
    ensures ConvRow([], n) == Zeros(n)
  {
  }

  // ---- column-major: the three ranges of the Comba branch ----

  /** Below its first weight a column is empty; above its last it is complete. */
  lemma {:induction false} ConvBelow(d: seq<nat>, k: nat, c: int)
    requires k <= |d| && k <= c - 17
    ensures Conv(d[..k], c) == 0
    decreases k
  {
    hide Conv, Weight;
    if k == 0 {
      ConvEmpty(c);
      assert d[..0] == [];
    } else {
      ConvBelow(d, k - 1, c);
      ConvStep(d, k - 1, c);
      NoWeight(d[k - 1], c - (k - 1));
    }
  }

  lemma NoWeight(x: nat, j: int)
    requires !(0 <= j < 18)
    ensures x * Weight(j) == 0
  {
  }

  lemma {:induction false} ConvAbove(d: seq<nat>, k: nat, c: int)
    requires c < k <= |d|
    ensures Conv(d[..k], c) == Conv(d, c)
    decreases |d| - k
  {
    hide Conv, Weight;
    if k == |d| {
      assert d[..k] == d;
    } else {
      ConvAbove(d, k + 1, c);
      ConvStep(d, k, c);
      NoWeight(d[k], c - k);
    }
  }

  lemma PrefixFits(d: seq<nat>, k: nat, c: int)
    requires k <= |d| && AllBelow(d, LIMB)
    ensures Conv(d[..k], c) < W64 / 2
  {
    hide Conv;
    ConvFits(d[..k], c);
  }

  lemma WeightIs(j: nat)
    requires j < 18
    ensures |P512| == 18 && Weight(j) == P512[j]
  {
  }

  /** One column: the products digits[k] * weight[c-k] for k in [from, to). */
  method Column(digits: array<uint32>, count: nat, c: nat, from: nat, to: nat) returns (sum: uint64)
    requires from <= to <= count <= digits.Length && AllBelow(digits[..count], LIMB)
    requires from <= c - 17 || from == 0
    requires c - 17 <= from && to <= c + 1
    requires to == count || to == c + 1
    ensures sum == Conv(digits[..count], c)
  {
    hide Conv, Weight, P512;
    ghost var d: seq<nat> := digits[..count];
    P512Shape();
    if from == 0 {
      ConvEmpty(c);
      assert d[..0] == [];
    } else {
      ConvBelow(d, from, c);
    }
    sum := 0;
    var k := from;
    while k < to
      invariant from <= k <= to
      invariant sum == Conv(d[..k], c)
    {
      ConvStep(d, k, c);
      PrefixFits(d, k + 1, c);
      WeightIs(c - k);
      sum := sum + (digits[k] as nat) * (P512[c - k] as nat);
      k := k + 1;
    }
    if to == c + 1 {
      ConvAbove(d, to, c);
    } else {
      assert d[..to] == d;
    }
  }

  /** encodeMulP512: the eighteen products of a middle column, spelled out. */
  function MulP512(d: seq<nat>): nat
    requires |d| >= 18
  {
    P512Shape();
    var w: seq<nat> := P512;
    d[0] * w[17] + d[1] * w[16] + d[2] * w[15] + d[3] * w[14] + d[4] * w[13] + d[5] * w[12]
    + d[6] * w[11] + d[7] * w[10] + d[8] * w[9] + d[9] * w[8] + d[10] * w[7] + d[11] * w[6]
    + d[12] * w[5] + d[13] * w[4] + d[14] * w[3] + d[15] * w[2] + d[16] * w[1] + d[17] * w[0]
  }

  /** Three of the eighteen products. */
  function ThreeTerms(e: seq<nat>, m: nat): nat
    requires |e| >= 18 && m < 6
  {
    P512Shape();
    var w: seq<nat> := P512;
    e[3 * m] * w[17 - 3 * m] + e[3 * m + 1] * w[16 - 3 * m] + e[3 * m + 2] * w[15 - 3 * m]
  }

  lemma SixParts(e: seq<nat>)
    requires |e| >= 18
    ensures MulP512(e) == ThreeTerms(e, 0) + ThreeTerms(e, 1) + ThreeTerms(e, 2)
                          + ThreeTerms(e, 3) + ThreeTerms(e, 4) + ThreeTerms(e, 5)
  {
    hide P512;
  }

  lemma ThreeSteps(d: seq<nat>, c: nat, m: nat, k: nat)
    requires 17 <= c < |d| && m < 6 && k == c - 17 + 3 * m
    ensures Conv(d[..k + 3], c) == Conv(d[..k], c) + ThreeTerms(d[c - 17..c + 1], m)
  {
    hide Conv, Weight, P512;
    P512Shape();
    ConvStep(d, k, c);
    ConvStep(d, k + 1, c);
    ConvStep(d, k + 2, c);
    WeightIs(c - k);
    WeightIs(c - k - 1);
    WeightIs(c - k - 2);
    SliceAt(d, c - 17, c + 1, k);
    SliceAt(d, c - 17, c + 1, k + 1);
    SliceAt(d, c - 17, c + 1, k + 2);
  }

  lemma MulP512IsColumn(d: seq<uint32>, c: nat)
    requires 17 <= c < |d| && AllBelow(d, LIMB)
    ensures MulP512(d[c - 17..c + 1]) == Conv(d, c) < W64 / 2
  {
    hide Conv, P512, ThreeTerms, MulP512;
    SixParts(d[c - 17..c + 1]);
    ThreeSteps(d, c, 0, c - 17);
    ThreeSteps(d, c, 1, c - 14);
    ThreeSteps(d, c, 2, c - 11);
    ThreeSteps(d, c, 3, c - 8);
    ThreeSteps(d, c, 4, c - 5);
    ThreeSteps(d, c, 5, c - 2);
    ConvBelow(d, c - 17, c);
    ConvAbove(d, c + 1, c);
    PrefixFits(d, |d|, c);
    assert d[..|d|] == d;
  }

  /** The column-major branch fills tmp exactly as the row-major one does. */
  method ConvolveColumns(digits: array<uint32>, count: nat, n: nat, tmp: array<uint64>)
    requires 17 <= count <= digits.Length && n == count + 18 <= tmp.Length
    requires AllBelow(digits[..count], LIMB)
    modifies tmp
    ensures tmp[..n] == ConvRow(digits[..count], n)
  {
    hide Conv, P512, MulP512;
    ghost var d: seq<nat> := digits[..count];
    var column := 0;
    while column < 17
      invariant column <= 17
      invariant forall c :: 0 <= c < column ==> tmp[c] == Conv(d, c)
    {
      var sum := Column(digits, count, column, 0, column + 1);
      tmp[column] := sum;
      column := column + 1;
    }
    while column < count
      invariant 17 <= column <= count
      invariant forall c :: 0 <= c < column ==> tmp[c] == Conv(d, c)
    {
      MulP512IsColumn(digits[..count], column);
      assert digits[..count][column - 17..column + 1] == digits[column - 17..column + 1];
      tmp[column] := MulP512(digits[column - 17..column + 1]);
      column := column + 1;
    }
    while column < n
      invariant count <= column <= n
      invariant forall c :: 0 <= c < column ==> tmp[c] == Conv(d, c)
    {
      var sum := Column(digits, count, column, column - 17, count);
      tmp[column] := sum;
      column := column + 1;
    }
  }
}
