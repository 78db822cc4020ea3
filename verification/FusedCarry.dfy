/** The scalar carry sections of the assembly kernels (encode_full_amd64.s,
    matmul_avx2_amd64.s): division by multiply and shift, and the 64-byte carry
    split into two independent chains that are joined by a ripple. */
module FusedCarry {
  import opened Radix
  import opened Sequences
  import opened Words
  import opened Base58
  import opened Tables
  import opened Matrix
  import opened Carry

  // ---- division by 58^5 as a multiplication ----

  const MAGIC28: uint64 := 0x68B2_C7AD_1A01_6AB5
  const MAGIC29: uint64 := 0xD165_8F5A_3402_D56A

  /** The quotient from the scaled product: 2^92 = MAGIC28 * 58^5 - 182790688, and
      the error cannot reach the next quotient for any 64-bit v. */
  lemma MagicQuotient(v: nat, q: nat, r: nat, hi: nat, lo: nat)
    requires v < W64 && v == q * LIMB + r && r < LIMB
    requires lo < W64 && hi * W64 + lo == v * MAGIC28
    ensures hi / 0x1000_0000 == q
  {
    assert v * MAGIC28 == q * (LIMB * MAGIC28) + r * MAGIC28;
    assert LIMB * MAGIC28 == 0x1000_0000 * W64 + 182790688;
  }

  lemma DoubledQuotient(v: nat, q: nat, r: nat, hi: nat, lo: nat)
    requires v < W64 && v == q * LIMB + r && r < LIMB
    requires lo < W64 && hi * W64 + lo == v * MAGIC29
    ensures hi / 0x2000_0000 == q
  {
    assert v * MAGIC29 == q * (LIMB * MAGIC29) + r * MAGIC29;
    assert LIMB * MAGIC29 == 0x2000_0000 * W64 + 365581376;
  }

  /** high64(v * MAGIC28) >> 28 and high64(v * MAGIC29) >> 29 are v / 58^5. */
  lemma MagicDivision(v: uint64)
    ensures Mul64(v, MAGIC28).0 / 0x1000_0000 == v / LIMB
    ensures Mul64(v, MAGIC29).0 / 0x2000_0000 == v / LIMB
  {
    var x, y := Mul64(v, MAGIC28), Mul64(v, MAGIC29);
    MagicQuotient(v, v / LIMB, v % LIMB, x.0, x.1);
    DoubledQuotient(v, v / LIMB, v % LIMB, y.0, y.1);
  }

  /** The REDUCE macro: dx = bx / 58^5, bx = bx mod 58^5. */
  method Reduce(bx: uint64) returns (dx: uint64, r: uint64)
    ensures bx == dx * LIMB + r && r < LIMB
  {
    MagicDivision(bx);
    dx := Mul64(bx, MAGIC29).0 / 0x2000_0000;
    r := bx - dx * 656356768;
  }

  // ---- the sequential loop with the magic division ----

  /** The six instructions around MULQ R11: dx = r8 / 58^5, r8 mod 58^5. */
  method Reduce28(r8: uint64) returns (dx: uint64, r: uint64)
    ensures r8 == dx * LIMB + r && r < LIMB
  {
    MagicDivision(r8);
    dx := Mul64(r8, MAGIC28).0 / 0x1000_0000;
    r := r8 - dx * 656356768;
  }

  /** encode64_carry of matmul_avx2_amd64.s over any number of cells: the limbs of the
      Go loop. */
  method SequentialCarry(inter: array<uint64>, ghost V: nat)
    requires inter.Length >= 1 && Columns(inter[..], V)
    modifies inter
    ensures inter[..] == FixedBE(V, inter.Length, LIMB)
  {
    hide ValBE, Chain, FixedBE, Columns, Limbs;
    ghost var was: seq<nat> := inter[..];
    ChainStart(was, V);
    var si := inter.Length - 1;
    var r8: uint64 := inter[si];
    while si != 0
      invariant 0 <= si < inter.Length && Chain(inter[..], si, r8, was, V)
      decreases si
    {
      ghost var s: seq<nat> := inter[..];
      var dx, r := Reduce28(r8);
      ChainStep(s, si, r8, was, V, dx, r);
      inter[si] := r;
      assert inter[..] == s[si := r];
      si := si - 1;
      assert inter[si] == s[si];
      r8 := dx + inter[si];
    }
    ghost var s: seq<nat> := inter[..];
    ChainEnd(s, r8, was, V);
    inter[0] := r8;
    assert inter[..] == s[0 := r8];
    LimbsAre(inter[..], V);
  }

  lemma LimbsAre(s: seq<nat>, V: nat)
    requires Limbs(s, V)
    ensures V < Pow(LIMB, |s|) && s == FixedBE(V, |s|, LIMB)
  {
    FixedUnique(s, LIMB);
  }

  // ---- the columns of the fused kernel ----

  /** All sixteen rows without the mini-reduction. Column 16 may exceed 64 bits. */
  function FullColumns(src: seq<byte>): (s: seq<nat>)
    requires |src| == 64
    ensures |s| == 18
  {
    Shapes();
    [0] + DotRow(WordsOf(src), ENC64, 17, 0, 16)
  }

  /** Rows 0-7 and rows 8-15 of column 16. */
  function Half(src: seq<byte>, lo: nat): nat
    requires |src| == 64 && (lo == 0 || lo == 8)
  {
    Shapes();
    Dot(WordsOf(src), ENC64, 17, lo, lo + 8, 15)
  }

  lemma FullColumnsValue(src: seq<byte>)
    requires |src| == 64
    ensures ValBE(FullColumns(src), LIMB) == Val256(src)
  {
    hide ValBE, Pow, Dot, WordsOf;
    Shapes();
    var ws := WordsOf(src);
    forall j | 0 <= j < 16
      ensures ValBE(ENC64[j], LIMB) == Pow(W32, 15 - j)
    {
      EncRow64(j);
    }
    ProductValue(ws, ENC64, 17, LIMB, W32);
    ConsZero(DotRow(ws, ENC64, 17, 0, 16), LIMB);
    WordsValue(src);
  }

  /** Every column but 16 fits with room for a carry, and so does each half of 16. */
  lemma FullColumnsFit(src: seq<byte>, j: nat)
    requires |src| == 64 && j < 18
    ensures j != 16 ==> FullColumns(src)[j] + CARRY < W64
    ensures j == 16 ==> FullColumns(src)[j] == Half(src, 0) + Half(src, 8)
    ensures j == 16 ==> Half(src, 0) + CARRY < W64 && Half(src, 8) + CARRY < W64
  {
    hide Eight, Dot, WordsOf;
    if j > 0 {
      var ws, k := WordsOf(src), j - 1;
      EncColumns(k);
      DotSplit(ws, ENC64, 17, 0, 8, 16, k);
      ColumnHalves(ws, k);
      assert FullColumns(src)[j] == Dot(ws, ENC64, 17, 0, 16, k);
    }
  }

  lemma ColumnHalves(ws: seq<uint32>, k: nat)
    requires |ws| == 16 && k < 17
    ensures |ENC64| == 16 && Rectangular(ENC64, 17)
    ensures Dot(ws, ENC64, 17, 0, 8, k) + CARRY < W64 && Dot(ws, ENC64, 17, 8, 16, k) + CARRY < W64
    ensures k != 15 ==> Dot(ws, ENC64, 17, 0, 8, k) + Dot(ws, ENC64, 17, 8, 16, k) + CARRY < W64
  {
    hide Eight, Dot;
    EncColumns(k);
    WordDot(ws, ENC64, 17, 0, k, Eight(ENC64, 0, k));
    WordDot(ws, ENC64, 17, 8, k, Eight(ENC64, 8, k));
  }

  // ---- the split chains ----

  /** What the vector code leaves in memory: seventeen whole columns, column 16 as
      two halves (its wrapped sum is not used). */
  ghost predicate Split(im: seq<uint64>, h0: uint64, h1: uint64, S: seq<nat>) {
    && |im| == |S| == 18
    && (forall j :: 0 <= j < 18 && j != 16 ==> im[j] == S[j] && S[j] + CARRY < W64)
    && S[0] == 0 && S[16] == h0 + h1 && h0 + CARRY < W64 && h1 + CARRY < W64
  }

  /** Limbs 17..9; dx is the carry into limb 8. */
  method HighChain(im: seq<uint64>, h0: uint64, h1: uint64, limbs: array<uint64>, ghost S: seq<nat>, ghost V: nat)
    returns (dx: uint64)
    requires Split(im, h0, h1, S) && limbs.Length == 18 && ValBE(S, LIMB) == V
    modifies limbs
    ensures dx < CARRY && AllBelow(limbs[9..], LIMB)
    ensures Carried(LIMB, S, 8, S[8] + dx, 9, ValBE(limbs[9..], LIMB)) == V
  {
    hide ValBE, Pow, Carried;
    CarriedStart(LIMB, S);
    ValBEEmpty(LIMB);
    assert limbs[18..] == [];
    var bx;
    dx, bx := Reduce(im[17]);
    PutHigh(limbs, 17, bx, S, S[17], dx, V);
    var cx, b0, q;
    cx, b0 := Reduce(h0 + dx);
    q, bx := Reduce(b0 + h1);
    cx := cx + q;
    PutHigh(limbs, 16, bx, S, S[16] + dx, cx, V);
    dx := cx;
    var i := 15;
    while i >= 9
      invariant 8 <= i <= 15 && dx < CARRY && AllBelow(limbs[i + 1..], LIMB)
      invariant Carried(LIMB, S, i, S[i] + dx, 17 - i, ValBE(limbs[i + 1..], LIMB)) == V
    {
      ghost var v := S[i] + dx;
      dx, bx := Reduce(im[i] + dx);
      PutHigh(limbs, i, bx, S, v, dx, V);
      i := i - 1;
    }
  }

  /** Storing the remainder of cell i keeps the carried value. */
  method PutHigh(limbs: array<uint64>, i: nat, r: uint64, ghost S: seq<nat>, ghost v: nat, ghost q: nat, ghost V: nat)
    requires 1 <= i < limbs.Length == |S| && v == q * LIMB + r && r < LIMB
    requires AllBelow(limbs[i + 1..], LIMB)
    requires Carried(LIMB, S, i, v, limbs.Length - 1 - i, ValBE(limbs[i + 1..], LIMB)) == V
    modifies limbs
    ensures AllBelow(limbs[i..], LIMB) && limbs[..i] == old(limbs[..i])
    ensures Carried(LIMB, S, i - 1, S[i - 1] + q, limbs.Length - i, ValBE(limbs[i..], LIMB)) == V
  {
    hide ValBE, Pow, Carried;
    ghost var done: seq<nat> := limbs[i + 1..];
    CarriedStep(LIMB, S, i, v, q, r, limbs.Length - 1 - i, ValBE(done, LIMB));
    ConsLimb(r, done);
    limbs[i] := r;
    assert limbs[i..] == [r as nat] + done;
  }

  /** Limbs 8..0 as if nothing came from above, independent of the other chain. */
  method LowChain(im: seq<uint64>, low: array<uint64>, ghost S: seq<nat>, ghost W: nat)
    requires |im| == 18 && |S| == 9 && low.Length == 9 && S[0] == 0
    requires forall j :: 0 <= j < 9 ==> im[j] == S[j] && S[j] + CARRY < W64
    requires ValBE(S, LIMB) == W < Pow(LIMB, 9)
    modifies low
    ensures AllBelow(low[..], LIMB) && ValBE(low[..], LIMB) == W
  {
    hide ValBE, Pow, Carried;
    CarriedStart(LIMB, S);
    ValBEEmpty(LIMB);
    assert low[9..] == [];
    var dx: uint64, bx: uint64 := Reduce(im[8]);
    PutHigh(low, 8, bx, S, S[8], dx, W);
    var i := 7;
    while i >= 1
      invariant 0 <= i <= 7 && dx < CARRY && AllBelow(low[i + 1..], LIMB)
      invariant Carried(LIMB, S, i, S[i] + dx, 8 - i, ValBE(low[i + 1..], LIMB)) == W
    {
      ghost var v := S[i] + dx;
      dx, bx := Reduce(im[i] + dx);
      PutHigh(low, i, bx, S, v, dx, W);
      i := i - 1;
    }
    ghost var rest: seq<nat> := low[1..];
    TopLimb(S, dx, 8, ValBE(rest, LIMB), W);
    ConsLimb(dx, rest);
    low[0] := dx;
    assert low[..] == [dx as nat] + rest;
  }

  lemma StartWithCarry(u: seq<nat>, c: nat)
    requires u != []
    ensures Carried(LIMB, u, |u| - 1, u[|u| - 1] + c, 0, 0) == ValBE(u, LIMB) + c
  {
    hide ValBE;
    ValBEStep(u, |u| - 1, LIMB);
    assert u[..|u|] == u;
    assert Pow(LIMB, 0) == 1;
  }

  /** No carry: the cells not yet visited are already right. */
  lemma NoCarry(u: seq<nat>, i: nat, rest: seq<nat>)
    requires i < |u| && |rest| == |u| - 1 - i
    ensures Carried(LIMB, u, i, u[i], |rest|, ValBE(rest, LIMB)) == ValBE(u[..i + 1] + rest, LIMB)
  {
    hide ValBE, Pow;
    ValBEStep(u, i, LIMB);
    ValBEAppend(u[..i + 1], rest, LIMB);
  }

  /** The high chain's carry is added to limb 8, its overflow to limb 7, and whatever
      is left, at most one, ripples on. */
  method Patch(low: array<uint64>, r11: uint64, ghost total: nat)
    requires low.Length == 9 && AllBelow(low[..], LIMB) && r11 < CARRY
    requires ValBE(low[..], LIMB) + r11 == total < Pow(LIMB, 9)
    modifies low
    ensures AllBelow(low[..], LIMB) && ValBE(low[..], LIMB) == total
  {
    hide ValBE, Pow, Carried;
    ghost var u: seq<nat> := low[..];
    StartWithCarry(u, r11);
    ValBEEmpty(LIMB);
    assert low[9..] == [];
    var dx, bx := Reduce(low[8] + r11);
    PutHigh(low, 8, bx, u, u[8] + r11, dx, total);
    assert low[7] == low[..8][7] == u[7];
    dx, bx := Reduce(low[7] + dx);
    ghost var dx8: nat := (u[8] + r11) / LIMB;
    PutHigh(low, 7, bx, u, low[7] + dx8, dx, total);
    assert low[..7] == u[..7];
    if dx != 0 {
      var out := Ripple(low, dx, u, total);
    } else {
      NoCarry(u, 6, low[7..]);
      assert low[..] == u[..7] + low[7..];
    }
  }

  /** One limb of the ripple: bx = limb + dx; compare with 58^5, subtract, set dx. */
  method RippleLimb(limb: uint64, dx: uint64) returns (bx: uint64, carry: uint64)
    requires limb < LIMB && dx <= 1
    ensures limb + dx == carry * LIMB + bx && bx < LIMB && carry <= 1
  {
    bx := limb + dx;
    carry := 0;
    if bx >= LIMB {
      bx := bx - LIMB;
      carry := 1;
    }
  }

  /** ripple64: add the carry limb by limb from limb 6 down to limb 0, subtracting 58^5
      when a limb reaches it. At limb 0 the comparison never fires: no carry leaves. */
  method Ripple(low: array<uint64>, carry: uint64, ghost u: seq<nat>, ghost total: nat) returns (dx: uint64)
    requires low.Length == 9 && |u| == 9 && AllBelow(u, LIMB) && low[..7] == u[..7] && carry <= 1
    requires AllBelow(low[7..], LIMB) && total < Pow(LIMB, 9)
    requires Carried(LIMB, u, 6, u[6] + carry, 2, ValBE(low[7..], LIMB)) == total
    modifies low
    ensures dx == 0 && AllBelow(low[..], LIMB) && ValBE(low[..], LIMB) == total
  {
    hide ValBE, Pow, Carried;
    dx := carry;
    var cx, bx := 6, 0;
    while cx > 0
      invariant 0 <= cx <= 6 && dx <= 1 && low[..cx + 1] == u[..cx + 1] && AllBelow(low[cx + 1..], LIMB)
      invariant Carried(LIMB, u, cx, u[cx] + dx, 8 - cx, ValBE(low[cx + 1..], LIMB)) == total
    {
      KeptBefore(u, low[..], cx + 1, cx, cx + 1);
      KeptBefore(u, low[..], cx + 1, cx, cx);
      ghost var v := u[cx] + dx;
      bx, dx := RippleLimb(low[cx], dx);
      PutHigh(low, cx, bx, u, v, dx, total);
      cx := cx - 1;
    }
    KeptBefore(u, low[..], 1, 0, 1);
    ghost var v, rest: seq<nat> := u[0] + dx, low[1..];
    bx, dx := RippleLimb(low[0], dx);
    TopLimb(u, v, 8, ValBE(rest, LIMB), total);
    ConsLimb(bx, rest);
    low[0] := bx;
    assert low[..] == [bx as nat] + rest;
  }

  /** The two chains meet: the low part takes the high chain's carry. */
  lemma ChainsMeet(S: seq<nat>, c: nat, D: nat, V: nat)
    requires |S| == 18 && Carried(LIMB, S, 8, S[8] + c, 9, D) == V < Pow(LIMB, 18)
    ensures V == (ValBE(S[..9], LIMB) + c) * Pow(LIMB, 9) + D
    ensures ValBE(S[..9], LIMB) + c < Pow(LIMB, 9)
  {
    hide ValBE, Pow;
    ValBEStep(S, 8, LIMB);
    PowAdd(LIMB, 9, 9);
    if ValBE(S[..9], LIMB) + c >= Pow(LIMB, 9) {
      MulMonotone(Pow(LIMB, 9), ValBE(S[..9], LIMB) + c, Pow(LIMB, 9));
    }
  }

  /** The whole section: chains 17..9 and 8..1, the fold into limbs 8 and 7, and the
      ripple give the limbs of the sequential loop. */
  method SplitCarry(im: seq<uint64>, h0: uint64, h1: uint64, ghost S: seq<nat>, ghost V: nat)
    returns (limbs: seq<uint64>)
    requires Split(im, h0, h1, S) && ValBE(S, LIMB) == V < Pow(LIMB, 18)
    ensures |limbs| == 18 && limbs == FixedBE(V, 18, LIMB)
  {
    hide ValBE, Pow, Carried, FixedBE;
    var high := new uint64[18](_ => 0);
    var r11 := HighChain(im, h0, h1, high, S, V);
    ChainsMeet(S, r11, ValBE(high[9..], LIMB), V);
    var low := new uint64[9](_ => 0);
    ghost var kept: seq<nat> := high[9..];
    LowChain(im, low, S[..9], ValBE(S[..9], LIMB));
    Patch(low, r11, ValBE(S[..9], LIMB) + r11);
    assert high[9..] == kept;
    limbs := low[..] + high[9..];
    JoinLimbs(low[..], kept, V);
  }

  lemma JoinLimbs(low: seq<nat>, high: seq<nat>, V: nat)
    requires |low| == |high| == 9 && AllBelow(low, LIMB) && AllBelow(high, LIMB)
    requires V == ValBE(low, LIMB) * Pow(LIMB, 9) + ValBE(high, LIMB)
    ensures V < Pow(LIMB, 18) && low + high == FixedBE(V, 18, LIMB)
  {
    hide ValBE, Pow, FixedBE;
    ValBEAppend(low, high, LIMB);
    FixedUnique(low + high, LIMB);
  }

  /** For every 64-byte input the fused kernel's carry section produces the limbs of
      Encode64Parts. */
  method FusedLimbs(src: seq<byte>, im: seq<uint64>, h0: uint64, h1: uint64) returns (limbs: seq<uint64>)
    requires |src| == 64 && |im| == 18 && h0 == Half(src, 0) && h1 == Half(src, 8)
    requires forall j :: 0 <= j < 18 ==> im[j] == FullColumns(src)[j] % W64
    ensures limbs == Limbs64(src)
  {
    hide ValBE, Pow, FullColumns, Half, FixedBE;
    FullColumnsValue(src);
    Fits64(src);
    KernelInput(src, im, h0, h1);
    limbs := SplitCarry(im, h0, h1, FullColumns(src), Val256(src));
  }

  lemma NoColumnZero(src: seq<byte>)
    requires |src| == 64
    ensures FullColumns(src)[0] == 0
  {
    hide Dot, WordsOf;
  }

  lemma KernelInput(src: seq<byte>, im: seq<uint64>, h0: uint64, h1: uint64)
    requires |src| == 64 && |im| == 18 && h0 == Half(src, 0) && h1 == Half(src, 8)
    requires forall j :: 0 <= j < 18 ==> im[j] == FullColumns(src)[j] % W64
    ensures Split(im, h0, h1, FullColumns(src))
  {
    hide Half, FullColumns;
    var S := FullColumns(src);
    NoColumnZero(src);
    FullColumnsFit(src, 16);
    forall j | 0 <= j < 18 && j != 16
      ensures im[j] == S[j] && S[j] + CARRY < W64
    {
      FullColumnsFit(src, j);
    }
  }
}
