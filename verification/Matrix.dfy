/** The matrix products (matmul_other.go, matmul64_generic.go, matmul_amd64.go):
    a radix conversion as a product with a constant table, exact in 64 bits. */
module Matrix {
  import opened Radix
  import opened Sequences
  import opened Words
  import opened Base58
  import opened Tables

  // ---- what a product computes ----

  /** Column k of the rows lo..hi weighted by xs. */
  function Dot(xs: seq<nat>, T: seq<seq<nat>>, width: nat, lo: nat, hi: nat, k: nat): nat
    requires Rectangular(T, width) && lo <= hi <= |T| && hi <= |xs| && k < width
    decreases hi
  {
    if lo == hi then 0 else Dot(xs, T, width, lo, hi - 1, k) + xs[hi - 1] * T[hi - 1][k]
  }

  function DotRow(xs: seq<nat>, T: seq<seq<nat>>, width: nat, lo: nat, hi: nat): (s: seq<nat>)
    requires Rectangular(T, width) && lo <= hi <= |T| && hi <= |xs|
    ensures |s| == width && forall k :: 0 <= k < width ==> s[k] == Dot(xs, T, width, lo, hi, k)
  {
    seq(width, k requires 0 <= k < width => Dot(xs, T, width, lo, hi, k))
  }

  /** The first n digits of xs scaled to the weight they have among all N. */
  lemma {:induction false} ProductPrefix(xs: seq<nat>, T: seq<seq<nat>>, width: nat, n: nat, B: nat, W: nat)
    requires Rectangular(T, width) && n <= |T| == |xs|
    requires forall j :: 0 <= j < n ==> ValBE(T[j], B) == Pow(W, |T| - 1 - j)
    ensures ValBE(DotRow(xs, T, width, 0, n), B) == ValBE(xs[..n], W) * Pow(W, |T| - n)
    decreases n
  {
    hide ValBE, Pow;
    if n == 0 {
      assert DotRow(xs, T, width, 0, 0) == Zeros(width) && xs[..0] == Zeros(0);
      ValBEZeros(width, B);
      ValBEZeros(0, W);
    } else {
      ProductPrefix(xs, T, width, n - 1, B, W);
      ValBELinear(DotRow(xs, T, width, 0, n), DotRow(xs, T, width, 0, n - 1), xs[n - 1], T[n - 1], B);
      ValBEStep(xs, n - 1, W);
      PowStep(W, |T| - n);
      Distribute2(ValBE(xs[..n - 1], W), W, xs[n - 1], Pow(W, |T| - n));
    }
  }

  lemma PowStep(b: nat, n: nat)
    ensures Pow(b, n + 1) == b * Pow(b, n)
  {
  }

  /** The product rewrites a base-W number in base B. */
  lemma ProductValue(xs: seq<nat>, T: seq<seq<nat>>, width: nat, B: nat, W: nat)
    requires Rectangular(T, width) && |T| == |xs|
    requires forall j :: 0 <= j < |T| ==> ValBE(T[j], B) == Pow(W, |T| - 1 - j)
    ensures ValBE(DotRow(xs, T, width, 0, |T|), B) == ValBE(xs, W)
  {
    ProductPrefix(xs, T, width, |T|, B, W);
    assert xs[..|T|] == xs;
  }

  /** Entries weighted by words of at most X stay below X times the column sum. */
  lemma {:induction false} DotBound(xs: seq<nat>, T: seq<seq<nat>>, width: nat, lo: nat, hi: nat, k: nat, X: nat)
    requires Rectangular(T, width) && lo <= hi <= |T| && hi <= |xs| && k < width
    requires forall j :: 0 <= j < |xs| ==> xs[j] <= X
    ensures Dot(xs, T, width, lo, hi, k) <= X * ColSum(T, width, lo, hi, k)
    decreases hi
  {
    if lo < hi {
      DotBound(xs, T, width, lo, hi - 1, k, X);
      MulMonotone(xs[hi - 1], X, T[hi - 1][k]);
      SumBound(X, ColSum(T, width, lo, hi - 1, k), T[hi - 1][k]);
    }
  }

  lemma SumBound(x: nat, c: nat, d: nat)
    ensures x * (c + d) == x * c + x * d
  {
  }

  lemma {:induction false} DotSplit(xs: seq<nat>, T: seq<seq<nat>>, width: nat, lo: nat, mid: nat, hi: nat, k: nat)
    requires Rectangular(T, width) && lo <= mid <= hi <= |T| && hi <= |xs| && k < width
    ensures Dot(xs, T, width, lo, hi, k) == Dot(xs, T, width, lo, mid, k) + Dot(xs, T, width, mid, hi, k)
    decreases hi
  {
    if mid < hi {
      DotSplit(xs, T, width, lo, mid, hi - 1, k);
    }
  }

  lemma {:induction false} DotMonotone(xs: seq<nat>, T: seq<seq<nat>>, width: nat, lo: nat, mid: nat, hi: nat, k: nat)
    requires Rectangular(T, width) && lo <= mid <= hi <= |T| && hi <= |xs| && k < width
    ensures Dot(xs, T, width, lo, mid, k) <= Dot(xs, T, width, lo, hi, k)
    decreases hi
  {
    if mid < hi {
      DotMonotone(xs, T, width, lo, mid, hi - 1, k);
    }
  }

  // ---- row bounds ----

  /** Outside [lo, hi) the row is zero. */
  predicate Bounds(row: seq<nat>, lo: nat, hi: nat) {
    lo <= hi <= |row|
    && (forall k :: 0 <= k < lo ==> row[k] == 0)
    && (forall k :: hi <= k < |row| ==> row[k] == 0)
  }

  /** Bounds that skip as much as they can. */
  predicate Tight(row: seq<nat>, lo: nat, hi: nat) {
    lo <= hi <= |row| && (lo < hi ==> row[lo] != 0 && row[hi - 1] != 0)
  }

  /** The bounds that init computes for every row of a table. */
  method RowBounds(T: seq<seq<uint32>>) returns (bounds: seq<(nat, nat)>)
    ensures |bounds| == |T|
    ensures forall j :: 0 <= j < |T| ==> Bounds(T[j], bounds[j].0, bounds[j].1)
    ensures forall j :: 0 <= j < |T| ==> Tight(T[j], bounds[j].0, bounds[j].1)
  {
    bounds := [];
    for i := 0 to |T|
      invariant |bounds| == i
      invariant forall j :: 0 <= j < i ==> Bounds(T[j], bounds[j].0, bounds[j].1)
      invariant forall j :: 0 <= j < i ==> Tight(T[j], bounds[j].0, bounds[j].1)
    {
      var row := T[i];
      var lo, hi := 0, |row|;
      while lo < hi && row[lo] == 0
        invariant 0 <= lo <= hi && forall k :: 0 <= k < lo ==> row[k] == 0
      {
        lo := lo + 1;
      }
      while hi > lo && row[hi - 1] == 0
        invariant lo <= hi <= |row| && forall k :: hi <= k < |row| ==> row[k] == 0
      {
        hi := hi - 1;
      }
      bounds := bounds + [(lo, hi)];
    }
  }

  predicate TableBounds(T: seq<seq<nat>>, bounds: seq<(nat, nat)>) {
    |bounds| == |T| && forall j :: 0 <= j < |T| ==> Bounds(T[j], bounds[j].0, bounds[j].1)
  }

  // ---- one row of a product ----

  function AddScaled(s: seq<nat>, x: nat, row: seq<nat>): (t: seq<nat>)
    requires |s| == |row|
    ensures |t| == |s| && forall k :: 0 <= k < |s| ==> t[k] == s[k] + x * row[k]
  {
    seq(|s|, k requires 0 <= k < |s| => s[k] + x * row[k])
  }

  lemma AddScaledAt(s: seq<nat>, x: nat, row: seq<nat>, k: nat)
    requires |s| == |row| && k < |s|
    ensures AddScaled(s, x, row)[k] == s[k] + x * row[k]
    ensures row[k] == 0 ==> AddScaled(s, x, row)[k] == s[k]
  {
  }

  /** The first k cells of the window at base hold the new row, everything else is as
      it was before. */
  ghost predicate RowDone(now: seq<nat>, before: seq<nat>, goal: seq<nat>, base: nat, k: nat) {
    k <= |goal| && base + |goal| <= |before| == |now|
    && forall j :: 0 <= j < |now| ==> now[j] == if base <= j < base + k then goal[j - base] else before[j]
  }

  lemma RowStart(before: seq<nat>, goal: seq<nat>, base: nat, lo: nat)
    requires lo <= |goal| && base + |goal| <= |before|
    requires forall k :: 0 <= k < lo ==> goal[k] == before[base..base + |goal|][k]
    ensures RowDone(before, before, goal, base, lo)
  {
    forall j | base <= j < base + lo
      ensures before[j] == goal[j - base]
    {
      SliceAt(before, base, base + |goal|, j);
    }
  }

  lemma RowStep(now: seq<nat>, before: seq<nat>, goal: seq<nat>, base: nat, k: nat)
    requires RowDone(now, before, goal, base, k) && k < |goal|
    ensures now[base + k] == before[base..base + |goal|][k]
    ensures RowDone(now[base + k := goal[k]], before, goal, base, k + 1)
  {
    SliceAt(before, base, base + |goal|, base + k);
  }

  lemma RowEnd(now: seq<nat>, before: seq<nat>, goal: seq<nat>, base: nat, hi: nat)
    requires RowDone(now, before, goal, base, hi)
    requires forall k :: hi <= k < |goal| ==> goal[k] == before[base..base + |goal|][k]
    ensures now[base..base + |goal|] == goal
    ensures now[..base] == before[..base] && now[base + |goal|..] == before[base + |goal|..]
  {
    forall j | base <= j < base + |goal|
      ensures now[j] == goal[j - base]
    {
      SliceAt(before, base, base + |goal|, j);
    }
    SliceIs(now, base, goal);
  }

  lemma OutsideBounds(s: seq<nat>, x: nat, row: seq<nat>, lo: nat, hi: nat)
    requires |s| == |row| && Bounds(row, lo, hi)
    ensures forall k :: 0 <= k < |s| && !(lo <= k < hi) ==> AddScaled(s, x, row)[k] == s[k]
  {
    hide AddScaled;
    forall k | 0 <= k < |s| && !(lo <= k < hi)
      ensures AddScaled(s, x, row)[k] == s[k]
    {
      AddScaledAt(s, x, row, k);
    }
  }

  /** acc[base + k] += x * row[k] over the row's bounds; nothing wraps. */
  method AddRow(acc: array<uint64>, base: nat, x: uint64, row: seq<uint32>, lo: nat, hi: nat)
    requires base + |row| <= acc.Length && Bounds(row, lo, hi)
    requires AllBelow(AddScaled(acc[base..base + |row|], x, row), W64)
    modifies acc
    ensures acc[base..base + |row|] == AddScaled(old(acc[base..base + |row|]), x, row)
    ensures acc[..base] == old(acc[..base]) && acc[base + |row|..] == old(acc[base + |row|..])
  {
    hide AddScaled, RowDone;
    ghost var before: seq<nat> := acc[..];
    ghost var was: seq<nat> := acc[base..base + |row|];
    ghost var goal := AddScaled(was, x, row);
    OutsideBounds(was, x, row, lo, hi);
    RowStart(before, goal, base, lo);
    var k := lo;
    while k < hi
      invariant lo <= k <= hi && RowDone(acc[..], before, goal, base, k)
    {
      RowStep(acc[..], before, goal, base, k);
      AddScaledAt(was, x, row, k);
      acc[base + k] := acc[base + k] + x * row[k];
      k := k + 1;
    }
    RowEnd(acc[..], before, goal, base, hi);
  }

  // ---- the bytes as big-endian words ----

  function WordsOf(src: seq<byte>): (ws: seq<uint32>)
    requires |src| % 4 == 0
    ensures |ws| == |src| / 4
  {
    seq(|src| / 4, i requires 0 <= i < |src| / 4 =>
      Uint32BE(src[4 * i], src[4 * i + 1], src[4 * i + 2], src[4 * i + 3]))
  }

  lemma WordAt(src: seq<byte>, i: nat)
    requires |src| % 4 == 0 && i < |src| / 4
    ensures WordsOf(src)[i] == Uint32BE(src[4 * i], src[4 * i + 1], src[4 * i + 2], src[4 * i + 3])
  {
  }

  lemma {:induction false} WordsPrefix(src: seq<byte>, n: nat, end: nat)
    requires |src| % 4 == 0 && n <= |src| / 4 && end == 4 * n
    ensures ValBE(WordsOf(src)[..n], W32) == Val256(src[..end])
    decreases n
  {
    hide ValBE, Val256, WordsOf, Uint32BE;
    if n == 0 {
      Val256Empty();
      ValBEEmpty(W32);
      assert src[..0] == [] && WordsOf(src)[..0] == [];
    } else {
      WordsPrefix(src, n - 1, end - 4);
      ValBEStep(WordsOf(src), n - 1, W32);
      Val256Step4(src, end - 4);
      WordAt(src, n - 1);
    }
  }

  lemma WordsValue(src: seq<byte>)
    requires |src| % 4 == 0
    ensures ValBE(WordsOf(src), W32) == Val256(src)
  {
    hide ValBE, Val256, WordsOf;
    WordsPrefix(src, |src| / 4, |src|);
    assert WordsOf(src)[..|src| / 4] == WordsOf(src) && src[..|src|] == src;
  }

  method LoadWords(src: seq<byte>) returns (bin: array<uint32>)
    requires |src| % 4 == 0
    ensures fresh(bin) && bin[..] == WordsOf(src)
  {
    hide WordsOf, Uint32BE;
    bin := new uint32[|src| / 4](_ => 0);
    var i := 0;
    while i < |src| / 4
      invariant 0 <= i <= |src| / 4
      invariant forall j :: 0 <= j < i ==> bin[j] == WordsOf(src)[j]
    {
      WordAt(src, i);
      bin[i] := Uint32BE(src[4 * i], src[4 * i + 1], src[4 * i + 2], src[4 * i + 3]);
      i := i + 1;
    }
  }

  // ---- 32 bytes ----

  /** Every matrix column leaves this much of a 64-bit cell for carries. */
  const CARRY: nat := 0x100_0000_0000

  /** The nine columns of encodeMatMul32. */
  function Inter32(src: seq<byte>): (s: seq<nat>)
    requires |src| == 32
    ensures |s| == 9
  {
    Shapes();
    [0] + DotRow(WordsOf(src), ENC32, 8, 0, 8)
  }

  lemma ConsZero(s: seq<nat>, b: nat)
    ensures ValBE([0] + s, b) == ValBE(s, b)
  {
    hide ValBE, Pow;
    ValBECons(0, s, b);
    assert 0 * Pow(b, |s|) == 0;
  }

  lemma Inter32Value(src: seq<byte>)
    requires |src| == 32
    ensures ValBE(Inter32(src), LIMB) == Val256(src)
  {
    hide ValBE, Pow, DotRow, WordsOf;
    Shapes();
    forall j | 0 <= j < 8
      ensures ValBE(ENC32[j], LIMB) == Pow(W32, 7 - j)
    {
      EncRow32(j);
    }
    ProductValue(WordsOf(src), ENC32, 8, LIMB, W32);
    ConsZero(DotRow(WordsOf(src), ENC32, 8, 0, 8), LIMB);
    WordsValue(src);
  }

  /** The columns of encTable32 are the last eight of encTable64's second half. */
  lemma ColumnTail(k: nat)
    requires k < 8
    ensures |ENC64| == 16 && Rectangular(ENC64, 17) && |ENC32| == 8 && Rectangular(ENC32, 8)
    ensures Eight(ENC64, 8, k + 9) == Eight(ENC32, 0, k)
  {
    hide ENC64, ENC32;
    Shapes();
    forall j | 0 <= j < 8
      ensures ENC64[j + 8][k + 9] == ENC32[j][k]
    {
      EncTail(j);
    }
  }

  lemma WordDot(xs: seq<uint32>, T: seq<seq<nat>>, width: nat, lo: nat, k: nat, total: nat)
    requires Rectangular(T, width) && lo + 8 <= |T| && lo + 8 <= |xs| && k < width
    requires total == Eight(T, lo, k) < ROOM
    ensures Dot(xs, T, width, lo, lo + 8, k) <= (W32 - 1) * total
    ensures (W32 - 1) * total + CARRY < W64
  {
    hide Eight;
    DotBound(xs, T, width, lo, lo + 8, k, W32 - 1);
    ColSumOfEight(T, width, lo, k);
  }

  lemma Inter32Fits(xs: seq<uint32>, n: nat, k: nat)
    requires |xs| == 8 && n <= 8 && k < 8
    ensures Rectangular(ENC32, 8) && |ENC32| == 8
    ensures Dot(xs, ENC32, 8, 0, n, k) + CARRY < W64
  {
    hide Eight, Dot;
    ColumnTail(k);
    EncColumns(k + 9);
    WordDot(xs, ENC32, 8, 0, k, Eight(ENC32, 0, k));
    DotMonotone(xs, ENC32, 8, 0, n, 8, k);
  }

  lemma DotRowZero(xs: seq<nat>, T: seq<seq<nat>>, width: nat, lo: nat)
    requires Rectangular(T, width) && lo <= |T| && lo <= |xs|
    ensures DotRow(xs, T, width, lo, lo) == Zeros(width)
  {
  }

  // ---- the loop over rows ----

  function AddCells(s: seq<nat>, t: seq<nat>): (u: seq<nat>)
    requires |s| == |t|
    ensures |u| == |s| && forall k :: 0 <= k < |s| ==> u[k] == s[k] + t[k]
  {
    seq(|s|, k requires 0 <= k < |s| => s[k] + t[k])
  }

  lemma AddCellsZero(s: seq<nat>, n: nat)
    requires |s| == n
    ensures AddCells(s, Zeros(n)) == s && AddCells(Zeros(n), s) == s
  {
  }

  lemma AddCellsStep(s: seq<nat>, xs: seq<nat>, T: seq<seq<nat>>, width: nat, lo: nat, i: nat)
    requires Rectangular(T, width) && lo <= i < |T| && i < |xs| && |s| == width
    ensures AddScaled(AddCells(s, DotRow(xs, T, width, lo, i)), xs[i], T[i])
         == AddCells(s, DotRow(xs, T, width, lo, i + 1))
  {
  }

  /** Adding whole rows fits if the finished columns fit. */
  ghost predicate ColumnsFit(s: seq<nat>, xs: seq<nat>, T: seq<seq<nat>>, width: nat, lo: nat, hi: nat)
    requires Rectangular(T, width) && lo <= hi <= |T| && hi <= |xs| && |s| == width
  {
    forall k :: 0 <= k < width ==> s[k] + Dot(xs, T, width, lo, hi, k) < W64
  }

  lemma PartialFits(s: seq<nat>, xs: seq<nat>, T: seq<seq<nat>>, width: nat, lo: nat, i: nat, hi: nat)
    requires Rectangular(T, width) && lo <= i < hi <= |T| && hi <= |xs| && |s| == width
    requires ColumnsFit(s, xs, T, width, lo, hi)
    ensures AllBelow(AddCells(s, DotRow(xs, T, width, lo, i + 1)), W64)
  {
    var t := AddCells(s, DotRow(xs, T, width, lo, i + 1));
    forall k | 0 <= k < width
      ensures t[k] < W64
    {
      DotMonotone(xs, T, width, lo, i + 1, hi, k);
    }
  }

  /** Rows lo to hi of the table, weighted by bin, added to the cells at base. */
  method MulRows(bin: seq<uint64>, acc: array<uint64>, base: nat, T: seq<seq<uint32>>, width: nat,
                 lo: nat, hi: nat, bounds: seq<(nat, nat)>)
    requires Rectangular(T, width) && lo <= hi <= |T| && hi <= |bin| && TableBounds(T, bounds)
    requires base + width <= acc.Length
    requires ColumnsFit(acc[base..base + width], bin, T, width, lo, hi)
    modifies acc
    ensures acc[base..base + width]
         == AddCells(old(acc[base..base + width]), DotRow(bin, T, width, lo, hi))
    ensures acc[..base] == old(acc[..base]) && acc[base + width..] == old(acc[base + width..])
  {
    hide Dot, DotRow, AddScaled, AddCells, ColumnsFit, Bounds;
    ghost var s: seq<nat> := acc[base..base + width];
    DotRowZero(bin, T, width, lo);
    AddCellsZero(s, width);
    var i := lo;
    while i < hi
      invariant lo <= i <= hi
      invariant acc[base..base + width] == AddCells(s, DotRow(bin, T, width, lo, i))
      invariant acc[..base] == old(acc[..base]) && acc[base + width..] == old(acc[base + width..])
    {
      AddCellsStep(s, bin, T, width, lo, i);
      PartialFits(s, bin, T, width, lo, i, hi);
      AddRow(acc, base, bin[i], T[i], bounds[i].0, bounds[i].1);
      i := i + 1;
    }
  }

  function WholeRows(n: nat, width: nat): (bounds: seq<(nat, nat)>)
    ensures |bounds| == n && forall j :: 0 <= j < n ==> bounds[j] == (0, width)
  {
    seq(n, _ => (0, width))
  }

  /** encodeMatMul32 into nine zeroed cells at inter[at..]. */
  method EncodeMatMul32(src: seq<byte>, inter: array<uint64>, at: nat)
    requires |src| == 32 && at + 9 <= inter.Length
    requires forall j :: at <= j < at + 9 ==> inter[j] == 0
    modifies inter
    ensures inter[at..at + 9] == Inter32(src)
    ensures inter[..at] == old(inter[..at]) && inter[at + 9..] == old(inter[at + 9..])
  {
    hide Dot, DotRow, WordsOf;
    var bin := LoadWords(src);
    Shapes();
    assert inter[at + 1..at + 9] == Zeros(8);
    assert ColumnsFit(inter[at + 1..at + 9], WordsOf(src), ENC32, 8, 0, 8) by {
      forall k | 0 <= k < 8
        ensures Dot(WordsOf(src), ENC32, 8, 0, 8, k) < W64
      {
        Inter32Fits(WordsOf(src), 8, k);
      }
    }
    AddCellsZero(DotRow(WordsOf(src), ENC32, 8, 0, 8), 8);
    MulRows(bin[..], inter, at + 1, ENC32, 8, 0, 8, WholeRows(8, 8));
    assert inter[at] == inter[..at + 1][at];
    assert inter[at..at + 9] == [0] + inter[at + 1..at + 9];
    assert inter[..at] == inter[..at + 1][..at];
  }

  // ---- 64 bytes ----

  /** The table's column sums after rows 0-7, mini-reduced: column 15 keeps its
      remainder and column 14 takes the quotient. */
  function Head64(ws: seq<nat>): (s: seq<nat>)
    requires |ws| == 16
    ensures |s| == 17
  {
    Shapes();
    var c := DotRow(ws, ENC64, 17, 0, 8);
    c[14 := c[14] + c[15] / LIMB][15 := c[15] % LIMB]
  }

  /** The eighteen columns of encodeMatMul64. */
  function Inter64(src: seq<byte>): (s: seq<nat>)
    requires |src| == 64
    ensures |s| == 18
  {
    Shapes();
    [0] + AddCells(Head64(WordsOf(src)), DotRow(WordsOf(src), ENC64, 17, 8, 16))
  }

  /** Moving whole multiples of the base one column up keeps the value. */
  lemma MiniReduction(f: seq<nat>, g: seq<nat>, i: nat, q: nat, b: nat)
    requires |f| == |g| && i + 1 < |g|
    requires f[i] == g[i] + q && f[i + 1] + q * b == g[i + 1]
    requires forall k :: 0 <= k < |g| && k != i && k != i + 1 ==> f[k] == g[k]
    ensures ValBE(f, b) == ValBE(g, b)
  {
    hide ValBE, Pow;
    assert f[..i] == g[..i] && f[i + 2..] == g[i + 2..];
    ValBEStep(f, i, b);
    ValBEStep(g, i, b);
    ValBEStep(f, i + 1, b);
    ValBEStep(g, i + 1, b);
    Spread(ValBE(g[..i], b), g[i], q, b);
    SameTail(f, g, i + 2, b);
  }

  lemma SameTail(f: seq<nat>, g: seq<nat>, n: nat, b: nat)
    requires n <= |f| == |g| && f[n..] == g[n..] && ValBE(f[..n], b) == ValBE(g[..n], b)
    ensures ValBE(f, b) == ValBE(g, b)
  {
    hide ValBE, Pow;
    ValBEAppend(f[..n], f[n..], b);
    ValBEAppend(g[..n], g[n..], b);
    assert f == f[..n] + f[n..] && g == g[..n] + g[n..];
  }

  lemma Spread(v: nat, d: nat, q: nat, b: nat)
    ensures (v * b + (d + q)) * b == (v * b + d) * b + q * b
  {
  }

  lemma Inter64Value(src: seq<byte>)
    requires |src| == 64
    ensures ValBE(Inter64(src), LIMB) == Val256(src)
  {
    hide ValBE, Pow, Dot, WordsOf;
    Shapes();
    var ws: seq<nat> := WordsOf(src);
    forall j | 0 <= j < 16
      ensures ValBE(ENC64[j], LIMB) == Pow(W32, 15 - j)
    {
      EncRow64(j);
    }
    ProductValue(ws, ENC64, 17, LIMB, W32);
    WordsValue(src);
    forall k | 0 <= k < 17
      ensures Dot(ws, ENC64, 17, 0, 16, k) == Dot(ws, ENC64, 17, 0, 8, k) + Dot(ws, ENC64, 17, 8, 16, k)
    {
      DotSplit(ws, ENC64, 17, 0, 8, 16, k);
    }
    var f := AddCells(Head64(ws), DotRow(ws, ENC64, 17, 8, 16));
    MiniReduction(f, DotRow(ws, ENC64, 17, 0, 16), 14, Dot(ws, ENC64, 17, 0, 8, 15) / LIMB, LIMB);
    ConsZero(f, LIMB);
  }

  /** Columns of rows 0-7 fit with room for a carry. */
  lemma Head64Fits(xs: seq<uint32>, k: nat)
    requires |xs| == 16 && k < 17
    ensures |ENC64| == 16 && Rectangular(ENC64, 17)
    ensures Dot(xs, ENC64, 17, 0, 8, k) + CARRY < W64
  {
    hide Eight, Dot;
    EncColumns(k);
    WordDot(xs, ENC64, 17, 0, k, Eight(ENC64, 0, k));
  }

  /** After the mini-reduction every column fits. */
  lemma Inter64Fits(xs: seq<uint32>, k: nat)
    requires |xs| == 16 && k < 17
    ensures |ENC64| == 16 && Rectangular(ENC64, 17)
    ensures Head64(xs)[k] + Dot(xs, ENC64, 17, 8, 16, k) + CARRY / 2 < W64
  {
    hide Eight, Dot;
    EncColumns(k);
    WordDot(xs, ENC64, 17, 0, k, Eight(ENC64, 0, k));
    WordDot(xs, ENC64, 17, 8, k, Eight(ENC64, 8, k));
    Head64Fits(xs, 15);
  }

  /** encodeMatMul64 (matmul64_generic.go) into eighteen zeroed cells. */
  method EncodeMatMul64(src: seq<byte>, inter: array<uint64>, at: nat, bounds: seq<(nat, nat)>)
    requires |src| == 64 && at + 18 <= inter.Length && TableBounds(ENC64, bounds)
    requires forall j :: at <= j < at + 18 ==> inter[j] == 0
    modifies inter
    ensures inter[at..at + 18] == Inter64(src)
    ensures inter[..at] == old(inter[..at]) && inter[at + 18..] == old(inter[at + 18..])
  {
    hide Dot, WordsOf, AddCells, Bounds, ENC64;
    var bin := LoadWords(src);
    ghost var ws: seq<uint32> := WordsOf(src);
    ghost var before := inter[..];
    Shapes();
    HeadRows(bin[..], inter, at, bounds);
    ghost var headed := inter[..];
    KeptBefore(before, headed, at + 1, at, at);
    assert ColumnsFit(inter[at + 1..at + 18], ws, ENC64, 17, 8, 16) by {
      forall k | 0 <= k < 17
        ensures Head64(ws)[k] + Dot(ws, ENC64, 17, 8, 16, k) < W64
      {
        Inter64Fits(ws, k);
      }
    }
    MulRows(bin[..], inter, at + 1, ENC64, 17, 8, 16, bounds);
    KeptBefore(headed, inter[..], at + 1, at, at);
    KeptBefore(before, inter[..], at, at, at);
    SplitSlice(inter[..], at, at + 1, at + 18);
    assert inter[at..at + 1] == [0];
  }

  /** The first eight rows and the mini-reduction. */
  method HeadRows(bin: seq<uint32>, inter: array<uint64>, at: nat, bounds: seq<(nat, nat)>)
    requires |bin| == 16 && at + 18 <= inter.Length && TableBounds(ENC64, bounds)
    requires forall j :: at <= j < at + 18 ==> inter[j] == 0
    modifies inter
    ensures inter[at + 1..at + 18] == Head64(bin)
    ensures inter[..at + 1] == old(inter[..at + 1]) && inter[at + 18..] == old(inter[at + 18..])
  {
    hide Dot, AddCells, Bounds;
    Shapes();
    assert inter[at + 1..at + 18] == Zeros(17);
    assert ColumnsFit(inter[at + 1..at + 18], bin, ENC64, 17, 0, 8) by {
      forall k | 0 <= k < 17
        ensures Dot(bin, ENC64, 17, 0, 8, k) < W64
      {
        Head64Fits(bin, k);
      }
    }
    AddCellsZero(DotRow(bin, ENC64, 17, 0, 8), 17);
    MulRows(bin, inter, at + 1, ENC64, 17, 0, 8, bounds);
    assert inter[at + 15] == inter[at + 1..at + 18][14] && inter[at + 16] == inter[at + 1..at + 18][15];
    Head64Fits(bin, 14);
    inter[at + 15] := inter[at + 15] + inter[at + 16] / LIMB;
    inter[at + 16] := inter[at + 16] % LIMB;
  }

  // ---- 64 bytes as a head and a shifted 32-byte tail (matmul_amd64.go) ----

  /** Rows 8-15 act on the last eight columns as encTable32 does. */
  lemma {:induction false} TailDot(ws: seq<nat>, n: nat, k: nat)
    requires |ws| == 16 && n <= 8 && k < 17
    ensures |ENC64| == 16 && Rectangular(ENC64, 17) && |ENC32| == 8 && Rectangular(ENC32, 8)
    ensures Dot(ws, ENC64, 17, 8, 8 + n, k)
         == if k < 9 then 0 else Dot(ws[8..], ENC32, 8, 0, n, k - 9)
    decreases n
  {
    hide ENC64, ENC32;
    Shapes();
    if n > 0 {
      TailDot(ws, n - 1, k);
      EncTail(n - 1);
      assert ENC64[8 + n - 1][k] == if k < 9 then 0 else ENC32[n - 1][k - 9];
      assert ws[8..][n - 1] == ws[8 + n - 1];
    }
  }

  lemma WordsTail(src: seq<byte>)
    requires |src| == 64
    ensures WordsOf(src[32..]) == WordsOf(src)[8..]
  {
    hide Uint32BE;
    forall i | 0 <= i < 8
      ensures WordsOf(src[32..])[i] == WordsOf(src)[8 + i]
    {
      WordAt(src[32..], i);
      WordAt(src, 8 + i);
    }
  }

  /** The merge loop of matmul_amd64.go: cells[from+j] += tail[j]. */
  method MergeTail(cells: array<uint64>, from: nat, tail: seq<uint64>, ghost goal: seq<nat>)
    requires from + |tail| == cells.Length == |goal|
    requires forall j :: 0 <= j < |goal| ==> goal[j] == cells[j] + (if j < from then 0 else tail[j - from]) < W64
    modifies cells
    ensures cells[..] == goal
  {
    ghost var before := cells[..];
    var k := 0;
    while k < |tail|
      invariant k <= |tail|
      invariant forall j :: 0 <= j < from + k ==> cells[j] == goal[j]
      invariant forall j :: from + k <= j < cells.Length ==> cells[j] == before[j]
    {
      assert goal[from + k] == before[from + k] + tail[k];
      cells[from + k] := cells[from + k] + tail[k];
      k := k + 1;
    }
  }

  /** The last eight rows of encTable64 are the 32-byte table, shifted. */
  lemma ShiftedTail(src: seq<byte>, k: nat)
    requires |src| == 64 && k < 17
    ensures |ENC64| == 16 && Rectangular(ENC64, 17)
    ensures Dot(WordsOf(src), ENC64, 17, 8, 16, k) == if k < 9 then 0 else Inter32(src[32..])[k - 8]
  {
    hide Dot, WordsOf;
    Shapes();
    WordsTail(src);
    TailDot(WordsOf(src), 8, k);
  }

  lemma MergedColumn(src: seq<byte>, mid: seq<nat>, tail: seq<nat>, j: nat)
    requires |src| == 64 && |mid| == 18 && j < 18
    requires mid[0] == 0 && mid[1..] == Head64(WordsOf(src)) && tail == Inter32(src[32..])
    ensures |tail| == 9
    ensures Inter64(src)[j] == mid[j] + (if j < 10 then 0 else tail[j - 9]) < W64
  {
    hide Dot, WordsOf, Head64, Inter32;
    if j > 0 {
      SliceAt(mid, 1, 18, j);
      ShiftedTail(src, j - 1);
      Inter64Fits(WordsOf(src), j - 1);
    }
  }

  /** encodeMatMul64 of matmul_amd64.go: the 32-byte product of the low half is
      merged into the last eight columns. It leaves the same eighteen columns. */
  method EncodeMatMul64Split(src: seq<byte>, inter: array<uint64>, bounds: seq<(nat, nat)>)
    requires |src| == 64 && inter.Length == 18 && TableBounds(ENC64, bounds)
    requires forall j :: 0 <= j < 18 ==> inter[j] == 0
    modifies inter
    ensures inter[..] == Inter64(src)
  {
    hide WordsOf, Bounds, Head64, Inter32, Inter64, TableBounds, ENC64, ENC32;
    var bin := LoadWords(src);
    HeadRows(bin[..], inter, 0, bounds);
    var tail := new uint64[9](_ => 0);
    EncodeMatMul32(src[32..], tail, 0);
    assert tail[..] == tail[0..9] && inter[1..] == inter[1..18];
    ghost var goal: seq<nat> := Inter64(src);
    forall j | 0 <= j < 18
      ensures goal[j] == inter[j] + (if j < 10 then 0 else tail[1..][j - 10]) < W64
    {
      MergedColumn(src, inter[..], tail[..], j);
    }
    MergeTail(inter, 10, tail[1..], goal);
  }

  /** Without the mini-reduction column 15 overflows: sixteen 0xFFFFFFFF words. */
  lemma {:induction false} MiniReductionNeeded()
    ensures |ENC64| == 16 && Rectangular(ENC64, 17)
    ensures Dot(seq(16, _ => W32 - 1), ENC64, 17, 0, 16, 15) >= W64
  {
    hide Eight, Dot, ColSum;
    Column15();
    var ws := seq(16, _ => W32 - 1);
    ConstantDot(ws, W32 - 1, ENC64, 17, 0, 16, 15);
    ColSumSplit(ENC64, 17, 0, 8, 16, 15);
    ColSumOfEight(ENC64, 17, 0, 15);
    ColSumOfEight(ENC64, 17, 8, 15);
  }

  lemma {:induction false} ConstantDot(xs: seq<nat>, X: nat, T: seq<seq<nat>>, width: nat, lo: nat, hi: nat, k: nat)
    requires Rectangular(T, width) && lo <= hi <= |T| && hi <= |xs| && k < width
    requires forall j :: 0 <= j < |xs| ==> xs[j] == X
    ensures Dot(xs, T, width, lo, hi, k) == X * ColSum(T, width, lo, hi, k)
    decreases hi
  {
    if lo < hi {
      ConstantDot(xs, X, T, width, lo, hi - 1, k);
      SumBound(X, ColSum(T, width, lo, hi - 1, k), T[hi - 1][k]);
    }
  }

  // ---- decoding: limbs into words ----

  /** The sixteen columns of decodeMatMul64. */
  function Bin64(inter: seq<nat>): (s: seq<nat>)
    requires |inter| == 18
    ensures |s| == 16
  {
    Shapes();
    DotRow(inter, DEC64, 16, 0, 18)
  }

  /** The eight columns of decodeMatMul32. */
  function Bin32(inter: seq<nat>): (s: seq<nat>)
    requires |inter| == 9
    ensures |s| == 8
  {
    Shapes();
    DotRow(inter, DEC32, 8, 0, 9)
  }

  lemma Bin64Rows()
    ensures |DEC64| == 18 && Rectangular(DEC64, 16)
    ensures forall j :: 0 <= j < 18 ==> ValBE(DEC64[j], W32) == Pow(LIMB, 17 - j)
  {
    hide ValBE, Pow;
    Shapes();
    forall j | 0 <= j < 18
      ensures ValBE(DEC64[j], W32) == Pow(LIMB, 17 - j)
    {
      DecRow64(j);
    }
  }

  lemma Bin64Value(inter: seq<nat>)
    requires |inter| == 18
    ensures ValBE(Bin64(inter), W32) == ValBE(inter, LIMB)
  {
    hide ValBE, Pow, DotRow, Dot;
    Bin64Rows();
    ProductValue(inter, DEC64, 16, W32, LIMB);
  }

  lemma Bin32Rows()
    ensures |DEC32| == 9 && Rectangular(DEC32, 8)
    ensures forall j :: 0 <= j < 9 ==> ValBE(DEC32[j], W32) == Pow(LIMB, 8 - j)
  {
    hide ValBE, Pow;
    Shapes();
    forall j | 0 <= j < 9
      ensures ValBE(DEC32[j], W32) == Pow(LIMB, 8 - j)
    {
      DecRow32(j);
    }
  }

  lemma Bin32Value(inter: seq<nat>)
    requires |inter| == 9
    ensures ValBE(Bin32(inter), W32) == ValBE(inter, LIMB)
  {
    hide ValBE, Pow, DotRow, Dot;
    Bin32Rows();
    ProductValue(inter, DEC32, 8, W32, LIMB);
  }

  lemma LimbDot(inter: seq<nat>, T: seq<seq<nat>>, k: nat)
    requires |T| == 18 && Rectangular(T, 16) && k < 16 && LimbColumnFits(T, k)
    requires |inter| == 18 && AllBelow(inter, LIMB)
    ensures Dot(inter, T, 16, 0, 18, k) + 0x2_0000_0000 < W64
  {
    hide Eight, Dot, ColSum;
    DotBound(inter, T, 16, 0, 18, k, LIMB - 1);
    ColSumSplit(T, 16, 0, 9, 18, k);
    ColSumOfNine(T, 16, 0, k);
    ColSumOfNine(T, 16, 9, k);
  }

  /** Limbs below 58^5 never overflow a column, carry included. */
  lemma Bin64Fits(inter: seq<nat>, k: nat)
    requires |inter| == 18 && AllBelow(inter, LIMB) && k < 16
    ensures |DEC64| == 18 && Rectangular(DEC64, 16)
    ensures Dot(inter, DEC64, 16, 0, 18, k) + 0x2_0000_0000 < W64
  {
    hide LimbColumnFits, Dot;
    DecColumns(k);
    LimbDot(inter, DEC64, k);
  }

  /** Rows 9-17 act on the last eight columns as decTable32 does. */
  lemma {:induction false} DecTailDot(xs: seq<nat>, n: nat, k: nat)
    requires |xs| == 18 && n <= 9 && k < 16
    ensures |DEC64| == 18 && Rectangular(DEC64, 16) && |DEC32| == 9 && Rectangular(DEC32, 8)
    ensures Dot(xs, DEC64, 16, 9, 9 + n, k)
         == if k < 8 then 0 else Dot(xs[9..], DEC32, 8, 0, n, k - 8)
    decreases n
  {
    hide DEC64, DEC32;
    Shapes();
    if n > 0 {
      DecTailDot(xs, n - 1, k);
      DecTail(n - 1);
      assert DEC64[9 + n - 1][k] == if k < 8 then 0 else DEC32[n - 1][k - 8];
      assert xs[9..][n - 1] == xs[9 + n - 1];
    }
  }

  lemma Bin32Fits(inter: seq<nat>, k: nat)
    requires |inter| == 9 && AllBelow(inter, LIMB) && k < 8
    ensures |DEC32| == 9 && Rectangular(DEC32, 8)
    ensures Dot(inter, DEC32, 8, 0, 9, k) + 0x2_0000_0000 < W64
  {
    hide Dot;
    Shapes();
    var wide := Zeros(9) + inter;
    assert wide[9..] == inter;
    DecTailDot(wide, 9, k + 8);
    DotSplit(wide, DEC64, 16, 0, 9, 18, k + 8);
    Bin64Fits(wide, k + 8);
  }

  /** decodeMatMul32 (matmul_other.go) into eight zeroed cells. */
  method DecodeMatMul32(inter: seq<uint64>, bin: array<uint64>)
    requires |inter| == 9 && AllBelow(inter, LIMB) && bin.Length == 8
    requires forall j :: 0 <= j < 8 ==> bin[j] == 0
    modifies bin
    ensures bin[..] == Bin32(inter)
  {
    hide Dot, DotRow;
    Shapes();
    assert bin[0..8] == Zeros(8);
    assert ColumnsFit(bin[0..8], inter, DEC32, 8, 0, 9) by {
      forall k | 0 <= k < 8
        ensures Dot(inter, DEC32, 8, 0, 9, k) < W64
      {
        Bin32Fits(inter, k);
      }
    }
    AddCellsZero(DotRow(inter, DEC32, 8, 0, 9), 8);
    MulRows(inter, bin, 0, DEC32, 8, 0, 9, WholeRows(9, 8));
    assert bin[..] == bin[0..8];
  }

  /** decodeMatMul64 (matmul64_generic.go) into sixteen zeroed cells. */
  method DecodeMatMul64(inter: seq<uint64>, bin: array<uint64>, bounds: seq<(nat, nat)>)
    requires |inter| == 18 && AllBelow(inter, LIMB) && bin.Length == 16 && TableBounds(DEC64, bounds)
    requires forall j :: 0 <= j < 16 ==> bin[j] == 0
    modifies bin
    ensures bin[..] == Bin64(inter)
  {
    hide Dot, DotRow, Bounds;
    Shapes();
    assert bin[0..16] == Zeros(16);
    assert ColumnsFit(bin[0..16], inter, DEC64, 16, 0, 18) by {
      forall k | 0 <= k < 16
        ensures Dot(inter, DEC64, 16, 0, 18, k) < W64
      {
        Bin64Fits(inter, k);
      }
    }
    AddCellsZero(DotRow(inter, DEC64, 16, 0, 18), 16);
    MulRows(inter, bin, 0, DEC64, 16, 0, 18, bounds);
    assert bin[..] == bin[0..16];
  }

  /** decodeMatMul64 of matmul_amd64.go: rows 0-8, then the 32-byte product of the
      last nine limbs merged into the last eight columns. */
  method DecodeMatMul64Split(inter: seq<uint64>, bin: array<uint64>, bounds: seq<(nat, nat)>)
    requires |inter| == 18 && AllBelow(inter, LIMB) && bin.Length == 16 && TableBounds(DEC64, bounds)
    requires forall j :: 0 <= j < 16 ==> bin[j] == 0
    modifies bin
    ensures bin[..] == Bin64(inter)
  {
    hide Dot, Bounds, Bin32, TableBounds;
    Shapes();
    assert bin[0..16] == Zeros(16);
    forall k | 0 <= k < 16
      ensures Dot(inter, DEC64, 16, 0, 9, k) < W64
    {
      SplitColumn(inter, k);
    }
    AddCellsZero(DotRow(inter, DEC64, 16, 0, 9), 16);
    MulRows(inter, bin, 0, DEC64, 16, 0, 9, bounds);
    assert bin[..] == bin[0..16] == DotRow(inter, DEC64, 16, 0, 9);
    var tail := new uint64[8](_ => 0);
    DecodeMatMul32(inter[9..], tail);
    var low := tail[..];
    ghost var goal: seq<nat> := Bin64(inter);
    forall j | 0 <= j < 16
      ensures goal[j] == bin[j] + (if j < 8 then 0 else low[j - 8]) < W64
    {
      SplitColumn(inter, j);
    }
    MergeTail(bin, 8, low, goal);
  }

  lemma SplitColumn(inter: seq<nat>, k: nat)
    requires |inter| == 18 && AllBelow(inter, LIMB) && k < 16
    ensures |DEC64| == 18 && Rectangular(DEC64, 16)
    ensures Dot(inter, DEC64, 16, 0, 18, k)
         == Dot(inter, DEC64, 16, 0, 9, k) + (if k < 8 then 0 else Bin32(inter[9..])[k - 8]) < W64
  {
    hide Dot;
    Bin64Fits(inter, k);
    DotSplit(inter, DEC64, 16, 0, 9, 18, k);
    DecTailDot(inter, 9, k);
  }
}
