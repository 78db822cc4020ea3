/** The matrix tail encoders for values below 64 bytes (encode_block.go): the
    bottom-right submatrix, its unrolled four-word case, and the padded form. */
module SmallMatrix {
  import opened Radix
  import opened Sequences
  import opened Words
  import opened Alphabet
  import opened Base58
  import opened Chars
  import opened Tables
  import opened Matrix
  import opened Carry
  import opened Division
  import opened BlockRadix

  // ---- the bottom-right w-by-w submatrix of encTable32 ----

  function Corner(T: seq<seq<uint32>>, n: nat, w: nat): (S: seq<seq<uint32>>)
    requires |T| == n && Rectangular(T, n) && w <= n
    ensures |S| == w && Rectangular(S, w)
    ensures forall r :: 0 <= r < w ==> S[r] == T[n - w + r][n - w..]
    ensures forall r, c :: 0 <= r < w && 0 <= c < w ==> S[r][c] == T[n - w + r][n - w + c]
  {
    seq(w, r requires 0 <= r < w => T[n - w + r][n - w..])
  }

  function Sub(w: nat): (T: seq<seq<uint32>>)
    requires 1 <= w <= 8
    ensures |ENC32| == 8 && Rectangular(ENC32, 8)
    ensures |T| == w && Rectangular(T, w)
    ensures forall r, c :: 0 <= r < w && 0 <= c < w ==> T[r][c] == ENC32[8 - w + r][8 - w + c]
  {
    Shapes();
    Corner(ENC32, 8, w)
  }

  /** Row j of encTable32 starts at column j. */
  lemma Triangular(j: nat)
    requires j < 8
    ensures |ENC32| == 8 && |ENC32[j]| == 8
    ensures forall k :: 0 <= k < j ==> ENC32[j][k] == 0
  {
    Shapes();
    assert j == 0 || j == 1 || j == 2 || j == 3 || j == 4 || j == 5 || j == 6 || j == 7;
  }

  lemma DropZeros(row: seq<nat>, n: nat, b: nat)
    requires n <= |row| && forall k :: 0 <= k < n ==> row[k] == 0
    ensures ValBE(row[n..], b) == ValBE(row, b)
  {
    hide ValBE;
    assert row == Zeros(n) + row[n..];
    ValBELeadingZeros(n, row[n..], b);
  }

  lemma SubRowIs(w: nat, r: nat)
    requires 1 <= w <= 8 && r < w
    ensures |ENC32| == 8 && |ENC32[8 - w + r]| == 8 && Sub(w)[r] == ENC32[8 - w + r][8 - w..]
  {
    Shapes();
  }

  lemma SubRow(w: nat, r: nat)
    requires 1 <= w <= 8 && r < w
    ensures ValBE(Sub(w)[r], LIMB) == Pow(W32, w - 1 - r)
  {
    hide ValBE, Pow, Sub, ENC32;
    var j := 8 - w + r;
    SubRowIs(w, r);
    Triangular(j);
    DropZeros(ENC32[j], 8 - w, LIMB);
    EncRow32(j);
  }

  lemma SubRows(w: nat)
    requires 1 <= w <= 8
    ensures forall r :: 0 <= r < w ==> ValBE(Sub(w)[r], LIMB) == Pow(W32, w - 1 - r)
  {
    hide ValBE, Pow, Sub;
    forall r | 0 <= r < w
      ensures ValBE(Sub(w)[r], LIMB) == Pow(W32, w - 1 - r)
    {
      SubRow(w, r);
    }
  }

  /** The submatrix sums what the full matrix sums over the zero-padded words. */
  lemma {:induction false} SubDot(ws: seq<nat>, w: nat, n: nat, c: nat)
    requires 1 <= w <= 8 && |ws| == w && n <= w && c < w
    ensures |ENC32| == 8 && Rectangular(ENC32, 8)
    ensures Dot(ws, Sub(w), w, 0, n, c) == Dot(Zeros(8 - w) + ws, ENC32, 8, 8 - w, 8 - w + n, 8 - w + c)
    decreases n
  {
    hide Sub, ENC32;
    var T := Sub(w);
    var wide := Zeros(8 - w) + ws;
    if n > 0 {
      SubDot(ws, w, n - 1, c);
      assert wide[8 - w + n - 1] == ws[n - 1];
    }
  }

  lemma SubFits(ws: seq<uint32>, w: nat, c: nat)
    requires 1 <= w <= 8 && |ws| == w && c < w
    ensures Dot(ws, Sub(w), w, 0, w, c) + CARRY < W64
  {
    hide Dot, Sub;
    var pad: seq<uint32> := seq(8 - w, _ => 0);
    var wide: seq<uint32> := pad + ws;
    assert wide == Zeros(8 - w) + ws;
    SubDot(ws, w, w, c);
    DotSplit(wide, ENC32, 8, 0, 8 - w, 8, 8 - w + c);
    Inter32Fits(wide, 8, 8 - w + c);
  }

  /** The w+1 accumulator slots. */
  function SubInter(ws: seq<uint32>): (s: seq<nat>)
    requires 1 <= |ws| <= 8
    ensures |s| == |ws| + 1
  {
    [0] + DotRow(ws, Sub(|ws|), |ws|, 0, |ws|)
  }

  lemma SubInterValue(ws: seq<uint32>)
    requires 1 <= |ws| <= 8
    ensures ValBE(SubInter(ws), LIMB) == ValBE(ws, W32)
  {
    hide ValBE, Pow, Dot, DotRow, Sub, ENC32;
    var w := |ws|;
    SubRows(w);
    ProductValue(ws, Sub(w), w, LIMB, W32);
    ConsZero(DotRow(ws, Sub(w), w, 0, w), LIMB);
  }

  lemma SubInterFits(ws: seq<uint32>)
    requires 1 <= |ws| <= 8
    ensures AllBelow(SubInter(ws), W64 - 0x80_0000_0000)
  {
    hide Dot, Sub;
    var s := SubInter(ws);
    forall j | 0 <= j < |ws| + 1
      ensures s[j] < W64 - 0x80_0000_0000
    {
      if j > 0 {
        SubFits(ws, |ws|, j - 1);
      }
    }
  }

  /** The words of a zero-stripped value; the first takes one to four head bytes. */
  method PackWords(src: seq<byte>, w: nat) returns (words: seq<uint32>)
    requires 1 <= w && 4 * (w - 1) < |src| <= 4 * w
    ensures |words| == w && ValBE(words, W32) == Val256(src)
  {
    hide ValBE, Pow;
    var head := |src| - 4 * (w - 1);
    var top := PackHead(src, head);
    Powers256();
    PowMonotone(256, head, 4);
    words := [top];
    ValBEEmpty(W32);
    ValBESnoc([], top, W32);
    assert [] + [top as nat] == [top as nat];
    var pos, i := head, 1;
    while i < w
      invariant 1 <= i <= w && |words| == i && pos == |src| - 4 * (w - i)
      invariant ValBE(words, W32) == Val256(src[..pos])
    {
      var x := Uint32BE(src[pos], src[pos + 1], src[pos + 2], src[pos + 3]);
      Val256Step4(src, pos);
      ValBESnoc(words, x, W32);
      words := words + [x];
      pos, i := pos + 4, i + 1;
    }
    assert src[..|src|] == src;
  }

  /** acc[col+1] += words[row] * encTable32[rowBase+row][colBase+col]. */
  method SubColumns(words: seq<uint32>) returns (acc: array<uint64>)
    requires 1 <= |words| <= 8
    ensures fresh(acc) && acc[..] == SubInter(words)
  {
    hide ValBE, Dot, Sub, ENC32;
    var w := |words|;
    acc := new uint64[w + 1](_ => 0);
    assert acc[1..w + 1] == Zeros(w);
    assert ColumnsFit(acc[1..1 + w], words, Sub(w), w, 0, w) by {
      forall c | 0 <= c < w
        ensures Dot(words, Sub(w), w, 0, w, c) < W64
      {
        SubFits(words, w, c);
      }
    }
    AddCellsZero(DotRow(words, Sub(w), w, 0, w), w);
    ghost var was := acc[..];
    MulRows(words, acc, 1, Sub(w), w, 0, w, WholeRows(w, w));
    KeptBefore(was, acc[..], 1, 0, 1);
    WholePrefix(acc[..], 1, 1 + w);
    assert acc[..] == acc[..1 + w] && acc[..1] == [0];
  }

  /** encodeSmallMatrixTail for 1 to 8 words. */
  method EncodeSubmatrixTail(src: seq<byte>, out: array<byte>, lo: nat, hi: nat) returns (p: nat)
    requires src != [] && src[0] != 0 && |src| <= 32
    requires lo + EncodeVariableSize(|src|) <= hi <= out.Length
    modifies out
    ensures lo <= p <= hi && out[..lo] == old(out[..lo]) && out[hi..] == old(out[hi..])
    ensures out[p..hi] == Text(ToBE(Val256(src), 58))
  {
    hide ValBE, Pow, SubInter, Val256, IsState, EncodeVariableSize, Text, ToBE;
    var w := (|src| + 3) / 4;
    var words := PackWords(src, w);
    var acc := SubColumns(words);
    SubInterValue(words);
    SubInterFits(words);
    NonzeroStart(src);
    ValueFits(Val256(src), |src|, w + 1);
    var digits := new uint32[w + 1](_ => 0);
    var count := ColumnsToState(acc, w + 1, digits, Val256(src));
    StateFitsOutput(digits[..count], Val256(src), |src|);
    p := EncodeDigits5Tail(digits[..count], out, lo, hi, Val256(src));
  }

  // ---- four words, unrolled ----

  /** The bottom-right 4x4 triangle of encTable32 spells powers of 2^32. */
  lemma Triangle4(x0: nat, x1: nat, x2: nat, x3: nat, a1: nat, a2: nat, a3: nat, a4: nat)
    requires a1 == x0 * 280
    requires a2 == x0 * 127692781 + x1 * 42
    requires a3 == x0 * 389432875 + x1 * 537767569 + x2 * 6
    requires a4 == x0 * 357132832 + x1 * 410450016 + x2 * 356826688 + x3
    ensures ((a1 * LIMB + a2) * LIMB + a3) * LIMB + a4 == ((x0 * W32 + x1) * W32 + x2) * W32 + x3
  {
  }

  /** The triangle's entries are those of encTable32. */
  lemma Triangle4IsSubmatrix()
    ensures Sub(4) == [[280, 127692781, 389432875, 357132832], [0, 42, 537767569, 410450016],
                       [0, 0, 6, 356826688], [0, 0, 0, 1]]
  {
    Shapes();
  }

  lemma FiveLimbs(ds: seq<nat>)
    requires |ds| == 5
    ensures ValLE(ds, LIMB) == ds[0] + LIMB * (ds[1] + LIMB * (ds[2] + LIMB * (ds[3] + LIMB * ds[4])))
  {
    hide ValLE;
    assert ds[4..] == [ds[4]] + [];
    ValLECons(ds[4], [], LIMB);
    ValLEEmpty(LIMB);
    assert ds[3..] == [ds[3]] + ds[4..];
    ValLECons(ds[3], ds[4..], LIMB);
    assert ds[2..] == [ds[2]] + ds[3..];
    ValLECons(ds[2], ds[3..], LIMB);
    assert ds[1..] == [ds[1]] + ds[2..];
    ValLECons(ds[1], ds[2..], LIMB);
    assert ds == [ds[0]] + ds[1..];
    ValLECons(ds[0], ds[1..], LIMB);
  }

  method Divide(v: uint64) returns (q: uint64, r: uint32)
    ensures v == q * LIMB + r && r < LIMB
  {
    q := v / LIMB;
    r := v - q * LIMB;
  }

  /** The straight-line arithmetic of encodeSmallMatrix4Tail. */
  method FourWords(x0: uint32, x1: uint32, x2: uint32, x3: uint32) returns (digits: seq<uint32>)
    ensures |digits| == 5 && AllBelow(digits, LIMB)
    ensures ValLE(digits, LIMB) == ((x0 * W32 + x1) * W32 + x2) * W32 + x3
  {
    hide ValLE;
    var a1: uint64 := x0 * 280;
    var a2: uint64 := x0 * 127692781 + x1 * 42;
    var a3: uint64 := x0 * 389432875 + x1 * 537767569 + x2 * 6;
    var a4: uint64 := x0 * 357132832 + x1 * 410450016 + x2 * 356826688 + x3;
    Triangle4(x0, x1, x2, x3, a1, a2, a3, a4);
    digits := FourColumns(a1, a2, a3, a4);
  }

  /** The four divisions and the leading carry slot. */
  method FourColumns(a1: uint64, a2: uint64, a3: uint64, a4: uint64) returns (digits: seq<uint32>)
    requires a1 < 0x200_0000_0000 && a2 < W64 / 2 && a3 < W64 / 2
    ensures |digits| == 5 && AllBelow(digits, LIMB)
    ensures ValLE(digits, LIMB) == ((a1 * LIMB + a2) * LIMB + a3) * LIMB + a4
  {
    hide ValLE;
    var q0, d0 := Divide(a4);
    var q1, d1 := Divide(a3 + q0);
    var q2, d2 := Divide(a2 + q1);
    var q3, d3 := Divide(a1 + q2);
    digits := [d0, d1, d2, d3, q3];
    FiveLimbs(digits);
  }

  /** encodeSmallMatrix4Tail: 13 to 16 bytes. */
  method EncodeSmallMatrix4Tail(src: seq<byte>, out: array<byte>, lo: nat, hi: nat) returns (p: nat)
    requires 13 <= |src| <= 16 && src[0] != 0
    requires lo + EncodeVariableSize(|src|) <= hi <= out.Length
    modifies out
    ensures lo <= p <= hi && out[..lo] == old(out[..lo]) && out[hi..] == old(out[hi..])
    ensures out[p..hi] == Text(ToBE(Val256(src), 58))
  {
    hide ValBE, ValLE, Pow, Val256, EncodeVariableSize, Text, ToBE;
    var words := PackWords(src, 4);
    FourWordsValue(words);
    var digits := FourWords(words[0], words[1], words[2], words[3]);
    NonzeroStart(src);
    AtLeastFour(digits, src);
    var count := if digits[4] == 0 then 4 else 5;
    DropTopZeroOf(digits, Val256(src));
    StateFitsOutput(digits[..count], Val256(src), |src|);
    p := EncodeDigits5Tail(digits[..count], out, lo, hi, Val256(src));
  }

  lemma FourWordsValue(ws: seq<nat>)
    requires |ws| == 4
    ensures ValBE(ws, W32) == ((ws[0] * W32 + ws[1]) * W32 + ws[2]) * W32 + ws[3]
  {
    hide ValBE;
    NoDigits(ws, W32);
    ValBEStep4(ws, 0, W32);
    assert ws[..4] == ws;
  }

  /** Thirteen bytes need at least four limbs. */
  lemma AtLeastFour(ds: seq<nat>, src: seq<byte>)
    requires |ds| == 5 && AllBelow(ds, LIMB) && ValLE(ds, LIMB) == Val256(src)
    requires |src| >= 13 && src[0] != 0
    ensures ds[4] == 0 ==> ds[3] != 0
  {
    hide ValLE, ValBE, Pow;
    if ds[4] == 0 && ds[3] == 0 {
      DropTopZero(ds);
      DropTopZero(ds[..4]);
      assert ds[..4][..3] == ds[..3];
      ValLEBound(ds[..3], LIMB);
      ValBELower(src, 256);
      PowMonotone(256, 12, |src| - 1);
      TwelveBytes();
    }
  }

  lemma TwelveBytes()
    ensures Pow(LIMB, 3) < Pow(256, 12)
  {
    PowOne();
    Powers256();
    hide Pow;
    PowAdd(LIMB, 1, 1);
    PowAdd(LIMB, 2, 1);
    PowAdd(256, 4, 4);
    PowAdd(256, 8, 4);
  }

  lemma DropTopZeroOf(ds: seq<nat>, V: nat)
    requires |ds| == 5 && AllBelow(ds, LIMB) && ValLE(ds, LIMB) == V
    requires ds[4] == 0 ==> ds[3] != 0
    ensures IsState(ds[..if ds[4] == 0 then 4 else 5], V)
  {
    hide ValLE;
    if ds[4] == 0 {
      DropTopZero(ds);
    } else {
      assert ds[..5] == ds;
    }
  }

  /** encodeSmallMatrixTail: four words take the unrolled path. */
  method EncodeSmallMatrixTail(src: seq<byte>, out: array<byte>, lo: nat, hi: nat) returns (p: nat)
    requires src != [] && src[0] != 0 && |src| <= 32
    requires lo + EncodeVariableSize(|src|) <= hi <= out.Length
    modifies out
    ensures lo <= p <= hi && out[..lo] == old(out[..lo]) && out[hi..] == old(out[hi..])
    ensures out[p..hi] == Text(ToBE(Val256(src), 58))
  {
    hide ValBE, Val256, EncodeVariableSize, Text, ToBE;
    if (|src| + 3) / 4 == 4 {
      p := EncodeSmallMatrix4Tail(src, out, lo, hi);
    } else {
      p := EncodeSubmatrixTail(src, out, lo, hi);
    }
  }

  // ---- the padded form ----

  /** encodeMatrixTail: right-aligned in 32 or 64 zero bytes. */
  method EncodeMatrixTail(src: seq<byte>, out: array<byte>, lo: nat, hi: nat, bounds: seq<(nat, nat)>) returns (p: nat)
    requires src != [] && src[0] != 0 && |src| <= 64 && TableBounds(ENC64, bounds)
    requires lo + EncodeVariableSize(|src|) <= hi <= out.Length
    modifies out
    ensures lo <= p <= hi && out[..lo] == old(out[..lo]) && out[hi..] == old(out[hi..])
    ensures out[p..hi] == Text(ToBE(Val256(src), 58))
  {
    hide ValBE, Pow, Val256, TableBounds, IsState, EncodeVariableSize, Text, ToBE;
    var digits := new uint32[18](_ => 0);
    var count;
    if |src| <= 32 {
      Val256LeadingZeros(32 - |src|, src);
      count := EncodeBlock32(Repeat(0, 32 - |src|) + src, digits);
    } else {
      Val256LeadingZeros(64 - |src|, src);
      count := EncodeBlock64(Repeat(0, 64 - |src|) + src, digits, bounds);
    }
    NonzeroStart(src);
    StateFitsOutput(digits[..count], Val256(src), |src|);
    p := EncodeDigits5Tail(digits[..count], out, lo, hi, Val256(src));
  }
}
