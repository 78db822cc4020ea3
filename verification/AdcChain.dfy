/** The scalar end of the fused 32- and 64-byte decoders (decode_fused_amd64.s): the
    add-with-carry output chain, its too-large verdict and the shortcut around the
    leading-zero check. */
module AdcChain {
  import opened Radix
  import opened Words
  import opened Alphabet
  import opened Base58
  import opened BigEndian
  import opened Matrix
  import opened Carry
  import opened DecodeFixed

  /** ADCL: 32-bit add with the carry flag in and out. */
  function Adc(x: uint32, y: uint32, cf: nat): (r: (uint32, nat))
    requires cf <= 1
    ensures r.0 + r.1 * W32 == x + y + cf && r.1 <= 1
  {
    if x + y + cf < W32 then (x + y + cf, 0) else (x + y + cf - W32, 1)
  }

  function Low(x: uint64): (w: uint32) {
    x % W32
  }

  function High(x: uint64): (w: uint32)
    ensures x == w * W32 + Low(x)
  {
    x / W32
  }

  /** A word stored at byte 4*k in front of what is already written; m words follow. */
  method StoreWord(dst: array<byte>, k: nat, m: nat, w: uint32)
    requires dst.Length == 4 * (k + 1 + m)
    modifies dst
    ensures Val256(dst[4 * k..]) == w * Pow(W32, m) + old(Val256(dst[4 * k + 4..]))
  {
    hide Val256, Pow;
    ghost var before := dst[..];
    var end := dst.Length;
    Powers256();
    PrependBytes(dst, 4 * k + 4, 4, w, end);
    WordsPower(m);
    AppendValue(dst[4 * k..4 * k + 4], before[4 * k + 4..end]);
    assert before[4 * k + 4..end] == before[4 * k + 4..] && dst[4 * k..end] == dst[4 * k..];
  }

  lemma AppendValue(s: seq<byte>, t: seq<byte>)
    ensures Val256(s + t) == Val256(s) * Pow(256, |t|) + Val256(t)
  {
    ValBEAppend(s, t, 256);
  }

  /** The words after k are written, worth D; the high half of the next column and the
      carry flag go into word k. */
  ghost predicate Adding(bin: seq<uint64>, k: nat, cf: nat, D: nat, V: nat) {
    k + 1 < |bin| && cf <= 1
    && Carried(W32, bin, k, bin[k] + (High(bin[k + 1]) + cf), |bin| - 1 - k, D) == V
  }

  lemma AddingStart(bin: seq<uint64>, V: nat)
    requires |bin| >= 2 && ValBE(bin, W32) == V
    ensures Adding(bin, |bin| - 2, 0, Low(bin[|bin| - 1]) * Pow(W32, 0), V)
  {
    hide ValBE, Pow, Carried, High, Low;
    var n := |bin| - 1;
    CarriedStart(W32, bin);
    CarriedStep(W32, bin, n, bin[n], High(bin[n]), Low(bin[n]), 0, 0);
  }

  lemma AddingStep(bin: seq<uint64>, k: nat, cf: nat, D: nat, V: nat, sum: uint32, out: nat)
    requires k >= 1 && Adding(bin, k, cf, D, V) && out <= 1
    requires sum + out * W32 == Low(bin[k]) + High(bin[k + 1]) + cf
    ensures Adding(bin, k - 1, out, sum * Pow(W32, |bin| - 1 - k) + D, V)
  {
    hide ValBE, Pow, Carried, High, Low;
    CarriedStep(W32, bin, k, bin[k] + (High(bin[k + 1]) + cf), High(bin[k]) + out, sum, |bin| - 1 - k, D);
  }

  lemma AddingEnd(bin: seq<uint64>, cf: nat, D: nat, V: nat, sum: uint32, out: nat)
    requires Adding(bin, 0, cf, D, V)
    requires sum + out * W32 == Low(bin[0]) + High(bin[1]) + cf
    ensures V == (High(bin[0]) + out) * Pow(W32, |bin|) + (sum * Pow(W32, |bin| - 1) + D)
  {
    hide ValBE, Pow, Carried, High, Low;
    var m, q := |bin| - 1, High(bin[0]) + out;
    CarriedEnd(W32, bin, bin[0] + (High(bin[1]) + cf), m, D);
    PowNext(W32, m);
    Distribute2(q, W32, sum, Pow(W32, m));
  }

  /** MOVL lo(bin[n-1]); then lo(bin[k]) ADCL hi(bin[k+1]) for k = n-2..0; then
      hi(bin[0]) ADCL $0 into ax. */
  method Chain(bin: seq<uint64>, dst: array<byte>, ghost V: nat) returns (ax: uint32)
    requires |bin| >= 2 && dst.Length == 4 * |bin|
    requires AllBelow(bin, W64 - W32) && ValBE(bin, W32) == V
    modifies dst
    ensures V == ax * Pow(W32, |bin|) + Val256(dst[..])
  {
    hide ValBE, Val256, Pow, Carried, High, Low, Adding;
    var n := |bin|;
    AddingStart(bin, V);
    Val256Empty();
    assert dst[4 * n..] == [];
    StoreWord(dst, n - 1, 0, Low(bin[n - 1]));
    var cf: nat := 0;
    var k := n - 2;
    while k >= 1
      invariant 0 <= k <= n - 2 && cf <= 1 && Adding(bin, k, cf, Val256(dst[4 * k + 4..]), V)
    {
      ghost var D := Val256(dst[4 * k + 4..]);
      var sum := Adc(Low(bin[k]), High(bin[k + 1]), cf);
      AddingStep(bin, k, cf, D, V, sum.0, sum.1);
      StoreWord(dst, k, n - 1 - k, sum.0);
      cf := sum.1;
      k := k - 1;
    }
    var sum := Adc(Low(bin[0]), High(bin[1]), cf);
    AddingEnd(bin, cf, Val256(dst[4..]), V, sum.0, sum.1);
    StoreWord(dst, 0, n - 1, sum.0);
    assert dst[0..] == dst[..];
    ax := NoWrap(bin[0], sum.1);
  }

  /** ADCL $0: with bin[0] that small the sum cannot wrap to zero. */
  method NoWrap(top: uint64, cf: nat) returns (ax: uint32)
    requires top < W64 - W32 && cf <= 1
    ensures ax == High(top) + cf
  {
    var sum := Adc(High(top), 0, cf);
    ax := sum.0;
  }

  /** Same verdict and same bytes as the portable WriteColumns. */
  method FusedWrite(bin: seq<uint64>, dst: array<byte>, ghost V: nat) returns (ok: bool)
    requires |bin| >= 2 && dst.Length == 4 * |bin|
    requires AllBelow(bin, W64 - W32) && ValBE(bin, W32) == V
    modifies dst
    ensures ok <==> V < Pow(256, dst.Length)
    ensures ok ==> dst[..] == Bytes(FixedBE(V, dst.Length, 256))
  {
    hide ValBE, Val256, Pow, FixedBE, Bytes;
    var ax := Chain(bin, dst, V);
    Verdict(ax, dst[..], V, |bin|);
    ok := ax == 0;
  }

  lemma Verdict(ax: nat, out: seq<byte>, V: nat, n: nat)
    requires |out| == 4 * n && V == ax * Pow(W32, n) + Val256(out)
    ensures ax == 0 <==> V < Pow(256, |out|)
    ensures ax == 0 ==> out == Bytes(FixedBE(V, |out|, 256))
  {
    hide ValBE, Pow, FixedBE, Bytes;
    WordsPower(n);
    Val256Prefix(out, |out|);
    assert out[..|out|] == out;
    if ax == 0 {
      NothingTimes(W32, n);
      AllBytes(out, V);
    } else {
      MulMonotone(1, ax, Pow(W32, n));
    }
  }

  /** The columns the vector code of the 32- or the 64-byte kernel leaves for the limbs
      of a string. */
  ghost predicate KernelColumns(bin: seq<nat>, inter: seq<nat>, bytes: nat) {
    AllBelow(inter, LIMB)
    && ((bytes == 32 && |inter| == 9 && bin == Bin32(inter)) || (bytes == 64 && |inter| == 18 && bin == Bin64(inter)))
  }

  lemma KernelFits(bin: seq<nat>, inter: seq<nat>, bytes: nat)
    requires KernelColumns(bin, inter, bytes)
    ensures 4 * |bin| == bytes && |bin| >= 2
    ensures AllBelow(bin, W64 - W32) && ValBE(bin, W32) == ValBE(inter, LIMB)
  {
    hide ValBE;
    if bytes == 32 {
      hide Bin32;
      BinColumns32(inter);
    } else {
      hide Bin64;
      BinColumns64(inter);
    }
  }

  /** From the vector code's columns to the result of Decode32 or Decode64: the chain,
      the verdict, and the leading-zero check unless neither side starts with a zero. */
  method Finish(s: seq<byte>, bin: seq<uint64>, dst: array<byte>, maxLen: nat, ghost inter: seq<nat>)
    returns (r: Outcome)
    requires 1 <= |s| <= maxLen && Valid(s)
    requires KernelColumns(bin, inter, dst.Length) && ValBE(inter, LIMB) == Val58(s)
    modifies dst
    ensures Decoded(r, dst[..], s, dst.Length, maxLen)
    ensures r == Failed(ValueTooLarge) <==> Val58(s) >= Pow(256, dst.Length)
    ensures r == Failed(LeadingZeros) <==>
      Val58(s) < Pow(256, dst.Length) && Leading(s, ONE) != dst.Length - |ToBE(Val58(s), 256)|
    ensures r == Done <==> Val58(s) < Pow(256, dst.Length) && Leading(s, ONE) == dst.Length - |ToBE(Val58(s), 256)|
    ensures r == Done ==> s == Encoding(dst[..])
  {
    hide ValBE, Val58, Pow, FixedBE, KernelColumns, Valid, Leading, Encoding, ToBE;
    FixedErrors(s, dst.Length, maxLen);
    KernelFits(bin, inter, dst.Length);
    var ok := FusedWrite(bin, dst, Val58(s));
    if !ok {
      return Failed(ValueTooLarge);
    }
    if s[0] == ONE || dst[0] == 0 {
      r := ValidateLeadingZeros(s, dst[..]);
    } else {
      LeadingUnique(s, ONE, 0);
      LeadingUnique(dst[..], 0, 0);
      r := Done;
    }
  }
}
