/** The size-tiered encoders and their dispatch (encode.go, large.go): whichever
    tier an input falls into, the result is Base58.Encoding. */
module Encode {
  import opened Radix
  import opened Sequences
  import opened Words
  import opened Alphabet
  import opened Base58
  import opened Chars
  import opened Tables
  import opened Matrix
  import opened Division
  import opened BlockRadix
  import opened SmallMatrix
  import opened Slices
  import opened Fixed

  const LARGE_ENCODE: nat := 32768

  // ---- encodeLargeTail ----

  /** The character math/big uses for a digit: 0-9, a-z, A-Z. */
  function BigChar(d: nat): (c: byte)
    requires d < 58
  {
    if d < 10 then 48 + d else if d < 36 then 97 + (d - 10) else 65 + (d - 36)
  }

  /** The switch that maps it back to the digit. */
  function BigDigit(c: byte): int {
    if c <= 57 then c - 48 else if c >= 97 then c - 97 + 10 else c - 65 + 36
  }

  lemma BigDigitOfChar(d: nat)
    requires d < 58
    ensures BigDigit(BigChar(d)) == d
  {
  }

  /** big.Int.Append(out[:0], 58): the canonical digits in math/big's alphabet. */
  method BigAppend58(v: nat, out: array<byte>, lo: nat, hi: nat) returns (n: nat)
    requires lo + |ToBE(v, 58)| <= hi <= out.Length
    modifies out
    ensures n == |ToBE(v, 58)| && out[..lo] == old(out[..lo]) && out[hi..] == old(out[hi..])
    ensures forall k :: lo <= k < lo + n ==> out[k] == BigChar(ToBE(v, 58)[k - lo])
  {
    hide ToBE, BigChar;
    var ds := ToBE(v, 58);
    n := |ds|;
    for i := 0 to n
      invariant out[..lo] == old(out[..lo]) && out[hi..] == old(out[hi..])
      invariant forall k :: lo <= k < lo + i ==> out[k] == BigChar(ds[k - lo])
    {
      out[lo + i] := BigChar(ds[i]);
    }
  }

  /** digits[i] = base58Chars[digit of c], in place. */
  method Remap(out: array<byte>, lo: nat, hi: nat, n: nat, ghost ds: seq<nat>)
    requires lo + n <= hi <= out.Length && |ds| == n && AllBelow(ds, 58)
    requires forall k :: lo <= k < lo + n ==> out[k] == BigChar(ds[k - lo])
    modifies out
    ensures out[..lo] == old(out[..lo]) && out[hi..] == old(out[hi..])
    ensures out[lo..lo + n] == Text(ds)
  {
    hide BigChar, Char, BigDigit;
    for i := 0 to n
      invariant out[..lo] == old(out[..lo]) && out[hi..] == old(out[hi..])
      invariant forall k :: lo <= k < lo + i ==> out[k] == Char(ds[k - lo])
      invariant forall k :: lo + i <= k < lo + n ==> out[k] == BigChar(ds[k - lo])
    {
      BigDigitOfChar(ds[i]);
      assert out[lo + i] == BigChar(ds[lo + i - lo]);
      out[lo + i] := Char(BigDigit(out[lo + i]));
    }
    SliceIs(out[..], lo, Text(ds));
  }

  /** encodeLargeTail: remap math/big's digits in place and move them to the end. */
  method EncodeLargeTail(src: seq<byte>, out: array<byte>, lo: nat, hi: nat) returns (p: nat)
    requires src != [] && src[0] != 0
    requires lo + EncodeVariableSize(|src|) <= hi <= out.Length
    modifies out
    ensures lo <= p <= hi && out[..lo] == old(out[..lo]) && out[hi..] == old(out[hi..])
    ensures out[p..hi] == Text(ToBE(Val256(src), 58))
  {
    hide ToBE, Val256, BigChar, Char, EncodeVariableSize, Pow, Text;
    var value := Val256(src);
    NonzeroStart(src);
    TextFitsOutput(value, |src|);
    var n := BigAppend58(value, out, lo, hi);
    ghost var ds := ToBE(value, 58);
    Remap(out, lo, hi, n, ds);
    p := hi - n;
    ghost var before := out[..];
    CopyInto(out[lo..lo + n], out, p);
    KeptBefore(before, out[..], p, lo, lo);
  }

  lemma TextFitsOutput(v: nat, nz: nat)
    requires 0 < v < Pow(256, nz)
    ensures |ToBE(v, 58)| <= EncodeVariableSize(nz)
  {
    hide Pow, ToBE, EncodeVariableSize;
    ToBELength(v, 58);
    RoomForBlock(v, nz, |ToBE(v, 58)| - 1, 1);
  }

  // ---- encodePaddedFixedTail ----

  lemma PaddedEncoding(src: seq<byte>, pad: nat)
    requires src != [] && src[0] != 0
    ensures var s := Encoding(Repeat(0, pad) + src);
            pad <= |s| && s[pad..] == Text(ToBE(Val256(src), 58))
  {
    hide ValBE, ToBE, Leading, Text;
    LeadingSplit(0, pad, src);
    Val256LeadingZeros(pad, src);
  }

  /** encodePaddedFixedTail: the 64-byte encoder on the zero-padded input, one character
      dropped per padding byte, the rest copied to the end of out. */
  method PaddedFixedTail(src: seq<byte>, out: array<byte>, lo: nat, hi: nat, bounds: seq<(nat, nat)>) returns (p: nat)
    requires src != [] && src[0] != 0 && |src| <= 64 && TableBounds(ENC64, bounds)
    requires lo + EncodeVariableSize(|src|) <= hi <= out.Length
    modifies out
    ensures lo <= p <= hi && out[..lo] == old(out[..lo]) && out[hi..] == old(out[hi..])
    ensures out[p..hi] == Text(ToBE(Val256(src), 58))
  {
    hide Encoding, Val256, ToBE, Text, EncodeVariableSize, TableBounds, Pow;
    var pad := 64 - |src|;
    var padded := new byte[64](_ => 0);
    CopyInto(src, padded, pad);
    assert padded[..] == Repeat(0, pad) + src;
    var encoded := Encode64(padded[..], bounds);
    PaddedEncoding(src, pad);
    encoded := encoded[pad..];
    NonzeroStart(src);
    TextFitsOutput(Val256(src), |src|);
    p := hi - |encoded|;
    ghost var before := out[..];
    CopyInto(encoded, out, p);
    KeptBefore(before, out[..], p, lo, lo);
  }

  // ---- dispatch ----

  /** encodeTail: the width-appropriate digit generator. */
  method EncodeTail(b: seq<byte>, out: array<byte>, lo: nat, hi: nat, bounds: seq<(nat, nat)>) returns (p: nat)
    requires b != [] && b[0] != 0 && TableBounds(ENC64, bounds)
    requires lo + EncodeVariableSize(|b|) <= hi <= out.Length
    modifies out
    ensures lo <= p <= hi && out[..lo] == old(out[..lo]) && out[hi..] == old(out[hi..])
    ensures out[p..hi] == Text(ToBE(Val256(b), 58))
  {
    hide ToBE, Val256, EncodeVariableSize, TableBounds;
    if |b| >= LARGE_ENCODE {
      p := EncodeLargeTail(b, out, lo, hi);
    } else if |b| <= 8 {
      p := EncodeSmallTail(b, out, lo, hi);
    } else if |b| <= 32 {
      p := EncodeSmallMatrixTail(b, out, lo, hi);
    } else if |b| <= 64 {
      p := EncodeMatrixTail(b, out, lo, hi, bounds);
    } else {
      p := EncodeBlockTail(b, out, lo, hi, bounds);
    }
  }

  lemma AllZeroEncoding(b: seq<byte>)
    requires Leading(b, 0) == |b|
    ensures Encoding(b) == Repeat(ONE, |b|)
  {
    StripZeros(b);
    Val256Empty();
    ZeroText();
  }

  lemma StrippedEncoding(b: seq<byte>)
    ensures Encoding(b) == Repeat(ONE, Leading(b, 0)) + Text(ToBE(Val256(b[Leading(b, 0)..]), 58))
  {
    StripZeros(b);
  }

  /** for range zcount { p--; out[p] = '1' }. */
  method PrependOnes(out: array<byte>, from: nat, zcount: nat) returns (p: nat)
    requires zcount <= from <= out.Length
    modifies out
    ensures p == from - zcount && out[p..] == Repeat(ONE, zcount) + old(out[from..])
  {
    p := from;
    var k := 0;
    while k < zcount
      invariant k <= zcount && p == from - k
      invariant forall j :: p <= j < from ==> out[j] == ONE
      invariant out[from..] == old(out[from..])
    {
      p := p - 1;
      out[p] := ONE;
      k := k + 1;
    }
    assert out[p..] == out[p..from] + out[from..];
    assert out[p..from] == Repeat(ONE, zcount);
  }

  /** encodeVariable. */
  method EncodeVariable(bin: seq<byte>, bounds: seq<(nat, nat)>) returns (s: seq<byte>)
    requires TableBounds(ENC64, bounds)
    ensures s == Encoding(bin)
  {
    hide Encoding, ToBE, Val256, EncodeVariableSize, TableBounds, Text;
    var zcount := CountLeading(bin, 0);
    var nz := |bin| - zcount;
    if nz == 0 {
      AllZeroEncoding(bin);
      return Repeat(ONE, zcount);
    }
    var total := zcount + EncodeVariableSize(nz);
    var out := new byte[total](_ => 0);
    var p := EncodeTail(bin[zcount..], out, zcount, total, bounds);
    ghost var text := out[p..];
    assert out[p..total] == text;
    p := PrependOnes(out, p, zcount);
    StrippedEncoding(bin);
    s := out[p..];
  }

  /** Encode. */
  method EncodeBytes(buf: seq<byte>, bounds: seq<(nat, nat)>) returns (s: seq<byte>)
    requires TableBounds(ENC64, bounds)
    ensures s == Encoding(buf)
    ensures Valid(s) && Leading(s, ONE) == Leading(buf, 0) && Val58(s) == Val256(buf)
  {
    hide Encoding, TableBounds, Valid, Leading, Val58, Val256;
    EncodingIsValid(buf);
    if |buf| == 0 {
      EmptyEncoding();
      s := [];
    } else if |buf| == 32 {
      s := Encode32(buf);
    } else if |buf| == 64 {
      s := Encode64(buf, bounds);
    } else {
      s := EncodeVariable(buf, bounds);
    }
  }

  lemma EmptyEncoding()
    ensures Encoding([]) == []
  {
    AllZeroEncoding([]);
  }

  /** How far past the end of dst AppendEncode may write: up to the end of the encoding,
      or to the end of the room it is rendered in before it is moved down. */
  function Reach(src: seq<byte>): nat {
    var zcount := Leading(src, 0);
    if zcount == |src| || |src| == 32 || |src| == 64 then |Encoding(src)|
    else zcount + EncodeVariableSize(|src| - zcount)
  }

  /** At most 20 characters more than 1.38 times the input. */
  lemma ReachBound(src: seq<byte>)
    ensures |Encoding(src)| <= Reach(src)
    ensures 100 * Reach(src) <= 138 * |src| + 2000
  {
    hide Encoding, Val256, ToBE, Pow, Leading;
    EncodingLength(src);
    if src == [] {
      EmptyEncoding();
    }
    var t := src[Leading(src, 0)..];
    if t != [] {
      StripZeros(src);
      NonzeroStart(t);
      TextFitsOutput(Val256(t), |t|);
    }
  }

  /** AppendEncode: the tail is rendered at the end of the grown slice and then
      compacted onto what was there before. */
  method AppendEncode(dst: Slice, src: seq<byte>, bounds: seq<(nat, nat)>) returns (r: Slice)
    requires dst.Valid() && TableBounds(ENC64, bounds)
    modifies dst.buf
    ensures r.Valid() && r.Contents() == old(dst.Contents()) + Encoding(src)
    ensures if dst.len + Reach(src) <= dst.buf.Length then r.buf == dst.buf else fresh(r.buf)
    ensures dst.buf[..dst.len] == old(dst.buf[..dst.len])
    ensures forall k :: dst.len + Reach(src) <= k < dst.buf.Length ==> dst.buf[k] == old(dst.buf[k])
  {
    hide Encoding, TableBounds;
    if |src| == 0 {
      EmptyEncoding();
      return dst;
    }
    if |src| == 32 {
      r := AppendEncode32(dst, src);
      return;
    }
    if |src| == 64 {
      r := AppendEncode64(dst, src, bounds);
      return;
    }
    r := AppendVariable(dst, src, bounds);
  }

  /** The rest of AppendEncode: '1's one by one, then the tail. */
  method AppendVariable(dst: Slice, src: seq<byte>, bounds: seq<(nat, nat)>) returns (r: Slice)
    requires dst.Valid() && TableBounds(ENC64, bounds) && |src| != 32 && |src| != 64
    modifies dst.buf
    ensures r.Valid() && r.Contents() == old(dst.Contents()) + Encoding(src)
    ensures if dst.len + Reach(src) <= dst.buf.Length then r.buf == dst.buf else fresh(r.buf)
    ensures SameOutside(old(dst.buf[..]), dst.buf[..], dst.len, dst.len + Reach(src))
  {
    hide Encoding, ToBE, Val256, EncodeVariableSize, TableBounds, Text, Leading;
    ghost var was := dst.Contents();
    var zcount := CountLeading(src, 0);
    var nz := |src| - zcount;
    r := AppendRepeated(dst, ONE, zcount);
    if nz == 0 {
      AllZeroEncoding(src);
      return;
    }
    ghost var prefix, ones := r.Contents(), dst.buf[..];
    assert r.len == |prefix|;
    StrippedAppend(was, src);
    r := AppendTail(r, src[zcount..], bounds);
    OutsideBoth(old(dst.buf[..]), ones, dst.buf[..], dst.len, dst.len + zcount, dst.len + Reach(src));
  }

  lemma StrippedAppend(was: seq<byte>, src: seq<byte>)
    ensures was + Encoding(src)
         == was + Repeat(ONE, Leading(src, 0)) + Text(ToBE(Val256(src[Leading(src, 0)..]), 58))
  {
    hide Encoding, ToBE, Val256, Text, Leading, Repeat;
    StrippedEncoding(src);
    var ones, text := Repeat(ONE, Leading(src, 0)), Text(ToBE(Val256(src[Leading(src, 0)..]), 58));
    assert was + (ones + text) == was + ones + text;
  }

  /** Grow, encode at the end, move down over the unused front. */
  method AppendTail(dst: Slice, b: seq<byte>, bounds: seq<(nat, nat)>) returns (r: Slice)
    requires dst.Valid() && b != [] && b[0] != 0 && TableBounds(ENC64, bounds)
    modifies dst.buf
    ensures r.Valid() && r.Contents() == old(dst.Contents()) + Text(ToBE(Val256(b), 58))
    ensures if dst.len + EncodeVariableSize(|b|) <= dst.buf.Length then r.buf == dst.buf else fresh(r.buf)
    ensures SameOutside(old(dst.buf[..]), dst.buf[..], dst.len, dst.len + EncodeVariableSize(|b|))
  {
    hide Encoding, ToBE, Val256, EncodeVariableSize, TableBounds, Text;
    ghost var was := dst.Contents();
    var start := dst.len;
    var g := Extend(dst, EncodeVariableSize(|b|));
    assert g.buf[..start] == was;
    var n;
    n := EncodeAtEnd(g.buf, start, g.len, b, bounds);
    r := Slice(g.buf, start + n);
    WholePrefix(r.buf[..], start, start + n);
    if g.buf == dst.buf {
      OutsideParts(old(dst.buf[..]), dst.buf[..], start, g.len);
    }
  }

  /** encodeTail on dst[start:end] followed by the in-place compaction. */
  method EncodeAtEnd(buf: array<byte>, start: nat, end: nat, b: seq<byte>, bounds: seq<(nat, nat)>)
    returns (n: nat)
    requires b != [] && b[0] != 0 && TableBounds(ENC64, bounds)
    requires start + EncodeVariableSize(|b|) == end <= buf.Length
    modifies buf
    ensures start + n <= end && buf[..start] == old(buf[..start]) && buf[end..] == old(buf[end..])
    ensures buf[start..start + n] == Text(ToBE(Val256(b), 58))
  {
    hide Encoding, ToBE, Val256, EncodeVariableSize, TableBounds, Text;
    var p := EncodeTail(b, buf, start, end, bounds);
    n := end - p;
    ghost var before := buf[..];
    CopyInto(buf[p..end], buf, start);
    KeptAfter(before, buf[..], start + n, end, end);
  }
}
