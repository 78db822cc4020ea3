/** The 32- and 64-byte encoders (encode.go): carry, render, and drop the padding
    either by arithmetic on the top limb or by scanning for '1's. */
module Fixed {
  import opened Radix
  import opened Sequences
  import opened Words
  import opened Alphabet
  import opened Base58
  import opened Sizes
  import opened Chars
  import opened Tables
  import opened Matrix
  import opened Carry
  import opened Slices

  // ---- how long an encoding is ----

  lemma LengthUnique(v: nat, d: nat)
    requires d >= 1 && Pow(58, d - 1) <= v < Pow(58, d)
    ensures |ToBE(v, 58)| == d
  {
    PowPositive(58, d - 1);
    ToBELength(v, 58);
    hide Pow, ToBE;
    PowInjective(58, d - 1, |ToBE(v, 58)|);
    PowInjective(58, |ToBE(v, 58)| - 1, d);
  }

  lemma ZeroText()
    ensures ToBE(0, 58) == []
  {
  }

  lemma StrippedLength(t: seq<byte>)
    requires t != [] && t[0] != 0
    ensures |t| <= |ToBE(Val256(t), 58)|
    ensures 8 * (|ToBE(Val256(t), 58)| - 1) < 11 * |t|
  {
    hide Pow, ValBE, ToBE;
    var d := |ToBE(Val256(t), 58)|;
    NonzeroStart(t);
    ToBELength(Val256(t), 58);
    EncodedDigits(Val256(t), d - 1, |t|);
    ValBELower(t, 256);
    PowBaseMonotone(58, 256, |t| - 1);
    PowInjective(58, |t| - 1, d);
  }

  /** n bytes encode to at least n characters and fewer than 1.375 n + 1. */
  lemma EncodingLength(b: seq<byte>)
    ensures |b| <= |Encoding(b)|
    ensures b != [] ==> 8 * (|Encoding(b)| - 1) < 11 * |b|
    ensures |Encoding(b)| == Leading(b, 0) + |ToBE(Val256(b), 58)|
  {
    hide Val256, ToBE, Leading;
    var z := Leading(b, 0);
    var t := b[z..];
    StripZeros(b);
    if t == [] {
      Val256Empty();
      ZeroText();
    } else {
      StrippedLength(t);
    }
  }

  // ---- padded text ----

  /** A text of V is the canonical text behind '1's. */
  lemma PaddedChars(raw: seq<byte>, V: nat)
    requires Spells(raw, V) && |ToBE(V, 58)| <= |raw|
    ensures raw == Repeat(ONE, |raw| - |ToBE(V, 58)|) + Text(ToBE(V, 58))
  {
    hide Pow, ValBE, ToBE;
    var ds := ToBE(V, 58);
    var pad := |raw| - |ds|;
    ValBELeadingZeros(pad, ds, 58);
    SameLengthUnique(Digits(raw), Zeros(pad) + ds, 58);
    forall i | 0 <= i < |raw|
      ensures raw[i] == if i < pad then ONE else Char(ds[i - pad])
    {
      assert Digits(raw)[i] == if i < pad then 0 else ds[i - pad];
    }
  }

  /** Dropping all but one '1' per leading zero byte from it gives the encoding. */
  lemma PaddedText(raw: seq<byte>, b: seq<byte>, V: nat)
    requires Spells(raw, V) && V == Val256(b) && |Encoding(b)| <= |raw|
    ensures raw[|raw| - |Encoding(b)|..] == Encoding(b)
    ensures |ToBE(V, 58)| <= |raw|
    ensures forall i :: 0 <= i < |raw| - |ToBE(V, 58)| ==> raw[i] == ONE
    ensures V > 0 ==> raw[|raw| - |ToBE(V, 58)|] != ONE
  {
    hide Val256, ToBE, Spells, Text, Repeat, Leading;
    EncodingLength(b);
    PaddedChars(raw, V);
    if V > 0 {
      TextStart(V);
    }
    DropOnes(|raw| - |ToBE(V, 58)|, Leading(b, 0), Text(ToBE(V, 58)));
  }

  lemma TextStart(v: nat)
    requires v > 0
    ensures var t := Text(ToBE(v, 58)); t != [] && t[0] != ONE
  {
    hide ToBE;
    var ds := ToBE(v, 58);
    assert Text(ds)[0] == Char(ds[0]);
  }

  lemma DropOnes(m: nat, k: nat, t: seq<byte>)
    requires k <= m
    ensures (Repeat(ONE, m) + t)[m - k..] == Repeat(ONE, k) + t
    ensures forall i :: 0 <= i < m ==> (Repeat(ONE, m) + t)[i] == ONE
    ensures t != [] ==> (Repeat(ONE, m) + t)[m] == t[0]
  {
    hide Repeat;
    var s := Repeat(ONE, m) + t;
    forall i | 0 <= i < k + |t|
      ensures s[m - k..][i] == (Repeat(ONE, k) + t)[i]
    {
      assert s[m - k..][i] == s[m - k + i];
    }
  }

  /** The digit count computed from the top limb alone. */
  lemma TopLimbLength(top: uint32, m: nat, low: nat, V: nat)
    requires 0 < top < LIMB && low < Pow(LIMB, m) && V == top * Pow(LIMB, m) + low
    ensures |ToBE(V, 58)| == DigitCount5(top) + 5 * m
  {
    hide Pow, ToBE, DigitCount5;
    DigitCount5IsLength(top);
    ToBELength(top, 58);
    var d := DigitCount5(top);
    LimbPower(m);
    PowAdd(58, d - 1, 5 * m);
    PowAdd(58, d, 5 * m);
    MulMonotone(Pow(58, d - 1), top, Pow(LIMB, m));
    BoundStep(top, Pow(58, d), Pow(LIMB, m), low);
    assert Pow(LIMB, m) * Pow(58, d) == Pow(58, d) * Pow(LIMB, m);
    LengthUnique(V, d + 5 * m);
  }

  /** for _, b := range src { if b != 0 { break }; n++ }. */
  method CountLeading(src: seq<byte>, x: byte) returns (n: nat)
    ensures n == Leading(src, x)
  {
    n := 0;
    while n < |src| && src[n] == x
      invariant n <= |src| && forall i :: 0 <= i < n ==> src[i] == x
    {
      n := n + 1;
    }
    LeadingUnique(src, x, n);
  }

  // ---- encode32Render ----

  /** The top non-zero limb found so far: limb iz is top, the limbs done above it
      are zero. */
  ghost predicate TopFound(iz: nat, top: nat, D: nat, n: nat) {
    if iz == n then D == 0
    else iz < n && 0 < top < LIMB
         && top * Pow(LIMB, n - 1 - iz) <= D < top * Pow(LIMB, n - 1 - iz) + Pow(LIMB, n - 1 - iz)
  }

  lemma TopFoundStep(iz: nat, top: nat, D: nat, n: nat, i: nat, r: nat)
    requires TopFound(iz, top, D, n) && i < iz <= n && r < LIMB && D < Pow(LIMB, n - 1 - i)
    ensures TopFound(if r != 0 then i else iz, if r != 0 then r else top, r * Pow(LIMB, n - 1 - i) + D, n)
  {
    hide Pow;
    if r == 0 {
      assert r * Pow(LIMB, n - 1 - i) == 0;
    }
  }

  /** Limb r above m limbs worth D. */
  ghost function Above(r: nat, m: nat, D: nat): nat {
    r * Pow(LIMB, m) + D
  }

  lemma PrependLimb(five: seq<byte>, r: nat, rest: seq<byte>, m: nat, D: nat)
    requires Spells5(five, r) && Spells(rest, D) && |rest| == 5 * m
    ensures Spells(five + rest, Above(r, m, D))
    ensures D < Pow(LIMB, m)
  {
    LimbPower(m);
    PrependFive(five, r, rest, D);
    Val58Bound(rest);
  }

  /** extractChars5(r, raw[at:at+5]) in front of the m groups already rendered. */
  method RenderLimb(r: uint32, raw: array<byte>, at: nat, m: nat, ghost D: nat)
    requires r < LIMB && at + 5 + 5 * m == 45 <= raw.Length && Spells(raw[at + 5..45], D)
    modifies raw
    ensures D < Pow(LIMB, m) && Spells(raw[at..45], Above(r, m, D))
  {
    hide Spells, Spells5, Pow;
    ghost var before := raw[..];
    ExtractChars5(r, raw, at);
    KeptAfter(before, raw[..], at + 5, at + 5, 45);
    SplitSlice(raw[..], at, at + 5, 45);
    PrependLimb(raw[at..at + 5], r, before[at + 5..45], m, D);
  }

  /** Carry propagation with the digits of each limb rendered as it leaves the
      chain. */
  method RenderCarry(inter: array<uint64>, raw: array<byte>, ghost V: nat) returns (iz: nat, top: uint32)
    requires inter.Length == 9 && raw.Length >= 45
    requires AllBelow(inter[..], W64 - 0x80_0000_0000)
    requires ValBE(inter[..], LIMB) == V < Pow(LIMB, 9)
    modifies raw
    ensures Spells(raw[..45], V) && TopFound(iz, top, V, 9)
  {
    hide ValBE, Pow, Carried, Spells, Spells5, TopFound;
    ghost var was: seq<nat> := inter[..];
    ghost var D: nat := 0;
    CarriedStart(LIMB, was);
    EmptySpells();
    NothingFound();
    iz, top := 9, 0;
    var v: uint64 := inter[8];
    var i := 8;
    assert v == was[8] && raw[45..45] == [];
    while i >= 1
      invariant 0 <= i <= 8 && inter[..] == was && i < iz <= 9
      invariant Spells(raw[5 * i + 5..45], D) && TopFound(iz, top, D, 9)
      invariant Carried(LIMB, was, i, v, 8 - i, D) == V
    {
      var q := v / LIMB;
      var r: uint32 := v - q * LIMB;
      CarriedStep(LIMB, was, i, v, q, r, 8 - i, D);
      RenderLimb(r, raw, 5 * i, 8 - i, D);
      TopFoundStep(iz, top, D, 9, i, r);
      if r != 0 {
        iz, top := i, r;
      }
      D := r * Pow(LIMB, 8 - i) + D;
      assert inter[i - 1] == was[i - 1];
      v := inter[i - 1] + q;
      i := i - 1;
    }
    TopLimb(was, v, 8, D, V);
    var r0: uint32 := v;
    RenderLimb(r0, raw, 0, 8, D);
    TopFoundStep(iz, top, D, 9, 0, r0);
    if r0 != 0 {
      iz, top := 0, r0;
    }
  }

  lemma NothingFound()
    ensures TopFound(9, 0, 0, 9) && TopFound(18, 0, 0, 18)
  {
  }

  /** From the top limb to the exact length. */
  lemma LengthFromTop(b: seq<byte>, iz: nat, top: uint32, n: nat)
    requires iz < n && TopFound(iz, top, Val256(b), n)
    ensures top < LIMB
    ensures |Encoding(b)| == Leading(b, 0) + DigitCount5(top) + 5 * (n - 1 - iz)
  {
    hide Pow, ToBE, DigitCount5, Val256;
    TopLimbLength(top, n - 1 - iz, Val256(b) - top * Pow(LIMB, n - 1 - iz), Val256(b));
    EncodingLength(b);
  }

  lemma ZeroEncoding(b: seq<byte>)
    requires Val256(b) == 0
    ensures Leading(b, 0) == |b| && Encoding(b) == Repeat(ONE, |b|)
  {
    hide ValBE;
    var z := Leading(b, 0);
    if z < |b| {
      PositiveValue(b, z, 256);
    }
    ZeroText();
  }

  /** encode32Render: raw holds 45 characters; outLen of them from skip are the
      encoding, or, for 32 zero bytes, nothing is to be copied. */
  method Encode32Render(src: seq<byte>, raw: array<byte>) returns (outLen: nat, skip: nat)
    requires |src| == 32 && raw.Length >= 45
    modifies raw
    ensures outLen == |Encoding(src)| <= 44 && skip <= 45
    ensures if Val256(src) == 0 then skip == 45 else outLen == 45 - skip && raw[skip..45] == Encoding(src)
  {
    hide Val256, ValBE, Pow, Inter32, Spells, TopFound, DigitCount5, Encoding, Leading;
    var inter := new uint64[9](_ => 0);
    EncodeMatMul32(src, inter, 0);
    assert inter[..] == inter[0..9];
    Columns32(src);
    var iz, top := RenderCarry(inter, raw, Val256(src));
    var inZeros := CountLeading(src, 0);
    EncodingLength(src);
    if iz == 9 {
      AllZero(iz, top, src, 9);
      ZeroEncoding(src);
      return inZeros, 45;
    }
    TopInRange(iz, top, Val256(src), 9);
    LengthFromTop(src, iz, top, 9);
    var dc := DigitCount5(top);
    outLen := inZeros + dc + 5 * (8 - iz);
    skip := 45 - outLen;
    PaddedText(raw[..45], src, Val256(src));
    assert raw[..45][skip..] == raw[skip..45];
  }

  lemma AllZero(iz: nat, top: nat, b: seq<byte>, n: nat)
    requires iz == n && TopFound(iz, top, Val256(b), n)
    ensures Val256(b) == 0
  {
  }

  lemma TopInRange(iz: nat, top: nat, D: nat, n: nat)
    requires iz != n && TopFound(iz, top, D, n)
    ensures iz < n && 0 < top < LIMB && D > 0
  {
    hide Pow;
    PowPositive(LIMB, n - 1 - iz);
    MulMonotone(1, top, Pow(LIMB, n - 1 - iz));
  }

  /** What Encode32 and AppendEncode32 do with a rendered buffer: copy the window
      and pad with '1's, which only 32 zero bytes need. */
  method PlaceRendered(src: seq<byte>, raw: array<byte>, outLen: nat, skip: nat, out: array<byte>, at: nat)
    requires |src| == 32 && raw.Length >= 45 && raw != out
    requires outLen == |Encoding(src)| && skip <= 45
    requires if Val256(src) == 0 then skip == 45 else outLen == 45 - skip && raw[skip..45] == Encoding(src)
    requires at + outLen <= out.Length
    modifies out
    ensures out[at..at + outLen] == Encoding(src)
    ensures out[..at] == old(out[..at]) && out[at + outLen..] == old(out[at + outLen..])
  {
    hide Val256, Encoding;
    var n := 45 - skip;
    if Val256(src) == 0 {
      ZeroEncoding(src);
    }
    ghost var was := out[..];
    CopyInto(raw[skip..45], out, at);
    KeptAfter(was, out[..], at + n, at + outLen, at + outLen);
    ghost var copied := out[..];
    Fill(out, at + n, outLen - n, ONE);
    KeptBefore(copied, out[..], at + n, at, at + n);
    KeptBefore(copied, out[..], at + n, at, at);
    if Val256(src) == 0 {
      assert out[at..at + outLen] == Repeat(ONE, 32);
    }
  }

  /** Encode32 (portable path). */
  method Encode32(src: seq<byte>) returns (s: seq<byte>)
    requires |src| == 32
    ensures s == Encoding(src) && 32 <= |s| <= 44
  {
    hide Val256, Encoding;
    var raw := new byte[48](_ => 0);
    var outLen, skip := Encode32Render(src, raw);
    EncodingLength(src);
    var out := new byte[outLen](_ => 0);
    PlaceRendered(src, raw, outLen, skip, out, 0);
    s := out[..];
    assert s == out[0..outLen];
  }

  /** appendEncode32Generic. */
  method AppendEncode32(dst: Slice, src: seq<byte>) returns (r: Slice)
    requires |src| == 32 && dst.Valid()
    modifies dst.buf
    ensures r.Valid() && r.Contents() == old(dst.Contents()) + Encoding(src)
    ensures if r.len <= dst.buf.Length then r.buf == dst.buf else fresh(r.buf)
    ensures dst.buf[..dst.len] == old(dst.buf[..dst.len])
    ensures if r.buf == dst.buf then r.buf[r.len..] == old(dst.buf[..])[r.len..] else dst.buf[..] == old(dst.buf[..])
  {
    hide Val256, Encoding;
    ghost var was := dst.Contents();
    var raw := new byte[48](_ => 0);
    var outLen, skip := Encode32Render(src, raw);
    r := Extend(dst, outLen);
    PlaceRendered(src, raw, outLen, skip, r.buf, dst.len);
    WholePrefix(r.buf[..], dst.len, dst.len + outLen);
  }

  // ---- 64 bytes: direct-position writes ----

  lemma ZeroPrefix(ls: seq<nat>, iz: nat, b: nat)
    requires iz <= |ls| && forall i :: 0 <= i < iz ==> ls[i] == 0
    ensures ValBE(ls[..iz], b) == 0
    ensures iz < |ls| ==> ValBE(ls[..iz + 1], b) == ls[iz]
  {
    hide ValBE;
    assert ls[..iz] == Zeros(iz);
    ValBEZeros(iz, b);
    if iz < |ls| {
      ValBEStep(ls, iz, b);
    }
  }

  lemma TopOfLimbs(ls: seq<nat>, iz: nat)
    requires iz < |ls| && AllBelow(ls, LIMB) && ls[iz] != 0
    requires forall i :: 0 <= i < iz ==> ls[i] == 0
    ensures TopFound(iz, ls[iz], ValBE(ls, LIMB), |ls|)
  {
    hide ValBE, Pow;
    ZeroPrefix(ls, iz, LIMB);
    assert ls == ls[..iz + 1] + ls[iz + 1..];
    ValBEAppend(ls[..iz + 1], ls[iz + 1..], LIMB);
    ValBEBound(ls[iz + 1..], LIMB);
  }

  /** encode64Parts: the normalised limbs, the exact length and its pieces. */
  method Encode64Parts(src: seq<byte>, inter: array<uint64>, bounds: seq<(nat, nat)>)
    returns (outLen: nat, iz: nat, dc: nat, inZeros: nat)
    requires |src| == 64 && inter.Length == 18 && TableBounds(ENC64, bounds)
    requires forall j :: 0 <= j < 18 ==> inter[j] == 0
    modifies inter
    ensures inter[..] == Limbs64(src)
    ensures outLen == |Encoding(src)| <= 88 && inZeros == Leading(src, 0)
    ensures iz <= 18 && forall i :: 0 <= i < iz ==> inter[i] == 0
    ensures iz == 18 ==> dc == 0 && outLen == inZeros && Val256(src) == 0
    ensures iz < 18 ==> inter[iz] != 0 && inter[iz] < LIMB && dc == DigitCount5(inter[iz])
                        && outLen == inZeros + dc + 5 * (17 - iz)
  {
    hide Val256, ValBE, Pow, Inter64, DigitCount5, Encoding, Leading, TopFound, FixedBE, TableBounds;
    EncodeMatMul64(src, inter, 0, bounds);
    assert inter[0..18] == inter[..];
    Columns64(src);
    PropagateInPlace(inter, 0, 18, Val256(src));
    ghost var ls: seq<nat> := Limbs64(src);
    assert inter[..] == ls;
    inZeros := CountLeading(src, 0);
    EncodingLength(src);
    iz := 0;
    while iz < 18 && inter[iz] == 0
      invariant iz <= 18 && inter[..] == ls
      invariant forall i :: 0 <= i < iz ==> inter[i] == 0
    {
      iz := iz + 1;
    }
    ZeroPrefix(ls, iz, LIMB);
    if iz == 18 {
      assert ls[..18] == ls;
      ZeroEncoding(src);
      return inZeros, 18, 0, inZeros;
    }
    assert inter[iz] == ls[iz];
    TopOfLimbs(ls, iz);
    LengthFromTop(src, iz, inter[iz], 18);
    dc := DigitCount5(inter[iz]);
    outLen := inZeros + dc + 5 * (17 - iz);
  }

  lemma AppendLimb(s: seq<byte>, five: seq<byte>, ls: seq<nat>, i: nat)
    requires i < |ls| && Spells(s, ValBE(ls[..i], LIMB)) && Spells5(five, ls[i])
    ensures Spells(s + five, ValBE(ls[..i + 1], LIMB))
  {
    hide ValBE, Pow;
    PowersTo5();
    Val58Append(s, five);
    ValBEStep(ls, i, LIMB);
  }

  /** The significant characters of one limb's group of five. */
  lemma TrimGroup(five: seq<byte>, limb: uint32)
    requires Spells5(five, limb) && 0 < limb < LIMB
    ensures DigitCount5(limb) <= 5
    ensures Spells(five[5 - DigitCount5(limb)..], limb)
    ensures |five[5 - DigitCount5(limb)..]| > 0 && five[5 - DigitCount5(limb)] != ONE
  {
    hide ValBE, ToBE, DigitCount5;
    DigitCount5IsLength(limb);
    var ds := ToBE(limb, 58);
    ToBELength(limb, 58);
    var pad := 5 - |ds|;
    DigitCountRange(limb);
    ValBELeadingZeros(pad, ds, 58);
    SameLengthUnique(Digits(five), Zeros(pad) + ds, 58);
    assert Digits(five[pad..]) == ds;
  }

  lemma DigitCountRange(limb: uint32)
    requires 0 < limb < LIMB
    ensures 1 <= DigitCount5(limb) <= 5
  {
  }

  /** encode64WriteGeneric: every character at its final position. */
  method Encode64Write(src: seq<byte>, inter: array<uint64>, iz: nat, dc: nat, inZeros: nat,
                       out: array<byte>, at: nat)
    requires |src| == 64 && inter.Length == 18 && inter[..] == Limbs64(src)
    requires inZeros == Leading(src, 0) && iz <= 18 && forall i :: 0 <= i < iz ==> inter[i] == 0
    requires iz == 18 ==> Val256(src) == 0 && dc == 0
    requires iz < 18 ==> inter[iz] != 0 && inter[iz] < LIMB && dc == DigitCount5(inter[iz])
    requires at + |Encoding(src)| <= out.Length
    requires |Encoding(src)| == inZeros + dc + (if iz == 18 then 0 else 5 * (17 - iz))
    modifies out
    ensures out[at..at + |Encoding(src)|] == Encoding(src)
    ensures out[..at] == old(out[..at])
    ensures out[at + |Encoding(src)|..] == old(out[at + |Encoding(src)|..])
  {
    hide Val256, ValBE, Pow, DigitCount5, Encoding, Leading, Spells, Spells5, FixedBE;
    ghost var ls: seq<nat> := Limbs64(src);
    ghost var stop := at + |Encoding(src)|;
    ghost var was := out[..];
    Fill(out, at, inZeros, ONE);
    KeptAfter(was, out[..], at + inZeros, stop, stop);
    if iz == 18 {
      ZeroEncoding(src);
      assert out[at..at + inZeros] == Repeat(ONE, 64);
      return;
    }
    var start := at + inZeros;
    assert out[at..start] == Repeat(ONE, inZeros);
    ghost var before := out[..];
    WriteSignificant(inter, iz, dc, out, start);
    KeptBefore(before, out[..], start, at, start);
    KeptBefore(before, out[..], start, at, at);
    SplitSlice(out[..], at, start, stop);
    SliceAt(out[..], start, stop, start);
    Assembled(src, out[start..stop]);
  }

  /** The dc significant characters of the top limb. */
  method WriteTop(limb: uint32, dc: nat, out: array<byte>, start: nat)
    requires 0 < limb < LIMB && dc == DigitCount5(limb) && start + dc <= out.Length
    modifies out
    ensures out[..start] == old(out[..start]) && out[start + dc..] == old(out[start + dc..])
    ensures dc >= 1 && Spells(out[start..start + dc], limb) && out[start] != ONE
  {
    hide DigitCount5, Spells, Spells5;
    var tmp := new byte[5](_ => 0);
    ExtractChars5(limb, tmp, 0);
    assert tmp[0..5] == tmp[..];
    TrimGroup(tmp[..], limb);
    CopyInto(tmp[5 - dc..], out, start);
    SliceAt(out[..], start, start + dc, start);
  }

  /** The characters of the significant limbs, from out[start] on. */
  method WriteSignificant(inter: array<uint64>, iz: nat, dc: nat, out: array<byte>, start: nat)
    requires inter.Length == 18 && iz < 18 && AllBelow(inter[..], LIMB) && inter[iz] != 0
    requires forall i :: 0 <= i < iz ==> inter[i] == 0
    requires inter[iz] < LIMB && dc == DigitCount5(inter[iz])
    requires start + dc + 5 * (17 - iz) <= out.Length
    modifies out
    ensures out[..start] == old(out[..start])
    ensures var stop := start + dc + 5 * (17 - iz); out[stop..] == old(out[stop..])
    ensures dc >= 1 && Spells(out[start..start + dc + 5 * (17 - iz)], ValBE(inter[..], LIMB))
    ensures out[start] != ONE
  {
    hide ValBE, DigitCount5, Spells;
    ghost var before, stop := out[..], start + dc + 5 * (17 - iz);
    ZeroPrefix(inter[..], iz, LIMB);
    WriteTop(inter[iz], dc, out, start);
    ghost var top := out[..];
    KeptAfter(before, top, start + dc, stop, stop);
    WriteLimbs(inter, iz + 1, out, start, start + dc);
  }

  /** The groups of five after the top limb, each at its final position. */
  method WriteLimbs(inter: array<uint64>, from: nat, out: array<byte>, start: nat, first: nat)
    requires inter.Length == 18 && from <= 18 && AllBelow(inter[..], LIMB)
    requires start < first && first + 5 * (18 - from) <= out.Length
    requires Spells(out[start..first], ValBE(inter[..from], LIMB)) && out[start] != ONE
    modifies out
    ensures out[..start] == old(out[..start])
    ensures out[first + 5 * (18 - from)..] == old(out[first + 5 * (18 - from)..])
    ensures Spells(out[start..first + 5 * (18 - from)], ValBE(inter[..], LIMB))
    ensures out[start] != ONE
  {
    hide ValBE, Spells, Spells5;
    ghost var ls: seq<nat> := inter[..];
    var pos := first;
    var i := from;
    assert inter[..from] == ls[..from];
    while i < 18
      invariant from <= i <= 18 && pos == first + 5 * (i - from) && inter[..] == ls
      invariant out[..start] == old(out[..start])
      invariant out[first + 5 * (18 - from)..] == old(out[first + 5 * (18 - from)..])
      invariant Spells(out[start..pos], ValBE(ls[..i], LIMB)) && out[start] != ONE
    {
      assert inter[i] == ls[i];
      ghost var before, stop := out[..], first + 5 * (18 - from);
      ExtractChars5(inter[i], out, pos);
      KeptAfter(before, out[..], pos + 5, stop, stop);
      KeptBefore(before, out[..], pos, start, pos);
      KeptBefore(before, out[..], pos, start, start);
      SplitSlice(out[..], start, pos, pos + 5);
      AppendLimb(before[start..pos], out[pos..pos + 5], ls, i);
      pos := pos + 5;
      i := i + 1;
    }
    assert ls[..18] == ls;
  }

  lemma Assembled(b: seq<byte>, t: seq<byte>)
    requires Spells(t, Val256(b)) && t != [] && t[0] != ONE
    ensures Repeat(ONE, Leading(b, 0)) + t == Encoding(b)
  {
    hide ValBE;
    CanonicalText(t);
  }

  /** Encode64 (portable path). */
  method Encode64(src: seq<byte>, bounds: seq<(nat, nat)>) returns (s: seq<byte>)
    requires |src| == 64 && TableBounds(ENC64, bounds)
    ensures s == Encoding(src) && 64 <= |s| <= 88
  {
    hide Val256, Encoding, TableBounds, FixedBE, DigitCount5;
    var inter := new uint64[18](_ => 0);
    var outLen, iz, dc, inZeros := Encode64Parts(src, inter, bounds);
    EncodingLength(src);
    var out := new byte[outLen](_ => 0);
    Encode64Write(src, inter, iz, dc, inZeros, out, 0);
    s := out[..];
    assert s == out[0..outLen];
  }

  /** AppendEncode64 (portable path). */
  method AppendEncode64(dst: Slice, src: seq<byte>, bounds: seq<(nat, nat)>) returns (r: Slice)
    requires |src| == 64 && dst.Valid() && TableBounds(ENC64, bounds)
    modifies dst.buf
    ensures r.Valid() && r.Contents() == old(dst.Contents()) + Encoding(src)
    ensures if r.len <= dst.buf.Length then r.buf == dst.buf else fresh(r.buf)
    ensures dst.buf[..dst.len] == old(dst.buf[..dst.len])
    ensures if r.buf == dst.buf then r.buf[r.len..] == old(dst.buf[..])[r.len..] else dst.buf[..] == old(dst.buf[..])
  {
    hide Val256, Encoding, TableBounds, FixedBE, DigitCount5;
    var inter := new uint64[18](_ => 0);
    var outLen, iz, dc, inZeros := Encode64Parts(src, inter, bounds);
    r := Extend(dst, outLen);
    Encode64Write(src, inter, iz, dc, inZeros, r.buf, dst.len);
    WholePrefix(r.buf[..], dst.len, dst.len + outLen);
  }
}
