/** The fixed-width decoders (decode.go): groups of five characters, the decode
    matrix, 32-bit carries, a too-large verdict and the leading-zero check. */
module DecodeFixed {
  import opened Radix
  import opened Sequences
  import opened Words
  import opened Alphabet
  import opened Base58
  import opened Sizes
  import opened Chars
  import opened DigitGroups
  import opened BigEndian
  import opened Tables
  import opened Matrix
  import opened Carry
  import opened Fixed

  // ---- what Decode32 and Decode64 mean ----

  datatype Outcome = Done | Failed(error: Error)

  function FixedDecoding(s: seq<byte>, n: nat, maxLen: nat): Result<seq<byte>> {
    if |s| == 0 || |s| > maxLen then Err(InvalidLength)
    else if !Valid(s) then Err(InvalidChar)
    else if Val58(s) >= Pow(256, n) then Err(ValueTooLarge)
    else
      var b := Bytes(FixedBE(Val58(s), n, 256));
      if Leading(s, ONE) != Leading(b, 0) then Err(LeadingZeros) else Ok(b)
  }

  /** The contract of a decoder into a caller's array. */
  ghost predicate Decoded(r: Outcome, dst: seq<byte>, s: seq<byte>, n: nat, maxLen: nat) {
    match FixedDecoding(s, n, maxLen)
    case Ok(b) => r == Done && dst == b
    case Err(e) => r == Failed(e)
  }

  lemma AcceptedIsEncoding(s: seq<byte>, n: nat, maxLen: nat, b: seq<byte>)
    requires FixedDecoding(s, n, maxLen) == Ok(b)
    ensures |b| == n && s == Encoding(b)
  {
    hide Pow, ValBE, ToBE, FixedBE, Inverse, Text;
    assert b == FixedBE(Val58(s), n, 256);
    StripOnes(s);
    CanonicalText(s[Leading(s, ONE)..]);
  }

  lemma EncodingIsAccepted(n: nat, maxLen: nat, b: seq<byte>)
    requires |b| == n > 0 && 11 * n <= 8 * maxLen
    ensures FixedDecoding(Encoding(b), n, maxLen) == Ok(b)
  {
    hide Pow, ValBE, FixedBE, Inverse, Encoding, Valid, Leading;
    var s := Encoding(b);
    EncodingLength(b);
    EncodingIsValid(b);
    FixedUnique(b, 256);
    assert Bytes(FixedBE(Val58(s), n, 256)) == b;
  }

  /** The fixed-width decoders accept exactly the canonical encodings of n bytes. */
  lemma AcceptsExactlyEncodings(s: seq<byte>, n: nat, maxLen: nat, b: seq<byte>)
    requires n > 0 && 11 * n <= 8 * maxLen
    ensures FixedDecoding(s, n, maxLen) == Ok(b) <==> |b| == n && s == Encoding(b)
  {
    hide FixedDecoding, Encoding;
    if FixedDecoding(s, n, maxLen) == Ok(b) {
      AcceptedIsEncoding(s, n, maxLen, b);
    }
    if |b| == n {
      EncodingIsAccepted(n, maxLen, b);
    }
  }

  /** n-byte digits are the canonical ones behind zeros. */
  lemma FixedZeros(v: nat, n: nat)
    requires v < Pow(256, n)
    ensures |ToBE(v, 256)| <= n
    ensures Leading(Bytes(FixedBE(v, n, 256)), 0) == n - |ToBE(v, 256)|
  {
    hide Pow, ValBE, ToBE, FixedBE, Leading;
    var ds := ToBE(v, 256);
    if v > 0 {
      ToBELength(v, 256);
      PowInjective(256, |ds| - 1, n);
    }
    var pad := n - |ds|;
    ValBELeadingZeros(pad, ds, 256);
    SameLengthUnique(FixedBE(v, n, 256), Zeros(pad) + ds, 256);
    LeadingUnique(Bytes(Zeros(pad) + ds), 0, pad);
  }

  /** Which error, and when: the length is looked at first, then the characters, then
      the value, then the leading zeros. */
  lemma FixedErrors(s: seq<byte>, n: nat, maxLen: nat)
    ensures var r, fits := FixedDecoding(s, n, maxLen), Val58(s) < Pow(256, n);
            && (r == Err(InvalidLength) <==> |s| == 0 || |s| > maxLen)
            && (r == Err(InvalidChar) <==> 1 <= |s| <= maxLen && !Valid(s))
            && (r == Err(ValueTooLarge) <==> 1 <= |s| <= maxLen && Valid(s) && !fits)
            && (r == Err(LeadingZeros) <==> 1 <= |s| <= maxLen && Valid(s) && fits
                                            && Leading(s, ONE) != n - |ToBE(Val58(s), 256)|)
            && (r.Ok? ==> s == Encoding(r.value))
  {
    hide Pow, Val58, Valid, ToBE, FixedBE, Leading, Encoding, Bytes;
    if Val58(s) < Pow(256, n) {
      FixedZeros(Val58(s), n);
    }
    var r := FixedDecoding(s, n, maxLen);
    if r.Ok? {
      AcceptedIsEncoding(s, n, maxLen, r.value);
    }
  }

  // ---- groups of five ----

  /** The characters before i are in inter[..gi]. */
  ghost predicate GroupsRead(s: seq<byte>, i: nat, inter: seq<nat>, gi: nat)
    requires i <= |s| && gi <= |inter|
  {
    Valid(s[..i]) ==> AllBelow(inter[..gi], LIMB) && ValBE(inter[..gi], LIMB) == Val58(s[..i])
  }

  lemma HeadRead(s: seq<byte>, head: nat, inter: seq<nat>, g0: nat)
    requires head <= |s| && head <= 5 && g0 < |inter| && inter[g0] == Val58(s[..head])
    requires forall k :: 0 <= k < g0 ==> inter[k] == 0
    ensures GroupsRead(s, head, inter, g0 + 1)
  {
    hide ValBE, Pow, Val58, Inverse;
    assert inter[..g0] == Zeros(g0);
    ValBEZeros(g0, LIMB);
    ValBEStep(inter, g0, LIMB);
    if Valid(s[..head]) {
      GroupBelow(s[..head]);
    }
  }

  lemma GroupBelow(c: seq<byte>)
    requires |c| <= 5 && Valid(c)
    ensures Val58(c) < LIMB
  {
    PowersTo5();
    hide Pow, Val58, Inverse;
    Val58Bound(c);
    PowMonotone(58, |c|, 5);
  }

  lemma FiveRead(s: seq<byte>, i: nat, inter: seq<nat>, gi: nat)
    requires i + 5 <= |s| && gi < |inter| && GroupsRead(s, i, inter, gi)
    requires Valid(s[i..i + 5]) ==> inter[gi] == Val58(s[i..i + 5])
    ensures GroupsRead(s, i + 5, inter, gi + 1)
  {
    hide ValBE, Pow, Val58, Inverse;
    assert s[..i + 5] == s[..i] + s[i..i + 5];
    ValidAppend(s[..i], s[i..i + 5]);
    if Valid(s[..i + 5]) {
      GroupBelow(s[i..i + 5]);
      PowersTo5();
      Val58Append(s[..i], s[i..i + 5]);
      ValBEStep(inter, gi, LIMB);
    }
  }

  /** Storing the value of five more characters. */
  lemma GroupStored(s: seq<byte>, i: nat, was: seq<nat>, gi: nat, x: nat)
    requires i + 5 <= |s| && gi < |was| && GroupsRead(s, i, was, gi)
    requires Valid(s[i..i + 5]) ==> x == Val58(s[i..i + 5])
    ensures GroupsRead(s, i + 5, was[gi := x], gi + 1)
  {
    hide ValBE, Val58, Valid;
    var now := was[gi := x];
    assert now[..gi] == was[..gi];
    FiveRead(s, i, now, gi);
  }

  /** The head group, into the cell where the string's groups start. */
  method ReadHead(s: seq<byte>, inter: array<uint64>) returns (i: nat, gi: nat, bad: byte)
    requires s != [] && (|s| + 4) / 5 <= inter.Length
    requires forall k :: 0 <= k < inter.Length ==> inter[k] == 0
    modifies inter
    ensures 1 <= i <= |s| && gi <= inter.Length && |s| - i == 5 * (inter.Length - gi)
    ensures bad < 64 <==> Valid(s[..i])
    ensures GroupsRead(s, i, inter[..], gi)
  {
    hide GroupsRead, Inverse, Val58;
    var head := if |s| % 5 == 0 then 5 else |s| % 5;
    var g: uint64;
    g, bad := HornerGroup(s[..head], 0);
    var g0 := inter.Length - (|s| + 4) / 5;
    inter[g0] := g;
    HeadRead(s, head, inter[..], g0);
    i, gi := head, g0 + 1;
  }

  /** decode64Generic's loop over the groups. */
  method ReadGroups64(s: seq<byte>, inter: array<uint64>) returns (bad: byte)
    requires s != [] && (|s| + 4) / 5 <= inter.Length
    requires forall k :: 0 <= k < inter.Length ==> inter[k] == 0
    modifies inter
    ensures bad < 64 <==> Valid(s)
    ensures GroupsRead(s, |s|, inter[..], inter.Length)
  {
    hide GroupsRead, Inverse, Valid, Val58, OrAll, Or, FiveAt, Digits;
    var i, gi;
    i, gi, bad := ReadHead(s, inter);
    while gi < inter.Length
      invariant i <= |s| && gi <= inter.Length && |s| - i == 5 * (inter.Length - gi)
      invariant bad < 64 <==> Valid(s[..i])
      invariant GroupsRead(s, i, inter[..], gi)
    {
      ghost var was: seq<nat> := inter[..];
      var c := s[i..i + 5];
      OrAllSmall(c);
      OrStaysSmall(bad, OrAll(Digits(c)));
      bad := Or(bad, OrAll(Digits(c)));
      ValidPart(s, i, i + 5);
      inter[gi] := FiveAt(s, i);
      GroupStored(s, i, was, gi, inter[gi]);
      assert inter[..] == was[gi := inter[gi]];
      i, gi := i + 5, gi + 1;
    }
    assert s[..i] == s;
  }

  /** base58InversePairs: two characters at once, 0xffff when either is invalid. */
  function InversePair(c0: byte, c1: byte): (p: uint16)
    ensures p < 0x8000 <==> Inverse(c0) < 58 && Inverse(c1) < 58
    ensures if p < 0x8000 then p == Inverse(c0) * 58 + Inverse(c1) else p == 0xffff
  {
    if Inverse(c0) < 58 && Inverse(c1) < 58 then Inverse(c0) * 58 + Inverse(c1) else 0xffff
  }

  lemma PairedGroup(c: seq<byte>)
    requires |c| == 5
    ensures Valid(c) <==> InversePair(c[0], c[1]) < 0x8000 && InversePair(c[2], c[3]) < 0x8000
                          && Inverse(c[4]) * 256 < 0x8000
    ensures Valid(c) ==> Val58(c) == InversePair(c[0], c[1]) * 195112 + InversePair(c[2], c[3]) * 58 + Inverse(c[4])
  {
    hide Val58, Inverse, InversePair;
    Group5Value(c);
  }

  /** bad | (p0 | p1 | d): below the high bit exactly while every operand is. */
  method OrPair(bad: uint16, p0: uint16, p1: uint16, d: uint16) returns (r: uint16)
    ensures r < 0x8000 <==> bad < 0x8000 && p0 < 0x8000 && p1 < 0x8000 && d < 0x8000
  {
    hide Or;
    OrStaysBelowHighBit(p0, p1);
    OrStaysBelowHighBit(Or(p0, p1), d);
    OrStaysBelowHighBit(bad, Or(Or(p0, p1), d));
    r := Or(bad, Or(Or(p0, p1), d));
  }

  /** decode32Generic's loop: two pair lookups and a digit per group. */
  method ReadGroups32(s: seq<byte>, inter: array<uint64>) returns (bad: byte, pairBad: uint16)
    requires s != [] && (|s| + 4) / 5 <= inter.Length
    requires forall k :: 0 <= k < inter.Length ==> inter[k] == 0
    modifies inter
    ensures bad < 64 && pairBad < 0x8000 <==> Valid(s)
    ensures GroupsRead(s, |s|, inter[..], inter.Length)
  {
    hide GroupsRead, Inverse, Valid, InversePair, Val58, Or;
    var i, gi;
    i, gi, bad := ReadHead(s, inter);
    pairBad := 0;
    while gi < inter.Length
      invariant i <= |s| && gi <= inter.Length && |s| - i == 5 * (inter.Length - gi)
      invariant bad < 64 && pairBad < 0x8000 <==> Valid(s[..i])
      invariant GroupsRead(s, i, inter[..], gi)
    {
      ghost var was: seq<nat> := inter[..];
      var c := s[i..i + 5];
      var p0: nat, p1: nat, d4: nat := InversePair(c[0], c[1]), InversePair(c[2], c[3]), Inverse(c[4]);
      pairBad := OrPair(pairBad, p0, p1, d4 * 256);
      PairedGroup(c);
      ValidPart(s, i, i + 5);
      inter[gi] := p0 * 195112 + p1 * 58 + d4;
      GroupStored(s, i, was, gi, inter[gi]);
      assert inter[..] == was[gi := inter[gi]];
      i, gi := i + 5, gi + 1;
    }
    assert s[..i] == s;
  }

  // ---- decode32WriteSlow and decode64WriteSlow ----

  lemma ConsWord(r: nat, done: seq<nat>)
    requires r < W32 && AllBelow(done, W32)
    ensures AllBelow([r] + done, W32)
    ensures ValBE([r] + done, W32) == r * Pow(W32, |done|) + ValBE(done, W32)
  {
    hide ValBE, Pow;
    ValBECons(r, done, W32);
  }

  /** The 32-bit carry chain; bin[0] keeps whatever is left over. */
  method PropagateWords(bin: array<uint64>, ghost V: nat)
    requires bin.Length >= 1 && AllBelow(bin[..], W64 - W32) && ValBE(bin[..], W32) == V
    modifies bin
    ensures AllBelow(bin[1..], W32)
    ensures V == bin[0] * Pow(W32, bin.Length - 1) + ValBE(bin[1..], W32)
  {
    hide ValBE, Pow, Carried;
    ghost var was: seq<nat> := bin[..];
    ghost var n := bin.Length;
    CarriedStart(W32, was);
    ValBEEmpty(W32);
    var v: uint64 := bin[bin.Length - 1];
    var i := bin.Length - 1;
    assert bin[n..] == [];
    while i >= 1
      invariant 0 <= i <= n - 1 && bin[..i] == was[..i] && AllBelow(bin[i + 1..], W32)
      invariant Carried(W32, was, i, v, n - 1 - i, ValBE(bin[i + 1..], W32)) == V
    {
      ghost var done: seq<nat> := bin[i + 1..];
      CarriedStep(W32, was, i, v, v / W32, v % W32, n - 1 - i, ValBE(done, W32));
      ConsWord(v % W32, done);
      assert bin[i - 1] == was[i - 1];
      bin[i] := v % W32;
      v := bin[i - 1] + v / W32;
      assert bin[i..] == [bin[i] as nat] + done;
      i := i - 1;
    }
    ghost var low: seq<nat> := bin[1..];
    CarriedEnd(W32, was, v, n - 1, ValBE(low, W32));
    bin[0] := v;
    assert bin[1..] == low;
  }

  /** bin[0] exceeds 32 bits exactly when the value exceeds n words. */
  lemma Overflow(top: nat, low: seq<nat>, V: nat)
    requires AllBelow(low, W32) && V == top * Pow(W32, |low|) + ValBE(low, W32)
    ensures top >= W32 <==> V >= Pow(W32, |low| + 1)
  {
    hide ValBE, Pow;
    ValBEBound(low, W32);
    PowNext(W32, |low|);
    if top >= W32 {
      MulMonotone(W32, top, Pow(W32, |low|));
    } else {
      BoundStep(top, W32, Pow(W32, |low|), ValBE(low, W32));
      Commute(Pow(W32, |low|), W32);
    }
  }

  lemma Commute(x: nat, y: nat)
    ensures x * y == y * x
  {
  }

  lemma TwoWordStep(ws: seq<nat>, i: nat)
    requires i + 2 <= |ws|
    ensures ValBE(ws[..i + 2], W32) == ValBE(ws[..i], W32) * W64 + (ws[i] * W32 + ws[i + 1])
  {
    hide ValBE;
    ValBEStep(ws, i, W32);
    ValBEStep(ws, i + 1, W32);
  }

  lemma EightByteStep(done: seq<byte>, word: seq<byte>)
    requires |word| == 8
    ensures Val256(done + word) == Val256(done) * W64 + Val256(word)
  {
    SevenBytes();
    hide ValBE, Pow;
    ValBEAppend(done, word, 256);
  }

  /** PutUint64(dst[at:], hi<<32 | lo). */
  method StoreTwo(dst: array<byte>, at: nat, hi: uint32, lo: uint32)
    requires at + 8 <= dst.Length
    modifies dst
    ensures Val256(dst[..at + 8]) == old(Val256(dst[..at])) * W64 + (hi * W32 + lo)
  {
    hide Val256, Pow;
    SevenBytes();
    PutBytes(dst, at + 8, 8, hi * W32 + lo);
    WholePrefix(dst[..], at, at + 8);
    EightByteStep(dst[..at], dst[at..at + 8]);
  }

  /** PutUint64(dst[i*4:], bin[i]<<32 | bin[i+1]) for every pair of words. */
  method StoreWords(bin: array<uint64>, dst: array<byte>)
    requires bin.Length % 2 == 0 && AllBelow(bin[..], W32) && dst.Length == 4 * bin.Length
    modifies dst
    ensures Val256(dst[..]) == ValBE(bin[..], W32)
  {
    hide ValBE, Val256, Pow;
    ghost var ws: seq<nat> := bin[..];
    var i := 0;
    Val256Empty();
    ValBEEmpty(W32);
    SevenBytes();
    assert dst[..0] == [] && ws[..0] == [];
    while i < bin.Length
      invariant i <= bin.Length && i % 2 == 0 && bin[..] == ws
      invariant Val256(dst[..4 * i]) == ValBE(ws[..i], W32)
    {
      assert bin[i] == ws[i] && bin[i + 1] == ws[i + 1];
      StoreTwo(dst, 4 * i, bin[i], bin[i + 1]);
      TwoWordStep(ws, i);
      i := i + 2;
    }
    assert dst[..4 * i] == dst[..] && ws[..i] == ws;
  }

  lemma AllBytes(b: seq<byte>, V: nat)
    requires Val256(b) == V
    ensures V < Pow(256, |b|) && b == Bytes(FixedBE(V, |b|, 256))
  {
    hide ValBE, Pow, FixedBE;
    FixedUnique(b, 256);
  }

  /** From the columns to the bytes, or the verdict that they do not fit. */
  method WriteColumns(bin: array<uint64>, dst: array<byte>, ghost V: nat) returns (ok: bool)
    requires bin.Length >= 2 && bin.Length % 2 == 0 && dst.Length == 4 * bin.Length
    requires AllBelow(bin[..], W64 - W32) && ValBE(bin[..], W32) == V
    modifies bin, dst
    ensures ok <==> V < Pow(256, dst.Length)
    ensures if ok then dst[..] == Bytes(FixedBE(V, dst.Length, 256)) else dst[..] == old(dst[..])
  {
    hide ValBE, Val256, Pow, FixedBE;
    PropagateWords(bin, V);
    Overflow(bin[0], bin[1..], V);
    WordsPower(bin.Length);
    if bin[0] > 0xFFFF_FFFF {
      return false;
    }
    assert bin[..] == [bin[0]] + bin[1..];
    ConsWord(bin[0], bin[1..]);
    StoreWords(bin, dst);
    AllBytes(dst[..], V);
    ok := true;
  }

  lemma WordsPower(n: nat)
    ensures Pow(256, 4 * n) == Pow(W32, n)
  {
    Powers256();
    hide Pow;
    PowOfPow(256, 4, n, 4 * n);
  }

  lemma BinColumns32(inter: seq<nat>)
    requires |inter| == 9 && AllBelow(inter, LIMB)
    ensures AllBelow(Bin32(inter), W64 - W32) && ValBE(Bin32(inter), W32) == ValBE(inter, LIMB)
  {
    hide ValBE, Dot;
    Bin32Value(inter);
    var s := Bin32(inter);
    forall k | 0 <= k < 8
      ensures s[k] < W64 - W32
    {
      Bin32Fits(inter, k);
    }
  }

  lemma BinColumns64(inter: seq<nat>)
    requires |inter| == 18 && AllBelow(inter, LIMB)
    ensures AllBelow(Bin64(inter), W64 - W32) && ValBE(Bin64(inter), W32) == ValBE(inter, LIMB)
  {
    hide ValBE, Dot;
    Bin64Value(inter);
    var s := Bin64(inter);
    forall k | 0 <= k < 16
      ensures s[k] < W64 - W32
    {
      Bin64Fits(inter, k);
    }
  }

  /** decode32WriteSlow. */
  method Decode32Write(inter: seq<uint64>, dst: array<byte>) returns (ok: bool)
    requires |inter| == 9 && AllBelow(inter, LIMB) && dst.Length == 32
    modifies dst
    ensures ok <==> ValBE(inter, LIMB) < Pow(256, 32)
    ensures if ok then dst[..] == Bytes(FixedBE(ValBE(inter, LIMB), 32, 256)) else dst[..] == old(dst[..])
  {
    hide ValBE, Bin32, Pow, FixedBE;
    var bin := new uint64[8](_ => 0);
    DecodeMatMul32(inter, bin);
    BinColumns32(inter);
    ok := WriteColumns(bin, dst, ValBE(inter, LIMB));
  }

  /** decode64WriteSlow. */
  method Decode64Write(inter: seq<uint64>, dst: array<byte>, bounds: seq<(nat, nat)>) returns (ok: bool)
    requires |inter| == 18 && AllBelow(inter, LIMB) && dst.Length == 64 && TableBounds(DEC64, bounds)
    modifies dst
    ensures ok <==> ValBE(inter, LIMB) < Pow(256, 64)
    ensures if ok then dst[..] == Bytes(FixedBE(ValBE(inter, LIMB), 64, 256)) else dst[..] == old(dst[..])
  {
    hide ValBE, Bin64, Pow, FixedBE, TableBounds;
    var bin := new uint64[16](_ => 0);
    DecodeMatMul64(inter, bin, bounds);
    BinColumns64(inter);
    ok := WriteColumns(bin, dst, ValBE(inter, LIMB));
  }

  // ---- the decoders ----

  /** validateLeadingZeros. */
  method ValidateLeadingZeros(s: seq<byte>, dst: seq<byte>) returns (r: Outcome)
    ensures r == if Leading(s, ONE) == Leading(dst, 0) then Done else Failed(LeadingZeros)
  {
    hide Leading;
    var ones := CountLeading(s, ONE);
    var zeros := CountLeading(dst, 0);
    r := if ones != zeros then Failed(LeadingZeros) else Done;
  }

  lemma AllRead(s: seq<byte>, inter: seq<nat>)
    requires GroupsRead(s, |s|, inter, |inter|) && Valid(s)
    ensures AllBelow(inter, LIMB) && ValBE(inter, LIMB) == Val58(s)
  {
    assert s[..|s|] == s && inter[..|inter|] == inter;
  }

  /** Decode32 (portable path). */
  method Decode32(s: seq<byte>, dst: array<byte>) returns (r: Outcome)
    requires dst.Length == 32
    modifies dst
    ensures Decoded(r, dst[..], s, 32, 45)
    ensures r == Failed(InvalidLength) <==> |s| == 0 || |s| > 45
    ensures r == Failed(InvalidChar) <==> 1 <= |s| <= 45 && !Valid(s)
    ensures r == Failed(ValueTooLarge) <==> 1 <= |s| <= 45 && Valid(s) && Val58(s) >= Pow(256, 32)
    ensures r == Failed(LeadingZeros) <==>
      1 <= |s| <= 45 && Valid(s) && Val58(s) < Pow(256, 32) && Leading(s, ONE) != 32 - |ToBE(Val58(s), 256)|
    ensures r == Done ==> s == Encoding(dst[..])
    ensures r.Failed? && r != Failed(LeadingZeros) ==> dst[..] == old(dst[..])
  {
    hide GroupsRead, Inverse, Val58, Pow, FixedBE, ValBE, Leading, Encoding, ToBE, Valid;
    FixedErrors(s, 32, 45);
    if |s| == 0 || |s| > 45 {
      return Failed(InvalidLength);
    }
    var inter := new uint64[9](_ => 0);
    var bad, pairBad := ReadGroups32(s, inter);
    if bad >= 64 || pairBad >= 0x8000 {
      return Failed(InvalidChar);
    }
    assert inter[..inter.Length] == inter[..];
    AllRead(s, inter[..]);
    var ok := Decode32Write(inter[..], dst);
    if !ok {
      return Failed(ValueTooLarge);
    }
    r := ValidateLeadingZeros(s, dst[..]);
  }

  /** Decode64 (portable path). */
  method Decode64(s: seq<byte>, dst: array<byte>, bounds: seq<(nat, nat)>) returns (r: Outcome)
    requires dst.Length == 64 && TableBounds(DEC64, bounds)
    modifies dst
    ensures Decoded(r, dst[..], s, 64, 90)
    ensures r == Failed(InvalidLength) <==> |s| == 0 || |s| > 90
    ensures r == Failed(InvalidChar) <==> 1 <= |s| <= 90 && !Valid(s)
    ensures r == Failed(ValueTooLarge) <==> 1 <= |s| <= 90 && Valid(s) && Val58(s) >= Pow(256, 64)
    ensures r == Failed(LeadingZeros) <==>
      1 <= |s| <= 90 && Valid(s) && Val58(s) < Pow(256, 64) && Leading(s, ONE) != 64 - |ToBE(Val58(s), 256)|
    ensures r == Done ==> s == Encoding(dst[..])
    ensures r.Failed? && r != Failed(LeadingZeros) ==> dst[..] == old(dst[..])
  {
    hide GroupsRead, Inverse, Val58, Pow, FixedBE, ValBE, Leading, TableBounds, Encoding, ToBE, Valid;
    FixedErrors(s, 64, 90);
    if |s| == 0 || |s| > 90 {
      return Failed(InvalidLength);
    }
    var inter := new uint64[18](_ => 0);
    var bad := ReadGroups64(s, inter);
    if bad >= 64 {
      return Failed(InvalidChar);
    }
    assert inter[..inter.Length] == inter[..];
    AllRead(s, inter[..]);
    var ok := Decode64Write(inter[..], dst, bounds);
    if !ok {
      return Failed(ValueTooLarge);
    }
    r := ValidateLeadingZeros(s, dst[..]);
  }
}
