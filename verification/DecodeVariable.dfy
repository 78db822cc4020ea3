/** The limb-based decoder for strings of any length (decode.go): twenty
    characters at a time, work = work * 58^20 + group on base-2^64 limbs. */
module DecodeVariable {
  import opened Radix
  import opened Sequences
  import opened Words
  import opened Alphabet
  import opened Base58
  import opened Sizes
  import opened BigEndian
  import opened DigitGroups
  import opened Slices

  // ---- the two-word multiplier ----

  /** pow58u64[10]. */
  const POW10: uint64 := 430804206899405824

  /** m20Hi and m20Lo: 58^20 in two words. */
  const M20HI: uint64 := 10060976828248712
  const M20LO: uint64 := 11146215920195600384

  const M20: nat := M20HI * W64 + M20LO

  lemma Multiplier()
    ensures Mul64(POW10, POW10) == (M20HI, M20LO)
    ensures Pow(58, 10) == POW10 && Pow(58, 20) == M20 && Pow(58, 0) == 1
  {
    LimbPowers();
    hide Pow;
    PowAdd(58, 0, 10);
  }

  /** The value of a high and a low word. */
  function TwoWords(hi: nat, lo: nat): nat {
    hi * W64 + lo
  }

  /** Twenty characters: two halves of ten. */
  method GroupTwenty(c: seq<byte>) returns (gHi: uint64, gLo: uint64, bad: byte)
    requires |c| == 20
    ensures TwoWords(gHi, gLo) == Val58(c)
    ensures bad < 64 <==> Valid(c)
  {
    hide Val58, Inverse;
    var half0, half1;
    half0, bad := TenGroup(c[..10], 0);
    half1, bad := TenGroup(c[10..], bad);
    gHi, gLo := JoinHalves(half0, half1);
    Multiplier();
    assert c == c[..10] + c[10..];
    Val58Append(c[..10], c[10..]);
    ValidAppend(c[..10], c[10..]);
  }

  /** g1 * 58^10 + g2 in two words. */
  method JoinHalves(g1: uint64, g2: uint64) returns (gHi: uint64, gLo: uint64)
    ensures TwoWords(gHi, gLo) == g1 * POW10 + g2
  {
    var p := Mul64(g1, POW10);
    var s := Add64(p.1, g2, 0);
    gLo := s.0;
    gHi := p.0 + s.1;
  }

  /** The leading group of fewer than twenty characters. */
  method HeadGroup(c: seq<byte>) returns (gHi: uint64, gLo: uint64, bad: byte)
    requires 1 <= |c| < 20
    ensures TwoWords(gHi, gLo) == Val58(c)
    ensures bad < 64 <==> Valid(c)
  {
    hide Val58, Inverse;
    var l1 := if |c| > 10 then |c| - 10 else 0;
    var g1, g2;
    g1, bad := HornerGroup(c[..l1], 0);
    g2, bad := HornerGroup(c[l1..], bad);
    assert c == c[..l1] + c[l1..];
    Val58Append(c[..l1], c[l1..]);
    ValidAppend(c[..l1], c[l1..]);
    Multiplier();
    if l1 > 0 {
      gHi, gLo := JoinHalves(g1, g2);
    } else {
      assert c[..0] == [] && c[0..] == c;
      gHi, gLo := 0, g2;
    }
  }

  // ---- work = work * 58^20 + group ----

  /** One limb: two 128-bit products and an add chain. The carry stays below 58^20,
      so its high word cannot overflow. */
  method MulAddLimb(l: uint64, c0: uint64, c1: uint64) returns (t0: uint64, d0: uint64, d1: uint64)
    requires TwoWords(c1, c0) < M20
    ensures l * M20 + TwoWords(c1, c0) == TwoWords(d1, d0) * W64 + t0
    ensures TwoWords(d1, d0) < M20
  {
    var p := Mul64(l, M20LO);
    var q := Mul64(l, M20HI);
    var a := Add64(p.1, c0, 0);
    var b := Add64(p.0, q.1, a.1);
    var c := Add64(b.0, c1, 0);
    t0 := a.0;
    d0 := c.0;
    d1 := q.0 + b.1 + c.1;
  }

  method MulAddLimbs(limbs: array<uint64>, top: nat, gHi: uint64, gLo: uint64)
    returns (c1: uint64, c0: uint64)
    requires top <= limbs.Length && TwoWords(gHi, gLo) < M20
    modifies limbs
    ensures Pending(W64, ValLE(limbs[..top], W64), top, TwoWords(c1, c0))
         == Scaled(old(ValLE(limbs[..top], W64)), M20, TwoWords(gHi, gLo))
  {
    hide ValLE, Pow, Pending, Scaled, TwoWords;
    ghost var was: seq<nat> := limbs[..top];
    ghost var g := TwoWords(gHi, gLo);
    c0, c1 := gLo, gHi;
    ValLEEmpty(W64);
    PendingStart(W64, g);
    ScaledZero(M20, g);
    assert limbs[..0] == [] && was[..0] == [];
    for j := 0 to top
      invariant TwoWords(c1, c0) < M20 && limbs[j..top] == was[j..]
      invariant Scaled(ValLE(was[..j], W64), M20, g) == Pending(W64, ValLE(limbs[..j], W64), j, TwoWords(c1, c0))
    {
      assert limbs[j] == limbs[j..top][0] == was[j];
      var t0, d0, d1 := MulAddLimb(limbs[j], c0, c1);
      ScaleStep(W64, was, j, M20, g, ValLE(limbs[..j], W64), TwoWords(c1, c0), TwoWords(d1, d0), t0);
      PutWord(limbs, j, t0);
      assert limbs[j + 1..top] == was[j + 1..];
      c0, c1 := d0, d1;
    }
    assert was[..top] == was;
  }

  /** limbs[i] = w. */
  method PutWord(limbs: array<uint64>, i: nat, w: uint64)
    requires i < limbs.Length
    modifies limbs
    ensures limbs[..] == old(limbs[..])[i := w]
    ensures limbs[i + 1..] == old(limbs[i + 1..])
    ensures ValLE(limbs[..i + 1], W64) == old(ValLE(limbs[..i], W64)) + w * Pow(W64, i)
  {
    hide ValLE, Pow;
    ghost var low: seq<nat> := limbs[..i];
    limbs[i] := w;
    assert limbs[..][..i] == low == limbs[..i] && limbs[..][..i + 1] == limbs[..i + 1];
    ValLEStep(limbs[..], i, W64);
  }

  /** What the fold leaves: limbs[..top] spell V and the top limb is not zero. */
  ghost predicate IsWork(ls: seq<nat>, V: nat) {
    ValLE(ls, W64) == V && AllBelow(ls, W64) && (ls != [] ==> ls[|ls| - 1] != 0)
  }

  /** The carry becomes at most two new limbs; the room for them follows from the
      value being below 2^(64 * length). */
  method PushCarry(limbs: array<uint64>, top: nat, c1: uint64, c0: uint64, ghost V: nat) returns (n: nat)
    requires top <= limbs.Length
    requires Pending(W64, ValLE(limbs[..top], W64), top, TwoWords(c1, c0)) == V < Pow(W64, limbs.Length)
    modifies limbs
    ensures top <= n <= limbs.Length && ValLE(limbs[..n], W64) == V
    ensures n > top ==> limbs[n - 1] != 0
  {
    hide ValLE, Pow, Pending;
    ghost var D := ValLE(limbs[..top], W64);
    n := top;
    NothingTimes(W64, top);
    if c1 != 0 {
      PendingStep(W64, D, top, TwoWords(c1, c0), 0, c1, c0);
      PendingLarge(W64, D + c0 * Pow(W64, top), top + 1, c1, limbs.Length);
      PutWord(limbs, top, c0);
      NothingTimes(W64, top + 1);
      PendingStep(W64, D + c0 * Pow(W64, top), top + 1, c1, 0, 0, c1);
      PutWord(limbs, top + 1, c1);
      n := top + 2;
    } else if c0 != 0 {
      PendingStep(W64, D, top, c0, 0, 0, c0);
      PendingLarge(W64, D, top, c0, limbs.Length);
      PutWord(limbs, top, c0);
      n := top + 1;
    }
    PendingDone(W64, V, n);
    PendingDone(W64, D, top);
    PendingDone(W64, ValLE(limbs[..n], W64), n);
  }

  /** work = work * 58^20 + group. */
  method FoldGroup(limbs: array<uint64>, top: nat, gHi: uint64, gLo: uint64, ghost V: nat) returns (n: nat)
    requires top <= limbs.Length && IsWork(limbs[..top], V)
    requires TwoWords(gHi, gLo) < M20
    requires Scaled(V, M20, TwoWords(gHi, gLo)) < Pow(W64, limbs.Length)
    modifies limbs
    ensures n <= limbs.Length && IsWork(limbs[..n], Scaled(V, M20, TwoWords(gHi, gLo)))
  {
    hide ValLE, Pow, Pending, Scaled, TwoWords;
    ghost var was: seq<nat> := limbs[..top];
    ghost var total := Scaled(V, M20, TwoWords(gHi, gLo));
    var c1, c0 := MulAddLimbs(limbs, top, gHi, gLo);
    n := PushCarry(limbs, top, c1, c0, total);
    if n == top > 0 {
      ValLELower(was, W64);
      ScaledGrows(V, M20, TwoWords(gHi, gLo));
      TopNonzero(limbs[..n], W64);
    }
  }

  // ---- the scratch array is large enough ----

  /** n*733/1000 + 1 bytes, in whole limbs. */
  function NumLimbs(n: nat): nat {
    (n * 733 / 1000 + 1 + 7) / 8
  }

  lemma ScratchSuffices(s: seq<byte>, i: nat)
    requires i <= |s| && Valid(s[..i])
    ensures Val58(s[..i]) < Pow(W64, NumLimbs(|s|))
  {
    hide Pow, Val58, Inverse;
    Val58Bound(s[..i]);
    PowMonotone(58, i, |s|);
    WordPower(NumLimbs(|s|));
    if Val58(s[..i]) >= Pow(256, 8 * NumLimbs(|s|)) {
      DecodedBytes(Val58(s[..i]), 8 * NumLimbs(|s|), |s|);
    }
  }

  lemma WordPower(j: nat)
    ensures Pow(256, 8 * j) == Pow(W64, j)
  {
    SevenBytes();
    hide Pow;
    PowOfPow(256, 8, j, 8 * j);
  }

  // ---- the whole string ----

  lemma NextGroup(s: seq<byte>, i: nat, len: nat, V: nat)
    requires i + len <= |s| && V == Val58(s[..i])
    requires (i == 0 && len <= 20) || len == 20
    requires Valid(s[i..i + len])
    ensures Val58(s[i..i + len]) < M20
    ensures Scaled(V, M20, Val58(s[i..i + len])) == Val58(s[..i + len])
  {
    hide Pow, Val58, Inverse;
    Multiplier();
    Val58Bound(s[i..i + len]);
    PowMonotone(58, len, 20);
    assert s[..i + len] == s[..i] + s[i..i + len];
    Val58Append(s[..i], s[i..i + len]);
    if i == 0 {
      assert s[..0] == [] && s[..len] == s[0..len];
      Val58Empty();
    }
  }

  method ReadGroup(c: seq<byte>) returns (gHi: uint64, gLo: uint64, bad: byte)
    requires 1 <= |c| <= 20
    ensures TwoWords(gHi, gLo) == Val58(c)
    ensures bad < 64 <==> Valid(c)
  {
    if |c| == 20 {
      gHi, gLo, bad := GroupTwenty(c);
    } else {
      gHi, gLo, bad := HeadGroup(c);
    }
  }

  /** One iteration: read the next group and fold it, or report a bad character. */
  method NextFold(s: seq<byte>, limbs: array<uint64>, was: nat, i: nat, len: nat) returns (ok: bool, top: nat)
    requires limbs.Length == NumLimbs(|s|) && i + len <= |s| && 1 <= len <= 20 && (i > 0 ==> len == 20)
    requires was <= limbs.Length && Valid(s[..i]) && IsWork(limbs[..was], Val58(s[..i]))
    modifies limbs
    ensures ok <==> Valid(s[..i + len])
    ensures ok ==> top <= limbs.Length && IsWork(limbs[..top], Val58(s[..i + len]))
  {
    hide Val58, Valid, IsWork, Scaled, Pow, TwoWords, NumLimbs;
    var gHi, gLo, bad := ReadGroup(s[i..i + len]);
    ValidPart(s, i, i + len);
    if bad >= 64 {
      return false, was;
    }
    NextGroup(s, i, len, Val58(s[..i]));
    ScratchSuffices(s, i + len);
    top := FoldGroup(limbs, was, gHi, gLo, Val58(s[..i]));
    ok := true;
  }

  /** The folding loop of appendDecodeVariableScratch. */
  method FoldString(s: seq<byte>, limbs: array<uint64>) returns (ok: bool, top: nat)
    requires s != [] && limbs.Length == NumLimbs(|s|)
    modifies limbs
    ensures ok <==> Valid(s)
    ensures ok ==> top <= limbs.Length && IsWork(limbs[..top], Val58(s))
  {
    hide Val58, Valid, IsWork, NumLimbs;
    top := 0;
    var i := 0;
    var groupLen := if |s| % 20 == 0 then 20 else |s| % 20;
    NoWork(limbs[..0]);
    assert s[..0] == [];
    while i < |s|
      invariant i <= |s| && (i == |s| || (i + groupLen <= |s| && (|s| - i - groupLen) % 20 == 0))
      invariant 1 <= groupLen <= 20 && (i > 0 ==> groupLen == 20)
      invariant Valid(s[..i]) && top <= limbs.Length && IsWork(limbs[..top], Val58(s[..i]))
    {
      ok, top := NextFold(s, limbs, top, i, groupLen);
      if !ok {
        ValidPrefix(s, i + groupLen);
        return;
      }
      i := i + groupLen;
      groupLen := 20;
    }
    assert s[..|s|] == s;
    ok := true;
  }

  lemma NoWork(ls: seq<nat>)
    requires ls == []
    ensures IsWork(ls, Val58([])) && Valid([])
  {
  }

  // ---- the bytes ----

  /** All limbs but the top one, eight bytes each, ending at total. */
  method WriteLowLimbs(limbs: seq<uint64>, out: array<byte>, total: nat)
    requires limbs != [] && 8 * (|limbs| - 1) <= total <= out.Length
    modifies out
    ensures var p := total - 8 * (|limbs| - 1);
            out[..p] == old(out[..p]) && out[total..] == old(out[total..])
            && Val256(out[p..total]) == ValLE(limbs[..|limbs| - 1], W64)
  {
    hide ValLE, ValBE, Val256, Pow;
    var top := |limbs|;
    var p := total;
    ValLEEmpty(W64);
    Val256Empty();
    SevenBytes();
    assert out[total..total] == [] && limbs[..0] == [];
    for j := 0 to top - 1
      invariant p == total - 8 * j
      invariant out[..total - 8 * (top - 1)] == old(out[..total - 8 * (top - 1)])
      invariant out[total..] == old(out[total..])
      invariant Val256(out[p..total]) == ValLE(limbs[..j], W64)
    {
      ghost var rest, front := out[p..total], out[..p - 8];
      PrependBytes(out, p, 8, limbs[j], total);
      assert out[..total - 8 * (top - 1)] == front[..total - 8 * (top - 1)];
      PrependWord(out[p - 8..p], rest, limbs, j);
      p := p - 8;
    }
  }

  /** The limbs as bytes, the top limb without leading zeros. */
  method WriteLimbs(limbs: seq<uint64>, topBytes: nat, out: array<byte>, from: nat, ghost V: nat)
    requires limbs != [] && IsWork(limbs, V)
    requires topBytes == (BitLen(limbs[|limbs| - 1]) + 7) / 8
    requires from + 8 * (|limbs| - 1) + topBytes <= out.Length
    modifies out
    ensures out[..from] == old(out[..from])
    ensures var total := from + 8 * (|limbs| - 1) + topBytes; out[total..] == old(out[total..])
    ensures out[from..from + 8 * (|limbs| - 1) + topBytes] == Bytes(ToBE(V, 256))
  {
    hide ValLE, ValBE, Val256, Pow, BitLen, ToBE, Bytes, IsWork;
    WorkIs(limbs, V);
    var top := |limbs|;
    var p := from + topBytes;
    var total := p + 8 * (top - 1);
    ghost var front := out[..p];
    WriteLowLimbs(limbs, out, total);
    assert out[..from] == front[..from];
    ByteLength(limbs[top - 1]);
    ghost var rest := out[p..total];
    PrependBytes(out, p, topBytes, limbs[top - 1], total);
    PrependWord(out[from..p], rest, limbs, top - 1);
    assert limbs[..top] == limbs;
    FirstByte(out[from..p]);
    CanonicalBytes(out[from..total]);
  }

  lemma WorkIs(ls: seq<nat>, V: nat)
    requires IsWork(ls, V) && ls != []
    ensures ValLE(ls, W64) == V && ls[|ls| - 1] != 0
  {
  }

  lemma PrependWord(word: seq<byte>, rest: seq<byte>, ls: seq<nat>, j: nat)
    requires j < |ls| && Val256(word) == ls[j] && |rest| == 8 * j && Val256(rest) == ValLE(ls[..j], W64)
    ensures Val256(word + rest) == ValLE(ls[..j + 1], W64)
  {
    hide ValLE, ValBE, Pow;
    ValBEAppend(word, rest, 256);
    WordPower(j);
    ValLEStep(ls, j, W64);
  }

  /** What a decoder appends: `zeros` zero bytes and the bytes of s, or an error. */
  ghost predicate Appended(r: Result<Slice>, was: seq<byte>, zeros: nat, s: seq<byte>)
    reads if r.Ok? then {r.value.buf} else {}
  {
    if Valid(s)
    then r.Ok? && r.value.Valid() && r.value.Contents() == was + Repeat(0, zeros) + Bytes(ToBE(Val58(s), 256))
    else r == Err(InvalidChar)
  }

  /** What it may write in the buffer of dst: the bytes it appends, and none on an error. */
  ghost predicate WroteOnly(r: Result<Slice>, dst: Slice, before: seq<byte>, after: seq<byte>) {
    if r.Ok? then SameOutside(before, after, dst.len, r.value.len) else after == before
  }

  method ClearZeros(out: array<byte>, start: nat, zeros: nat)
    requires start + zeros <= out.Length
    modifies out
    ensures out[..start] == old(out[..start]) && out[start..start + zeros] == Repeat(0, zeros)
    ensures out[start + zeros..] == old(out[start + zeros..])
  {
    Fill(out, start, zeros, 0);
  }

  lemma PositiveString(s: seq<byte>)
    requires s != [] && s[0] != ONE && Valid(s)
    ensures Val58(s) > 0
  {
    hide ValBE;
    PositiveValue(Digits(s), 0, 58);
  }

  /** appendDecodeVariable below the large threshold. */
  method AppendDecodeLimbs(dst: Slice, s: seq<byte>, zeros: nat) returns (r: Result<Slice>)
    requires dst.Valid() && s != [] && s[0] != ONE
    modifies dst.buf
    ensures Appended(r, old(dst.Contents()), zeros, s)
    ensures WroteOnly(r, dst, old(dst.buf[..]), dst.buf[..])
    ensures r.Ok? ==> if r.value.len <= dst.buf.Length then r.value.buf == dst.buf else fresh(r.value.buf)
  {
    hide Val58, Inverse, IsWork, Bytes, ToBE;
    var limbs := new uint64[NumLimbs(|s|)](_ => 0);
    var ok, top := FoldString(s, limbs);
    if !ok {
      return Err(InvalidChar);
    }
    PositiveString(s);
    TopExists(limbs[..top], Val58(s));
    var out := AppendLimbs(dst, zeros, limbs[..top], Val58(s));
    r := Ok(out);
  }

  /** The tail of appendDecodeVariableScratch: grow, clear, write. */
  method AppendLimbs(dst: Slice, zeros: nat, limbs: seq<uint64>, ghost V: nat) returns (r: Slice)
    requires dst.Valid() && limbs != [] && IsWork(limbs, V)
    modifies dst.buf
    ensures r.Valid() && r.Contents() == old(dst.Contents()) + Repeat(0, zeros) + Bytes(ToBE(V, 256))
    ensures if r.len <= dst.buf.Length then r.buf == dst.buf else fresh(r.buf)
    ensures SameOutside(old(dst.buf[..]), dst.buf[..], dst.len, r.len)
  {
    hide IsWork, BitLen, Bytes, ToBE;
    var topBytes := (BitLen(limbs[|limbs| - 1]) + 7) / 8;
    r := Extend(dst, zeros + 8 * (|limbs| - 1) + topBytes);
    FillLimbs(r.buf, dst.len, zeros, limbs, topBytes, V);
    if r.buf == dst.buf {
      OutsideParts(old(dst.buf[..]), dst.buf[..], dst.len, r.len);
    }
  }

  method FillLimbs(out: array<byte>, start: nat, zeros: nat, limbs: seq<uint64>, topBytes: nat, ghost V: nat)
    requires limbs != [] && IsWork(limbs, V)
    requires topBytes == (BitLen(limbs[|limbs| - 1]) + 7) / 8
    requires start + zeros + 8 * (|limbs| - 1) + topBytes <= out.Length
    modifies out
    ensures out[..start + zeros + 8 * (|limbs| - 1) + topBytes]
         == old(out[..start]) + Repeat(0, zeros) + Bytes(ToBE(V, 256))
    ensures out[..start] == old(out[..start])
    ensures var total := start + zeros + 8 * (|limbs| - 1) + topBytes; out[total..] == old(out[total..])
  {
    hide IsWork, BitLen, Bytes, ToBE;
    var from := start + zeros;
    var total := from + 8 * (|limbs| - 1) + topBytes;
    ghost var before := out[..];
    ClearZeros(out, start, zeros);
    ghost var cleared := out[..];
    WholePrefix(cleared, start, from);
    KeptAfter(before, cleared, from, total, total);
    WriteLimbs(limbs, topBytes, out, from, V);
    WholePrefix(out[..], from, total);
    KeptBefore(cleared, out[..], from, start, start);
  }

  lemma TopExists(ls: seq<nat>, V: nat)
    requires IsWork(ls, V) && V > 0
    ensures ls != []
  {
  }
}
