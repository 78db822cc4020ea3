/** Decode and AppendDecode (decode.go): two guarded fast-path attempts, then the
    limb or tree decoder. Whatever path is taken the result is Base58.Decoding. */
module Decode {
  import opened Radix
  import opened Words
  import opened Alphabet
  import opened Base58
  import opened Tables
  import opened Matrix
  import opened Slices
  import opened Fixed
  import opened ByteCounts
  import opened DigitGroups
  import opened DecodeVariable
  import opened DecodeFixed
  import opened Large

  const LARGE_DECODE: nat := 8192

  // ---- the length and byte-count guards ----

  /** The test Decode makes before it attempts the n-byte fast path. */
  predicate Worthwhile(encLen: nat, zeros: nat, n: nat, maxLen: nat)
    requires zeros < encLen && maxLen <= 88
  {
    n <= encLen <= maxLen &&
    (MinShapes(); MaxShapes();
     var k := encLen - zeros;
     DEC_MIN[k] <= n - zeros <= DEC_MAX[k])
  }

  lemma EncodingCounts(b: seq<byte>)
    requires Leading(b, 0) < |b|
    ensures var k, m := |Encoding(b)| - Leading(b, 0), |b| - Leading(b, 0);
            k >= 1 && m >= 1
            && Pow(58, k - 1) <= Val256(b) < Pow(58, k)
            && Pow(256, m - 1) <= Val256(b) < Pow(256, m)
  {
    hide Pow, ValBE, ToBE, Encoding, Leading;
    EncodingLength(b);
    StripZeros(b);
    var t := b[Leading(b, 0)..];
    NonzeroStart(t);
    ValBELower(t, 256);
    ToBELength(Val256(b), 58);
  }

  /** The guard is transparent: whenever the fast path would succeed, the guard
      lets it run. */
  lemma GuardSkipsOnlyFailures(s: seq<byte>, n: nat, maxLen: nat)
    requires n > 0 && 11 * n <= 8 * maxLen && maxLen <= 88
    requires Leading(s, ONE) < |s| && FixedDecoding(s, n, maxLen).Ok?
    ensures Worthwhile(|s|, Leading(s, ONE), n, maxLen)
  {
    hide Pow, ValBE, FixedDecoding, Encoding, DEC_MIN, DEC_MAX, Leading;
    var b := FixedDecoding(s, n, maxLen).value;
    AcceptsExactlyEncodings(s, n, maxLen, b);
    EncodingIsValid(b);
    EncodingLength(b);
    ByteCountsOf(b);
    EncodingCounts(b);
    ByteCount(Val256(b), |s| - Leading(s, ONE), n - Leading(s, ONE));
  }

  lemma ByteCountsOf(b: seq<byte>)
    requires Leading(b, 0) < |Encoding(b)|
    ensures Leading(b, 0) < |b|
  {
    hide ValBE, Leading;
    if Leading(b, 0) == |b| {
      StripZeros(b);
      assert b[Leading(b, 0)..] == [];
      Val256Empty();
      ZeroText();
      EncodingLength(b);
    }
  }

  /** A fast path that succeeds gives what the general decoder would. */
  lemma FastPathAgrees(s: seq<byte>, n: nat, maxLen: nat)
    requires n > 0 && 11 * n <= 8 * maxLen && FixedDecoding(s, n, maxLen).Ok?
    ensures FixedDecoding(s, n, maxLen) == Decoding(s)
  {
    hide FixedDecoding, Decoding, Encoding;
    var b := FixedDecoding(s, n, maxLen).value;
    AcceptsExactlyEncodings(s, n, maxLen, b);
    DecodeOfEncode(b);
  }

  // ---- the general decoder ----

  lemma ValidRest(s: seq<byte>)
    ensures Valid(s) <==> Valid(s[Leading(s, ONE)..])
  {
    hide Inverse, Leading, Valid;
    var z := Leading(s, ONE);
    StripOnes(s);
    ValidAppend(Repeat(ONE, z), s[z..]);
    OnesAreValid(z);
  }

  lemma OnesAreValid(n: nat)
    ensures Valid(Repeat(ONE, n))
  {
    InverseOfChar(0);
  }

  lemma RestValue(s: seq<byte>)
    ensures Val58(s) == Val58(s[Leading(s, ONE)..])
  {
    hide Val58, Leading;
    StripOnes(s);
  }

  /** What AppendDecode returns: dst ++ Decode(s), or Decode's error. */
  ghost predicate Appends(r: Result<Slice>, was: seq<byte>, s: seq<byte>)
    reads if r.Ok? then {r.value.buf} else {}
  {
    match Decoding(s)
    case Ok(b) => r.Ok? && r.value.Valid() && r.value.Contents() == was + b
    case Err(e) => r == Err(e)
  }

  lemma RestDecodes(r: Result<Slice>, was: seq<byte>, s: seq<byte>)
    requires Appended(r, was, Leading(s, ONE), s[Leading(s, ONE)..])
    ensures Appends(r, was, s)
  {
    hide Val58, ToBE, Leading;
    ValidRest(s);
    RestValue(s);
    if Valid(s) {
      var z, t := Repeat(0, Leading(s, ONE)), Bytes(ToBE(Val58(s), 256));
      assert was + z + t == was + (z + t);
    }
  }

  /** appendDecodeVariable. */
  method AppendDecodeVariable(dst: Slice, encoded: seq<byte>, zeros: nat, base: seq<BigInt>) returns (r: Result<Slice>)
    requires dst.Valid() && BasePowers(base) && zeros == Leading(encoded, ONE) < |encoded|
    modifies dst.buf
    ensures Appends(r, old(dst.Contents()), encoded)
    ensures WroteOnly(r, dst, old(dst.buf[..]), dst.buf[..])
    ensures r.Ok? ==> if r.value.len <= dst.buf.Length then r.value.buf == dst.buf else fresh(r.value.buf)
  {
    hide Appended, Appends, BasePowers;
    var s := encoded[zeros..];
    if |s| >= LARGE_DECODE {
      r := AppendDecodeLarge(dst, s, zeros, base);
    } else {
      r := AppendDecodeLimbs(dst, s, zeros);
    }
    RestDecodes(r, old(dst.Contents()), encoded);
  }

  // ---- dispatch ----

  lemma AllOnes(s: seq<byte>)
    requires Leading(s, ONE) == |s|
    ensures Decoding(s) == Ok(Repeat(0, |s|))
  {
    hide ValBE, Leading;
    RestValue(s);
    ValidRest(s);
    assert s[Leading(s, ONE)..] == [];
    Val58Empty();
    NoBytesOfZero();
    assert Repeat(0, |s|) + [] == Repeat(0, |s|);
  }

  lemma NoBytesOfZero()
    ensures ToBE(0, 256) == [] && Bytes([]) == []
  {
  }

  /** One guarded attempt of Decode: a value only if the fast path succeeded. */
  method Attempt(encoded: seq<byte>, zeros: nat, n: nat, bounds: seq<(nat, nat)>) returns (ok: bool, out: seq<byte>)
    requires n == 32 || n == 64
    requires zeros == Leading(encoded, ONE) < |encoded| && TableBounds(DEC64, bounds)
    ensures ok <==> FixedDecoding(encoded, n, if n == 32 then 45 else 90).Ok?
    ensures ok ==> Decoding(encoded) == Ok(out)
  {
    hide FixedDecoding, Decoding, TableBounds, Leading;
    var maxLen := if n == 32 then 44 else 88;
    GuardLengths(encoded, n);
    if Worthwhile(|encoded|, zeros, n, maxLen) {
      var dst := new byte[n](_ => 0);
      var r;
      if n == 32 {
        r := Decode32(encoded, dst);
      } else {
        r := Decode64(encoded, dst, bounds);
      }
      if r == Done {
        FastPathAgrees(encoded, n, if n == 32 then 45 else 90);
        return true, dst[..];
      }
    } else if FixedDecoding(encoded, n, maxLen).Ok? {
      GuardSkipsOnlyFailures(encoded, n, maxLen);
      assert false;
    }
    ok, out := false, [];
  }

  /** A string one longer than the longest encoding never succeeds. */
  lemma GuardLengths(s: seq<byte>, n: nat)
    requires n == 32 || n == 64
    ensures FixedDecoding(s, n, if n == 32 then 45 else 90).Ok?
        <==> FixedDecoding(s, n, if n == 32 then 44 else 88).Ok?
  {
    hide Val58, Inverse, Leading, Encoding, Pow, FixedBE;
    var long := FixedDecoding(s, n, if n == 32 then 45 else 90);
    var short := FixedDecoding(s, n, if n == 32 then 44 else 88);
    if long.Ok? {
      AcceptsExactlyEncodings(s, n, if n == 32 then 45 else 90, long.value);
      AcceptsExactlyEncodings(s, n, if n == 32 then 44 else 88, long.value);
    }
  }

  lemma AppendedToNothing(r: Result<Slice>, s: seq<byte>)
    requires r.Ok? && Appends(r, [], s)
    ensures r.value.Valid() && Decoding(s) == Ok(r.value.Contents())
  {
    hide Decoding;
    assert [] + r.value.Contents() == r.value.Contents();
    if Decoding(s).Ok? {
      assert [] + Decoding(s).value == Decoding(s).value;
    }
  }

  /** Decode. */
  method DecodeString(encoded: seq<byte>, bounds: seq<(nat, nat)>, base: seq<BigInt>) returns (r: Result<seq<byte>>)
    requires TableBounds(DEC64, bounds) && BasePowers(base)
    ensures r == Decoding(encoded)
    ensures if Valid(encoded) then r.Ok? && encoded == Encoding(r.value) else r == Err(InvalidChar)
  {
    hide Decoding, TableBounds, BasePowers, FixedDecoding, Encoding, Valid;
    DecodingIs(encoded);
    if |encoded| == 0 {
      AllOnes(encoded);
      assert Repeat(0, 0) == [];
      return Ok([]);
    }
    var zeros := CountLeading(encoded, ONE);
    if zeros == |encoded| {
      AllOnes(encoded);
      return Ok(Repeat(0, zeros));
    }
    var ok, out := Attempt(encoded, zeros, 32, bounds);
    if ok {
      return Ok(out);
    }
    ok, out := Attempt(encoded, zeros, 64, bounds);
    if ok {
      return Ok(out);
    }
    var empty := new byte[0];
    assert Slice(empty, 0).Contents() == [];
    var grown := AppendDecodeVariable(Slice(empty, 0), encoded, zeros, base);
    if grown.Err? {
      return Err(grown.error);
    }
    AppendedToNothing(grown, encoded);
    r := Ok(grown.value.buf[..grown.value.len]);
  }

  /** AppendDecode. */
  method AppendDecode(dst: Slice, encoded: seq<byte>, bounds: seq<(nat, nat)>, base: seq<BigInt>)
    returns (r: Result<Slice>)
    requires dst.Valid() && TableBounds(DEC64, bounds) && BasePowers(base)
    modifies dst.buf
    ensures Appends(r, old(dst.Contents()), encoded)
    ensures if Valid(encoded) then r.Ok? else r == Err(InvalidChar) && dst.buf[..] == old(dst.buf[..])
    ensures r.Ok? ==> if r.value.len <= dst.buf.Length then r.value.buf == dst.buf else fresh(r.value.buf)
    ensures dst.buf[..dst.len] == old(dst.buf[..dst.len])
    ensures r.Ok? && r.value.buf == dst.buf ==> dst.buf[r.value.len..] == old(dst.buf[..])[r.value.len..]
  {
    hide Decoding, TableBounds, BasePowers, FixedDecoding, Encoding, Valid;
    DecodingIs(encoded);
    if |encoded| == 0 {
      AllOnes(encoded);
      return Ok(dst);
    }
    var zeros := CountLeading(encoded, ONE);
    if zeros == |encoded| {
      AllOnes(encoded);
      var s := AppendRepeated(dst, 0, zeros);
      assert s.len == |s.Contents()|;
      return Ok(s);
    }
    var ok, out := Attempt(encoded, zeros, 32, bounds);
    if !ok {
      ok, out := Attempt(encoded, zeros, 64, bounds);
    }
    if ok {
      var s := AppendAll(dst, out);
      return Ok(s);
    }
    r := AppendDecodeVariable(dst, encoded, zeros, base);
  }
}
