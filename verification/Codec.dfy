/** The codec as a whole: tables and shared integers set up by the program's own
    initialisers, then both directions in turn. */
module Codec {
  import opened Words
  import opened Alphabet
  import opened Base58
  import opened Tables
  import opened Matrix
  import opened Sequences
  import opened Slices
  import opened Encode
  import opened Decode
  import opened Large

  /** What package initialisation computes: the row bounds of both 64-byte tables and
      the shared powers of 58. */
  method Init() returns (enc: seq<(nat, nat)>, dec: seq<(nat, nat)>, base: seq<BigInt>)
    ensures TableBounds(ENC64, enc) && TableBounds(DEC64, dec)
    ensures BasePowers(base) && fresh(base)
  {
    hide Bounds, Tight, BasePowers, ENC64, DEC64;
    enc := RowBounds(ENC64);
    dec := RowBounds(DEC64);
    base := InitPowers();
  }

  /** Decode(Encode(b)) = b. */
  method EncodeThenDecode(b: seq<byte>) returns (r: Result<seq<byte>>)
    ensures r == Ok(b)
  {
    hide Encoding, Decoding, TableBounds, BasePowers;
    var enc, dec, base := Init();
    var s := EncodeBytes(b, enc);
    DecodeOfEncode(b);
    r := DecodeString(s, dec, base);
  }

  /** Encode(Decode(s)) = s, or the error exactly when s is not over the alphabet. */
  method DecodeThenEncode(s: seq<byte>) returns (r: Result<seq<byte>>)
    ensures r == if Valid(s) then Ok(s) else Err(InvalidChar)
  {
    hide Encoding, TableBounds, BasePowers;
    var enc, dec, base := Init();
    var b := DecodeString(s, dec, base);
    if b.Err? {
      return Err(b.error);
    }
    EncodeOfDecode(s);
    var t := EncodeBytes(b.value, enc);
    r := Ok(t);
  }

  // ---- buffers shared between calls ----

  /** Appending two values to one prefix: whether or not the buffer has room, the second
      result has the same prefix as the first. */
  method AppendTwice(dst: Slice, a: seq<byte>, b: seq<byte>) returns (first: seq<byte>, second: seq<byte>)
    requires dst.Valid()
    modifies dst.buf
    ensures first == old(dst.Contents()) + Encoding(a) && second == old(dst.Contents()) + Encoding(b)
    ensures dst.Contents() == old(dst.Contents())
  {
    hide Encoding, Reach, TableBounds, BasePowers;
    var enc, dec, base := Init();
    var r := AppendEncode(dst, a, enc);
    first := r.buf[..r.len];
    r := AppendEncode(dst, b, enc);
    second := r.buf[..r.len];
  }

  /** Two keys decoded into neighbouring parts of one buffer, the later part first: the
      second call fills its part in place and leaves the other alone. */
  method DecodeSideBySide(buf: array<byte>, a: seq<byte>, b: seq<byte>)
    requires |a| + |b| == buf.Length
    modifies buf
    ensures buf[..] == a + b
  {
    hide Encoding, Decoding, TableBounds, BasePowers;
    var enc, dec, base := Init();
    DecodeOfEncode(a);
    DecodeOfEncode(b);
    var s := EncodeBytes(a, enc);
    var t := EncodeBytes(b, enc);
    DecodeInto(buf, |a|, t, b, dec, base);
    assert buf[|a|..|a| + |b|] == buf[|a|..];
    DecodeInto(buf, 0, s, a, dec, base);
    WholePrefix(buf[..], |a|, buf.Length);
    assert buf[..buf.Length] == buf[..] && buf[0..|a|] == buf[..|a|];
  }

  /** AppendDecode(buf[:at], s) for a value that fits behind: it lands in the buffer, and
      nothing else there changes. */
  method DecodeInto(buf: array<byte>, at: nat, s: seq<byte>, ghost b: seq<byte>, dec: seq<(nat, nat)>,
                    base: seq<BigInt>)
    requires Decoding(s) == Ok(b) && at + |b| <= buf.Length
    requires TableBounds(DEC64, dec) && BasePowers(base)
    modifies buf
    ensures buf[at..at + |b|] == b
    ensures buf[..at] == old(buf[..at]) && buf[at + |b|..] == old(buf[at + |b|..])
  {
    hide Encoding, Decoding, TableBounds, BasePowers, Valid;
    ghost var front := buf[..at];
    var r := AppendDecode(Slice(buf, at), s, dec, base);
    ghost var whole := r.value.Contents();
    assert whole == front + b;
    assert r.value.len == |whole|;
    SubSlice(buf[..], 0, at + |b|, at, at + |b|);
    assert whole[at..] == b;
  }
}
