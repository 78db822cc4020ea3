/** What the codec means: leading zero bytes become leading '1's, the rest is a
    big-endian number rewritten in base 58. Every encoder and decoder modelled here
    is proved equal to these two functions. */
module Base58 {
  import opened Radix
  import opened Words
  import opened Alphabet

  datatype Error = InvalidChar | InvalidLength | ValueTooLarge | LeadingZeros

  datatype Result<+T> = Ok(value: T) | Err(error: Error)

  function Repeat(x: byte, n: nat): (s: seq<byte>)
    ensures |s| == n && forall i :: 0 <= i < n ==> s[i] == x
  {
    seq(n, _ => x)
  }

  /** How many elements equal to x the sequence starts with. */
  function Leading(s: seq<byte>, x: byte): (n: nat)
    ensures n <= |s|
    ensures forall i :: 0 <= i < n ==> s[i] == x
    ensures n < |s| ==> s[n] != x
  {
    if s == [] || s[0] != x then 0 else
      var m := Leading(s[1..], x);
      assert forall i :: 1 <= i < m + 1 ==> s[i] == s[1..][i - 1];
      m + 1
  }

  lemma LeadingUnique(s: seq<byte>, x: byte, n: nat)
    requires n <= |s|
    requires forall i :: 0 <= i < n ==> s[i] == x
    requires n < |s| ==> s[n] != x
    ensures n == Leading(s, x)
  {
    var m := Leading(s, x);
    var atM := if m < |s| then s[m] else x;
    var atN := if n < |s| then s[n] else x;
  }

  function Val256(b: seq<byte>): nat {
    ValBE(b, 256)
  }

  lemma Val256Empty()
    ensures Val256([]) == 0
  {
  }

  function Encoding(b: seq<byte>): seq<byte> {
    Repeat(ONE, Leading(b, 0)) + Text(ToBE(Val256(b), 58))
  }

  function Decoding(s: seq<byte>): Result<seq<byte>> {
    if Valid(s)
    then Ok(Repeat(0, Leading(s, ONE)) + Bytes(ToBE(Val58(s), 256)))
    else Err(InvalidChar)
  }

  function Bytes(ds: seq<nat>): (b: seq<byte>)
    requires AllBelow(ds, 256)
    ensures |b| == |ds| && forall i :: 0 <= i < |b| ==> b[i] == ds[i]
  {
    seq(|ds|, i requires 0 <= i < |ds| => ds[i])
  }

  // ---- leading symbols ----

  lemma LeadingSplit(x: byte, n: nat, t: seq<byte>)
    requires t != [] ==> t[0] != x
    ensures Leading(Repeat(x, n) + t, x) == n
  {
    LeadingUnique(Repeat(x, n) + t, x, n);
  }

  lemma Val256LeadingZeros(n: nat, t: seq<byte>)
    ensures Val256(Repeat(0, n) + t) == Val256(t)
  {
    assert Repeat(0, n) + t == Zeros(n) + t;
    ValBELeadingZeros(n, t, 256);
  }

  lemma Val58LeadingOnes(n: nat, t: seq<byte>)
    ensures Val58(Repeat(ONE, n) + t) == Val58(t)
  {
    InverseOfChar(0);
    assert Digits(Repeat(ONE, n) + t) == Zeros(n) + Digits(t);
    ValBELeadingZeros(n, Digits(t), 58);
  }

  lemma StripZeros(b: seq<byte>)
    ensures b == Repeat(0, Leading(b, 0)) + b[Leading(b, 0)..]
    ensures Val256(b) == Val256(b[Leading(b, 0)..])
  {
    hide Leading, Val256;
    var n := Leading(b, 0);
    assert b == Repeat(0, n) + b[n..];
    Val256LeadingZeros(n, b[n..]);
  }

  lemma StripOnes(s: seq<byte>)
    ensures s == Repeat(ONE, Leading(s, ONE)) + s[Leading(s, ONE)..]
    ensures Val58(s) == Val58(s[Leading(s, ONE)..])
  {
    hide Leading, Val58;
    var n := Leading(s, ONE);
    assert s == Repeat(ONE, n) + s[n..];
    Val58LeadingOnes(n, s[n..]);
  }

  /** Zero-stripped bytes are the canonical base-256 digits of their value. */
  lemma CanonicalBytes(b: seq<byte>)
    requires b != [] ==> b[0] != 0
    ensures b == Bytes(ToBE(Val256(b), 256))
  {
    ToBEUnique(b, 256);
  }

  // ---- the central law ----

  lemma EncodingIsValid(b: seq<byte>)
    ensures Valid(Encoding(b))
    ensures Leading(Encoding(b), ONE) == Leading(b, 0)
    ensures Val58(Encoding(b)) == Val256(b)
  {
    hide ValBE, ToBE, Pow;
    var ds := ToBE(Val256(b), 58);
    DigitsText(ds);
    InverseOfChar(0);
    LeadingSplit(ONE, Leading(b, 0), Text(ds));
    Val58LeadingOnes(Leading(b, 0), Text(ds));
  }

  /** Those three facts say which string the encoding is. */
  lemma IsEncodingOf(s: seq<byte>, b: seq<byte>)
    ensures s == Encoding(b) <==> Valid(s) && Leading(s, ONE) == Leading(b, 0) && Val58(s) == Val256(b)
  {
    hide ValBE, ToBE, Pow, Val58;
    EncodingIsValid(b);
    if Valid(s) {
      StripOnes(s);
      CanonicalText(s[Leading(s, ONE)..]);
    }
  }

  /** Decode(Encode(b)) = b for every byte string. */
  lemma DecodeOfEncode(b: seq<byte>)
    ensures Decoding(Encoding(b)) == Ok(b)
  {
    hide ValBE, ToBE, Pow;
    EncodingIsValid(b);
    StripZeros(b);
    CanonicalBytes(b[Leading(b, 0)..]);
  }

  /** Encode(Decode(s)) = s for every string that decodes. */
  lemma EncodeOfDecode(s: seq<byte>)
    requires Decoding(s).Ok?
    ensures Encoding(Decoding(s).value) == s
  {
    hide ValBE, ToBE, Pow;
    var t := Bytes(ToBE(Val58(s), 256));
    LeadingSplit(0, Leading(s, ONE), t);
    Val256LeadingZeros(Leading(s, ONE), t);
    StripOnes(s);
    CanonicalText(s[Leading(s, ONE)..]);
    assert t == ToBE(Val58(s), 256);
  }

  /** A string decodes to b exactly when it is the encoding of b. */
  lemma DecodesToIffEncodes(s: seq<byte>, b: seq<byte>)
    ensures Decoding(s) == Ok(b) <==> s == Encoding(b)
  {
    DecodeOfEncode(b);
    if Decoding(s) == Ok(b) {
      EncodeOfDecode(s);
    }
  }

  // ---- bytes as words ----

  lemma Val256Step4(b: seq<byte>, i: nat)
    requires i + 4 <= |b|
    ensures Val256(b[..i + 4]) == Val256(b[..i]) * W32 + Uint32BE(b[i], b[i + 1], b[i + 2], b[i + 3])
  {
    ValBEStep(b, i, 256);
    ValBEStep(b, i + 1, 256);
    ValBEStep(b, i + 2, 256);
    ValBEStep(b, i + 3, 256);
  }

  lemma Val256Prefix(b: seq<byte>, i: nat)
    requires i <= |b|
    ensures Val256(b[..i]) < Pow(256, i)
  {
    hide ValBE, Pow;
    ValBEBound(b[..i], 256);
  }

  lemma Powers256()
    ensures Pow(256, 0) == 1 && Pow(256, 1) == 256 && Pow(256, 2) == 0x1_0000
    ensures Pow(256, 3) == 0x100_0000 && Pow(256, 4) == W32
  {
  }

  lemma SevenBytes()
    ensures Pow(256, 7) < Pow(256, 8) == W64
  {
    Powers256();
    PowAdd(256, 4, 3);
    PowAdd(256, 4, 4);
  }

  lemma NonzeroStart(b: seq<byte>)
    requires b != [] && b[0] != 0
    ensures 0 < Val256(b) < Pow(256, |b|)
  {
    PositiveValue(b, 0, 256);
    Val256Prefix(b, |b|);
    assert b[..|b|] == b;
  }

  /** Decoding fails for characters outside the alphabet alone, and with one error. */
  lemma DecodingIs(s: seq<byte>)
    ensures Decoding(s) == if Valid(s) then Ok(Decoding(s).value) else Err(InvalidChar)
    ensures Valid(s) ==> s == Encoding(Decoding(s).value)
  {
    hide Encoding, Val58, ToBE, Leading;
    if Valid(s) {
      EncodeOfDecode(s);
    }
  }

  // ---- encodings in order ----

  /** Encodings of one length are in dictionary order of the numbers they encode. */
  lemma EncodingOrder(a: seq<byte>, b: seq<byte>)
    requires |Encoding(a)| == |Encoding(b)|
    ensures Val256(a) < Val256(b) <==> LexLess(Encoding(a), Encoding(b))
  {
    hide Encoding, Val256, Val58, Valid, LexLess;
    EncodingIsValid(a);
    EncodingIsValid(b);
    ValueIsDictionaryOrder(Encoding(a), Encoding(b));
  }

  /** Without leading zero bytes a shorter encoding is a smaller number. */
  lemma EncodingLengthOrder(a: seq<byte>, b: seq<byte>)
    requires b != [] && b[0] != 0 && |Encoding(a)| < |Encoding(b)|
    ensures Val256(a) < Val256(b)
  {
    hide ValBE, ToBE, Pow, Leading, Text;
    NonzeroStart(b);
    LeadingUnique(b, 0, 0);
    ToBELength(Val256(b), 58);
    EncodingIsValid(a);
    Val58Bound(Encoding(a));
    PowMonotone(58, |Encoding(a)|, |Encoding(b)| - 1);
  }

  lemma ThreeBytes(b: seq<byte>)
    requires |b| == 3
    ensures Val256(b) == (b[0] as nat * 256 + b[1]) * 256 + b[2]
  {
    hide ValBE;
    Val256Empty();
    assert b[..0] == [] && b[..3] == b;
    ValBEStep(b, 0, 256);
    ValBEStep(b, 1, 256);
    ValBEStep(b, 2, 256);
  }

  lemma FourCharacters(s: seq<byte>)
    requires |s| == 4
    ensures Val58(s) == ((Inverse(s[0]) * 58 + Inverse(s[1])) * 58 + Inverse(s[2])) * 58 + Inverse(s[3])
    ensures Valid(s) <==> Inverse(s[0]) < 58 && Inverse(s[1]) < 58 && Inverse(s[2]) < 58 && Inverse(s[3]) < 58
  {
    hide Val58, Inverse;
    Val58Empty();
    assert s[..0] == [] && s[..4] == s;
    Val58Step(s, 0);
    Val58Step(s, 1);
    Val58Step(s, 2);
    Val58Step(s, 3);
  }

  lemma FourForThree(s: seq<byte>, b: seq<byte>)
    requires |s| == 4 && |b| == 3 && s[0] != ONE && b[0] != 0
    requires Inverse(s[0]) < 58 && Inverse(s[1]) < 58 && Inverse(s[2]) < 58 && Inverse(s[3]) < 58
    requires ((Inverse(s[0]) * 58 + Inverse(s[1])) * 58 + Inverse(s[2])) * 58 + Inverse(s[3])
          == (b[0] as nat * 256 + b[1]) * 256 + b[2]
    ensures Encoding(b) == s
  {
    hide Val58, Val256, Inverse, Encoding, Leading, Valid;
    FourCharacters(s);
    ThreeBytes(b);
    LeadingUnique(s, ONE, 0);
    LeadingUnique(b, 0, 0);
    IsEncodingOf(s, b);
  }

  /** Test vectors of the repository: 626262 is a3gV and 636363 is aPEr. */
  lemma KnownEncodings()
    ensures Encoding([0x62, 0x62, 0x62]) == [97, 51, 103, 86]
    ensures Encoding([0x63, 0x63, 0x63]) == [97, 80, 69, 114]
  {
    hide Encoding;
    FourForThree([97, 51, 103, 86], [0x62, 0x62, 0x62]);
    FourForThree([97, 80, 69, 114], [0x63, 0x63, 0x63]);
  }
}
