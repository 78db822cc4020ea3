/** Rendering base-58^5 limbs as text: the pair table and extractChars5
    (tables.go, encode.go). */
module Chars {
  import opened Radix
  import opened Words
  import opened Alphabet
  import opened Sizes

  /** An entry of base58Pairs: the two characters of x, the more significant
      one in the low byte. */
  function Pair(x: nat): (w: uint16)
    requires x < 3364
  {
    Char(x % 58) * 256 + Char(x / 58)
  }

  /** binary.LittleEndian.PutUint16. */
  method PutUint16LE(out: array<byte>, at: nat, w: uint16)
    requires at + 2 <= out.Length
    modifies out
    ensures out[at] == w % 256 && out[at + 1] == w / 256
    ensures forall i :: 0 <= i < out.Length && i != at && i != at + 1 ==> out[i] == old(out[i])
  {
    out[at] := w % 256;
    out[at + 1] := w / 256;
  }

  /** Five characters spelling v. */
  ghost predicate Spells5(s: seq<byte>, v: nat) {
    |s| == 5 && Valid(s) && Val58(s) == v
  }

  lemma FiveDigits(s: seq<byte>, a: nat, b: nat, c: nat, d: nat, e: nat)
    requires a < 58 && b < 58 && c < 58 && d < 58 && e < 58
    requires s == [Char(a), Char(b), Char(c), Char(d), Char(e)]
    ensures Spells5(s, (((a * 58 + b) * 58 + c) * 58 + d) * 58 + e)
  {
    hide ValBE, Inverse, Char;
    InverseOfChar(a);
    InverseOfChar(b);
    InverseOfChar(c);
    InverseOfChar(d);
    InverseOfChar(e);
    assert Digits(s) == [a] + [b] + [c] + [d] + [e];
    ValBEEmpty(58);
    ValBESnoc([], a, 58);
    assert [] + [a] == [a];
    ValBESnoc([a], b, 58);
    ValBESnoc([a] + [b], c, 58);
    ValBESnoc([a] + [b] + [c], d, 58);
    ValBESnoc([a] + [b] + [c] + [d], e, 58);
  }

  /** Writes the five characters of v < 58^5 at out[at..at + 5). */
  method ExtractChars5(v: uint32, out: array<byte>, at: nat)
    requires v < LIMB && at + 5 <= out.Length
    modifies out
    ensures Spells5(out[at..at + 5], v)
    ensures out[..at] == old(out[..at]) && out[at + 5..] == old(out[at + 5..])
  {
    hide Char, Pair, Spells5;
    var q1 := v / 3364;
    PutUint16LE(out, at + 3, Pair(v - q1 * 3364));
    var q2 := q1 / 3364;
    PutUint16LE(out, at + 1, Pair(q1 - q2 * 3364));
    out[at] := Char(q2);
    ChunkedDigits(v, q1, q2, out[at..at + 5]);
    assert forall i :: 0 <= i < out.Length && !(at <= i < at + 5) ==> out[i] == old(out[i]);
  }

  lemma ChunkedDigits(v: nat, q1: nat, q2: nat, s: seq<byte>)
    requires v < LIMB && q1 == v / 3364 && q2 == q1 / 3364 && |s| == 5
    requires s[0] == Char(q2)
    requires s[1] == Pair(q1 - q2 * 3364) % 256 && s[2] == Pair(q1 - q2 * 3364) / 256
    requires s[3] == Pair(v - q1 * 3364) % 256 && s[4] == Pair(v - q1 * 3364) / 256
    ensures Spells5(s, v)
  {
    hide Char, Spells5;
    var mid, lo := q1 - q2 * 3364, v - q1 * 3364;
    FiveDigits(s, q2, mid / 58, mid % 58, lo / 58, lo % 58);
  }

  /** Significant base-58 digits of v < 58^5, 0 for v == 0. */
  function DigitCount5(v: uint32): (n: nat)
    requires v < LIMB
  {
    if v == 0 then 0
    else if v < 58 then 1
    else if v < 3364 then 2
    else if v < 195112 then 3
    else if v < 11316496 then 4
    else 5
  }

  /** It is the length of the canonical digits. */
  lemma DigitCount5IsLength(v: uint32)
    requires v < LIMB
    ensures DigitCount5(v) == |ToBE(v, 58)|
  {
    var n := |ToBE(v, 58)|;
    if v > 0 {
      ToBELength(v, 58);
      hide ToBE;
      PowersTo5();
      if n > 5 {
        PowMonotone(58, 5, n - 1);
      }
    }
  }

  lemma PowersTo5()
    ensures Pow(58, 0) == 1 && Pow(58, 1) == 58 && Pow(58, 2) == 3364
    ensures Pow(58, 3) == 195112 && Pow(58, 4) == 11316496 && Pow(58, 5) == LIMB
  {
  }

  lemma LimbPower(i: nat)
    ensures Pow(58, 5 * i) == Pow(LIMB, i)
  {
    PowersTo5();
    hide Pow;
    PowMul(58, 5, i);
  }

  // ---- text written from the end of a buffer towards its front ----

  /** A suffix of the output spelling v in whole groups of digits. */
  ghost predicate Spells(s: seq<byte>, v: nat) {
    Valid(s) && Val58(s) == v
  }

  lemma EmptySpells()
    ensures Spells([], 0)
  {
  }

  /** x followed by an n-digit text of t. */
  ghost function Join(x: nat, n: nat, t: nat): nat {
    x * Pow(58, n) + t
  }

  lemma JoinZero(n: nat, t: nat)
    ensures Join(0, n, t) == t
  {
  }

  lemma JoinNothing(x: nat)
    ensures Join(x, 0, 0) == x
  {
  }

  /** A non-zero x in front of n digits makes the value at least 58^n. */
  lemma JoinLarge(x: nat, n: nat, t: nat)
    requires x > 0
    ensures Pow(58, n) <= Join(x, n, t)
  {
    hide Pow;
    MulMonotone(1, x, Pow(58, n));
  }

  /** Moving the low limb of x into the text. */
  lemma JoinLimb(q: nat, r: nat, n: nat, t: nat)
    ensures Join(q * LIMB + r, n, t) == Join(q, n + 5, Join(r, n, t))
  {
    hide Pow;
    PowersTo5();
    PowAdd(58, 5, n);
    Distribute2(q, LIMB, r, Pow(58, n));
  }

  lemma JoinDigit(q: nat, d: nat, n: nat, t: nat)
    ensures Join(q * 58 + d, n, t) == Join(q, n + 1, Join(d, n, t))
  {
    Distribute2(q, 58, d, Pow(58, n));
  }

  lemma PrependFive(five: seq<byte>, limb: nat, rest: seq<byte>, v: nat)
    requires Spells5(five, limb) && Spells(rest, v)
    ensures Spells(five + rest, Join(limb, |rest|, v))
  {
    hide Val58, Pow;
    Val58Append(five, rest);
  }

  /** Skipping the leading '1's of a text of v leaves its canonical text. */
  lemma SkipOnes(s: seq<byte>, p: nat, v: nat)
    requires Spells(s, v) && p <= |s|
    requires forall i :: 0 <= i < p ==> s[i] == ONE
    requires p < |s| ==> s[p] != ONE
    ensures s[p..] == Text(ToBE(v, 58))
  {
    hide ValBE, ToBE;
    TrimmedIsCanonical(Digits(s), p, 58);
    assert Digits(s)[p..] == Digits(s[p..]);
    TextDigits(s[p..]);
  }

  /** A text of v > 0 is not all '1's. */
  lemma NotAllOnes(s: seq<byte>, v: nat)
    requires Spells(s, v) && v > 0
    ensures exists i :: 0 <= i < |s| && s[i] != ONE
  {
    hide ValBE;
    if forall i :: 0 <= i < |s| ==> s[i] == ONE {
      assert Digits(s) == Zeros(|s|);
      ValBEZeros(|s|, 58);
    }
  }

  /** The scan `for out[p] == '1' { p++ }` that ends every tail encoder. */
  method SkipLeadingOnes(out: array<byte>, from: nat, hi: nat, ghost v: nat) returns (p: nat)
    requires from <= hi <= out.Length && Spells(out[from..hi], v) && v > 0
    ensures from <= p <= hi && out[p..hi] == Text(ToBE(v, 58))
  {
    hide Spells, Text, ToBE;
    p := from;
    NotAllOnes(out[from..hi], v);
    ghost var k :| 0 <= k < |out[from..hi]| && out[from..hi][k] != ONE;
    assert out[from + k] != ONE;
    while out[p] == ONE
      invariant from <= p <= from + k < hi
      invariant forall i :: from <= i < p ==> out[i] == ONE
      decreases hi - p
    {
      p := p + 1;
    }
    SkipOnes(out[from..hi], p - from, v);
    assert out[from..hi][p - from..] == out[p..hi];
  }

  /** Renders one more limb in front of a suffix that spells t. */
  method PutLimb(limb: uint32, out: array<byte>, p: nat, hi: nat, ghost t: nat)
    requires limb < LIMB && 5 <= p <= hi <= out.Length && Spells(out[p..hi], t)
    modifies out
    ensures out[..p - 5] == old(out[..p - 5]) && out[hi..] == old(out[hi..])
    ensures Spells(out[p - 5..hi], Join(limb, hi - p, t))
  {
    hide Spells, Spells5, Join;
    ghost var rest := out[p..hi];
    ExtractChars5(limb, out, p - 5);
    assert out[p - 5..hi] == out[p - 5..p] + rest;
    PrependFive(out[p - 5..p], limb, rest, t);
  }

  // ---- the size of the output buffer ----

  /** encodeVariableSize: 1.38 digits a byte, rounded up to a block of 20. */
  function EncodeVariableSize(nz: nat): nat {
    var maxDigits := nz * 138 / 100 + 1;
    (maxDigits + 19) / 20 * 20
  }

  /** While digits remain to be written above the first d, another block of
      `block` characters fits in the buffer. */
  lemma RoomForBlock(v: nat, nz: nat, d: nat, block: nat)
    requires Pow(58, d) <= v < Pow(256, nz)
    requires (block == 5 && d % 5 == 0) || (block == 20 && d % 20 == 0) || block == 1
    ensures d + block <= EncodeVariableSize(nz)
  {
    hide Pow;
    EncodedDigits(v, d, nz);
    RoundUp(nz, d, block);
  }

  lemma RoundUp(nz: nat, d: nat, block: nat)
    requires 8 * d < 11 * nz
    requires (block == 5 && d % 5 == 0) || (block == 20 && d % 20 == 0) || block == 1
    ensures d + block <= EncodeVariableSize(nz)
  {
    var m := nz * 138 / 100;
    assert d <= m;
    var t := (m + 20) / 20;
    assert 20 * t >= m + 1;
    if block == 5 {
      assert d == 5 * (d / 5) && 4 * t >= d / 5 + 1;
    } else if block == 20 {
      assert d == 20 * (d / 20) && t >= d / 20 + 1;
    }
  }

  // ---- the same computation in 32-bit ints ----

  /** Wrap-around of Go's int on a 32-bit platform. */
  function Int32(x: int): (y: int)
    ensures -0x8000_0000 <= y < 0x8000_0000 && (x - y) % 0x1_0000_0000 == 0
    ensures -0x8000_0000 <= x < 0x8000_0000 ==> y == x
  {
    (x + 0x8000_0000) % 0x1_0000_0000 - 0x8000_0000
  }

  /** Go's division, which truncates towards zero. */
  function Quo(x: int, d: nat): int
    requires d > 0
  {
    if x >= 0 then x / d else -((-x) / d)
  }

  function EncodeVariableSize32(nz: nat): int {
    var maxDigits := Int32(Quo(Int32(nz * 138), 100) + 1);
    Int32(Quo(Int32(maxDigits + 19), 20) * 20)
  }

  lemma QuoNear(x: int)
    ensures x - 100 < 100 * Quo(x, 100) < x + 100
    ensures x - 20 < 20 * Quo(x, 20) < x + 20
    ensures x >= 0 ==> Quo(x, 100) == x / 100 && Quo(x, 20) == x / 20
  {
  }

  lemma SizeFitsInt32(nz: nat)
    requires nz <= 15561475
    ensures EncodeVariableSize32(nz) == EncodeVariableSize(nz)
  {
    hide Int32, Quo;
    QuoNear(nz * 138);
    QuoNear(nz * 138 / 100 + 20);
  }

  /** The wrapped product is at least 2^32 too small, which no rounding makes up for. */
  lemma SizeWrapsInt32(nz: nat)
    requires 15561475 < nz < 0x8000_0000
    ensures EncodeVariableSize32(nz) < EncodeVariableSize(nz)
    ensures nz == 15561476 ==> EncodeVariableSize32(nz) < 0
  {
    var product := Int32(nz * 138);
    assert product <= nz * 138 - 0x1_0000_0000;
    assert nz == 15561476 ==> product == nz * 138 - 0x1_0000_0000;
    hide Int32, Quo;
    var digits := Quo(product, 100);
    QuoNear(product);
    QuoNear(digits + 20);
  }

  /** In 32 bits the size is right exactly up to 15561475 bytes; one byte more and it
      is negative. */
  lemma SizeOnInt32(nz: nat)
    requires nz < 0x8000_0000
    ensures EncodeVariableSize32(nz) == EncodeVariableSize(nz) <==> nz <= 15561475
    ensures EncodeVariableSize32(15561476) < 0
  {
    hide EncodeVariableSize32, EncodeVariableSize;
    SizeWrapsInt32(15561476);
    if nz <= 15561475 {
      SizeFitsInt32(nz);
    } else {
      SizeWrapsInt32(nz);
    }
  }
}
