/** The scalar half of encode32AppendAVX2 (matmul_avx2_amd64.s): nine limbs normalised
    by multiply and shift, each rendered as it leaves the chain with reciprocals
    instead of divisions, and the trimming that skips both leading-zero scans. */
module Encode32Kernel {
  import opened Radix
  import opened Sequences
  import opened Words
  import opened Alphabet
  import opened Base58
  import opened Chars
  import opened Matrix
  import opened Carry
  import opened Slices
  import opened Fixed
  import opened FusedCarry
  import opened Batch
  import opened ByteCounts

  // ---- RENDER5 ----

  const RECIPROCAL: nat := 0x9BDA_4125
  const TWO42: nat := 0x400_0000_0000

  /** ((x >> 1) * 0x9bda4125) >> 42 is x / 3364 for every limb, and shifting the same
      product once more halves the quotient. */
  lemma PairReciprocal(x: nat)
    requires x < LIMB
    ensures x / 2 * RECIPROCAL < W64
    ensures x / 2 * RECIPROCAL / TWO42 == x / 3364
    ensures x / 2 * RECIPROCAL / (2 * TWO42) == x / 3364 / 2
  {
    Reciprocal(x / 2, x / 2 / 1682, x / 2 % 1682);
  }

  lemma Reciprocal(h: nat, q: nat, r: nat)
    requires h < LIMB && h == q * 1682 + r && r < 1682
    ensures h * RECIPROCAL / TWO42 == q
  {
    assert h * RECIPROCAL == q * (TWO42 + 1306) + r * RECIPROCAL;
  }

  /** The macro: two pairs and a character, as extractChars5 writes them. */
  method Render5(x: uint32, raw: array<byte>, at: nat)
    requires x < LIMB && at + 5 <= raw.Length
    modifies raw
    ensures Spells5(raw[at..at + 5], x)
    ensures raw[..at] == old(raw[..at]) && raw[at + 5..] == old(raw[at + 5..])
  {
    hide Spells5, Char, Pair;
    PairReciprocal(x);
    var product: uint64 := x / 2 * RECIPROCAL;
    var q1 := product / TWO42;
    PairReciprocal(q1);
    var q2 := product / (2 * TWO42) * RECIPROCAL / TWO42;
    PutUint16LE(raw, at + 3, Pair(x - q1 * 3364));
    PutUint16LE(raw, at + 1, Pair(q1 - q2 * 3364));
    raw[at] := Char(q2);
    ChunkedDigits(x, q1, q2, raw[at..at + 5]);
  }

  // ---- the nine-limb chain ----

  /** RENDER5(at) in front of the m groups already rendered. */
  method RenderFront(r: uint32, raw: array<byte>, at: nat, m: nat, ghost D: nat)
    requires r < LIMB && at + 5 + 5 * m == 45 <= raw.Length && Spells(raw[at + 5..45], D)
    modifies raw
    ensures D < Pow(LIMB, m) && Spells(raw[at..45], Above(r, m, D))
  {
    hide Spells, Spells5, Pow;
    ghost var before := raw[..];
    Render5(r, raw, at);
    KeptAfter(before, raw[..], at + 5, at + 5, 45);
    SplitSlice(raw[..], at, at + 5, 45);
    PrependLimb(raw[at..at + 5], r, before[at + 5..45], m, D);
  }

  /** From limb 8 down to limb 1: reduce, render, carry into the next; limb 0 is what
      remains. The 45 characters spell the value of the columns. */
  method RenderColumns(inter: seq<uint64>, raw: array<byte>, ghost V: nat)
    requires |inter| == 9 && Columns(inter, V) && raw.Length >= 45
    modifies raw
    ensures Spells(raw[..45], V)
  {
    hide ValBE, Pow, Carried, Spells;
    ghost var D: nat := 0;
    CarriedStart(LIMB, inter);
    EmptySpells();
    var r8: uint64 := inter[8];
    var i := 8;
    assert raw[45..45] == [];
    while i >= 1
      invariant 0 <= i <= 8 && Spells(raw[5 * i + 5..45], D)
      invariant Carried(LIMB, inter, i, r8, 8 - i, D) == V
    {
      var dx, r := Reduce28(r8);
      CarriedStep(LIMB, inter, i, r8, dx, r, 8 - i, D);
      RenderFront(r, raw, 5 * i, 8 - i, D);
      D := Above(r, 8 - i, D);
      r8 := dx + inter[i - 1];
      i := i - 1;
    }
    TopLimb(inter, r8, 8, D, V);
    RenderFront(r8, raw, 0, 8, D);
  }

  // ---- trimming ----

  /** A non-zero first byte gives 43 or 44 characters. */
  lemma LongEncoding(src: seq<byte>)
    requires |src| == 32 && src[0] != 0
    ensures Leading(src, 0) == 0 && 43 <= |Encoding(src)| <= 44
    ensures |Encoding(src)| == |ToBE(Val256(src), 58)|
  {
    hide Pow, ValBE, ToBE, Encoding;
    LeadingUnique(src, 0, 0);
    EncodingLength(src);
    NonzeroStart(src);
    ValBELower(src, 256);
    FewDigits(42, 31);
    ToBELength(Val256(src), 58);
    PowInjective(58, 42, |ToBE(Val256(src), 58)|);
  }

  lemma AboveOne(c: byte)
    requires Inverse(c) < 58 && c != ONE
    ensures c >= 50
  {
  }

  /** For such an input the second character alone tells how many to skip. */
  lemma SecondCharacter(raw: seq<byte>, src: seq<byte>)
    requires |src| == 32 && src[0] != 0 && |raw| == 45 && SlotOf(raw, src)
    ensures 45 - |Encoding(src)| == if raw[1] < 50 then 2 else 1
  {
    hide Val256, ToBE, Encoding, Inverse, Leading;
    LongEncoding(src);
    PaddedText(raw, src, Val256(src));
    NonzeroStart(src);
    if raw[1] != ONE {
      AboveOne(raw[1]);
    }
  }

  /** skip = rawZeros - inZeros, by one comparison or by the two scans. */
  method Skip(src: seq<byte>, raw: seq<byte>) returns (skip: nat)
    requires |src| == 32 && |raw| == 45 && SlotOf(raw, src)
    ensures skip == 45 - |Encoding(src)| && raw[skip..] == Encoding(src)
  {
    hide Encoding, SlotOf;
    if src[0] != 0 {
      SecondCharacter(raw, src);
      SlotLeading(raw, src);
      skip := 1 + (if raw[1] < 50 then 1 else 0);
    } else {
      skip := RawSkip(src, raw);
    }
  }

  /** The final stores: 32 bytes from the front and the last 16, overlapping. */
  method Store(text: seq<byte>, dst: array<byte>)
    requires 32 <= |text| <= 48 && |text| <= dst.Length
    modifies dst
    ensures dst[..|text|] == text && dst[|text|..] == old(dst[|text|..])
  {
    ghost var n, before := |text|, dst[..];
    CopyInto(text[..32], dst, 0);
    ghost var first := dst[..];
    CopyInto(text[|text| - 16..], dst, |text| - 16);
    KeptAfter(before, first, 32, n, n);
    KeptAfter(first, dst[..], n, n, n);
    forall k | 0 <= k < n
      ensures dst[..][k] == text[k]
    {
      if k < n - 16 {
        KeptBefore(first, dst[..], n - 16, k, k + 1);
        SliceAt(first, 0, 32, k);
      } else {
        SliceAt(dst[..], n - 16, n, k);
      }
    }
  }

  /** From the columns the vector code leaves to the appended characters. */
  method Append32(src: seq<byte>, inter: seq<uint64>, dst: array<byte>) returns (n: nat)
    requires |src| == 32 && inter == Inter32(src) && dst.Length >= 44
    modifies dst
    ensures n == |Encoding(src)| <= 44 && dst[..n] == Encoding(src) && dst[n..] == old(dst[n..])
  {
    hide ValBE, Val256, Pow, Inter32, Encoding, SlotOf;
    Columns32(src);
    var raw := new byte[45](_ => 0);
    RenderColumns(inter, raw, Val256(src));
    EncodingLength(src);
    SlotIs(raw[..45], src);
    var skip := Skip(src, raw[..45]);
    n := 45 - skip;
    Store(raw[..45][skip..], dst);
  }

  lemma SlotIs(slot: seq<byte>, src: seq<byte>)
    requires |src| == 32 && |slot| == 45 && Spells(slot, Val256(src)) && |Encoding(src)| <= 44
    ensures SlotOf(slot, src)
  {
    hide Encoding, Spells, Val256;
  }
}
