/** The tail encoders that divide: encodeVariableTail, the chained-division
    oracle, and encodeSmallTail for values of one word (encode.go). */
module Division {
  import opened Radix
  import opened Sequences
  import opened Words
  import opened Alphabet
  import opened Base58
  import opened Chars

  // ---- packing bytes into words ----

  /** The value of up to seven head bytes, accumulated as v<<8 | b. */
  method PackHead(b: seq<byte>, head: nat) returns (v: uint64)
    requires head <= |b| && head < 8
    ensures v == Val256(b[..head]) < Pow(256, head)
  {
    hide ValBE, Pow;
    v := 0;
    assert b[..0] == [];
    ValBEEmpty(256);
    Val256Prefix(b, 0);
    var i := 0;
    while i < head
      invariant i <= head && v == Val256(b[..i])
    {
      ValBEStep(b, i, 256);
      Val256Prefix(b, i + 1);
      PowMonotone(256, i + 1, 7);
      SevenBytes();
      v := v * 256 + b[i];
      i := i + 1;
    }
    Val256Prefix(b, head);
  }

  /** limbs[k] = w. */
  method StoreLimb(limbs: array<uint32>, k: nat, w: uint32)
    requires k < limbs.Length
    modifies limbs
    ensures limbs[..] == old(limbs[..])[k := w] && limbs[k + 1..] == old(limbs[k + 1..])
    ensures ValBE(limbs[..k + 1], W32) == old(ValBE(limbs[..k], W32)) * W32 + w
  {
    hide ValBE;
    ghost var low: seq<nat> := limbs[..k];
    limbs[k] := w;
    assert limbs[..][..k] == low == limbs[..k] && limbs[..][..k + 1] == limbs[..k + 1];
    ValBEStep(limbs[..], k, W32);
  }

  /** Big-endian base-2^32 limbs; the first one takes the leftover head bytes. */
  method PackLimbs(b: seq<byte>) returns (limbs: array<uint32>)
    ensures fresh(limbs) && limbs.Length == (|b| + 3) / 4
    ensures ValBE(limbs[..], W32) == Val256(b)
  {
    hide ValBE, Pow;
    var nz := |b|;
    var numLimbs := (nz + 3) / 4;
    limbs := new uint32[numLimbs](_ => 0);
    var i, k := 0, 0;
    var head := nz % 4;
    assert b[..0] == [] && limbs[..0] == [];
    ValBEEmpty(256);
    ValBEEmpty(W32);
    if head != 0 {
      var v := PackHead(b, head);
      Powers256();
      PowMonotone(256, head, 3);
      StoreLimb(limbs, 0, v);
      assert limbs[..0] == [];
      i, k := head, 1;
    }
    while i < nz
      invariant i <= nz && k <= numLimbs && nz - i == 4 * (numLimbs - k)
      invariant ValBE(limbs[..k], W32) == Val256(b[..i])
    {
      StoreLimb(limbs, k, Uint32BE(b[i], b[i + 1], b[i + 2], b[i + 3]));
      Val256Step4(b, i);
      i, k := i + 4, k + 1;
    }
    assert limbs[..numLimbs] == limbs[..] && b[..nz] == b;
  }

  // ---- one sweep: four stacked divisions by 58^5 ----

  /** quot * 58^20 + r4 * 58^15 + r3 * 58^10 + r2 * 58^5 + r1. */
  function Stacked(quot: nat, r4: nat, r3: nat, r2: nat, r1: nat): nat {
    (((quot * LIMB + r4) * LIMB + r3) * LIMB + r2) * LIMB + r1
  }

  lemma SweepStep(quot: nat, r4: nat, r3: nat, r2: nat, r1: nat, x: nat,
                  q1: nat, q2: nat, q3: nat, q4: nat, s1: nat, s2: nat, s3: nat, s4: nat)
    requires r1 * W32 + x == q1 * LIMB + s1
    requires r2 * W32 + q1 == q2 * LIMB + s2
    requires r3 * W32 + q2 == q3 * LIMB + s3
    requires r4 * W32 + q3 == q4 * LIMB + s4
    ensures Stacked(quot, r4, r3, r2, r1) * W32 + x == Stacked(quot * W32 + q4, s4, s3, s2, s1)
  {
  }

  /** One link of the chain: v := rem<<32 | x; q := v / 58^5; rem := v - q*58^5.
      The quotient fits 32 bits. */
  method DivideLimb(rem: uint64, x: uint32) returns (q: uint32, r: uint64)
    requires rem < LIMB
    ensures rem * W32 + x == q * LIMB + r && r < LIMB
  {
    var v: uint64 := rem * W32 + x;
    q := v / LIMB;
    r := v - q * LIMB;
  }

  /** The four chained divisions of one limb visit. */
  method DivideFour(x: uint32, rem1: uint64, rem2: uint64, rem3: uint64, rem4: uint64, ghost quot: nat)
    returns (q4: uint32, s1: uint64, s2: uint64, s3: uint64, s4: uint64)
    requires rem1 < LIMB && rem2 < LIMB && rem3 < LIMB && rem4 < LIMB
    ensures s1 < LIMB && s2 < LIMB && s3 < LIMB && s4 < LIMB
    ensures Stacked(quot, rem4, rem3, rem2, rem1) * W32 + x == Stacked(quot * W32 + q4, s4, s3, s2, s1)
  {
    hide Stacked;
    var q1, q2, q3;
    q1, s1 := DivideLimb(rem1, x);
    q2, s2 := DivideLimb(rem2, q1);
    q3, s3 := DivideLimb(rem3, q2);
    q4, s4 := DivideLimb(rem4, q3);
    SweepStep(quot, rem4, rem3, rem2, rem1, x, q1, q2, q3, q4, s1, s2, s3, s4);
  }

  /** Divides the limb array in place by 58^20 and returns the four remainders. */
  method Sweep(limbs: array<uint32>, start: nat)
    returns (rem1: uint64, rem2: uint64, rem3: uint64, rem4: uint64)
    requires start <= limbs.Length && forall i :: 0 <= i < start ==> limbs[i] == 0
    modifies limbs
    ensures rem1 < LIMB && rem2 < LIMB && rem3 < LIMB && rem4 < LIMB
    ensures old(ValBE(limbs[..], W32)) == Stacked(ValBE(limbs[..], W32), rem4, rem3, rem2, rem1)
    ensures forall i :: 0 <= i < start ==> limbs[i] == 0
  {
    hide ValBE, Stacked;
    rem1, rem2, rem3, rem4 := 0, 0, 0, 0;
    ghost var was := limbs[..];
    assert was[..start] == Zeros(start) && limbs[..start] == Zeros(start);
    ValBEZeros(start, W32);
    StackedZero();
    var j := start;
    while j < limbs.Length
      invariant start <= j <= limbs.Length
      invariant rem1 < LIMB && rem2 < LIMB && rem3 < LIMB && rem4 < LIMB
      invariant ValBE(was[..j], W32) == Stacked(ValBE(limbs[..j], W32), rem4, rem3, rem2, rem1)
      invariant limbs[j..] == was[j..]
      invariant forall i :: 0 <= i < start ==> limbs[i] == 0
    {
      KeptAfter(was, limbs[..], j, j, j + 1);
      KeptAfter(was, limbs[..], j, j + 1, j + 1);
      ValBEStep(was, j, W32);
      var q4;
      q4, rem1, rem2, rem3, rem4 := DivideFour(limbs[j], rem1, rem2, rem3, rem4, ValBE(limbs[..j], W32));
      StoreLimb(limbs, j, q4);
      j := j + 1;
    }
    assert limbs[..limbs.Length] == limbs[..] && was[..limbs.Length] == was;
  }

  lemma StackedZero()
    ensures Stacked(0, 0, 0, 0, 0) == 0
  {
  }

  // ---- encodeVariableTail ----

  /** The value of four limbs rendered in front of an n-character text of t. */
  ghost function TwentyDigits(r4: nat, r3: nat, r2: nat, r1: nat, n: nat, t: nat): nat {
    Join(r4, n + 15, Join(r3, n + 10, Join(r2, n + 5, Join(r1, n, t))))
  }

  method PutFourLimbs(rem1: uint64, rem2: uint64, rem3: uint64, rem4: uint64,
                      out: array<byte>, p: nat, hi: nat, ghost t: nat)
    requires rem1 < LIMB && rem2 < LIMB && rem3 < LIMB && rem4 < LIMB
    requires 20 <= p <= hi <= out.Length && Spells(out[p..hi], t)
    modifies out
    ensures out[..p - 20] == old(out[..p - 20]) && out[hi..] == old(out[hi..])
    ensures Spells(out[p - 20..hi], TwentyDigits(rem4, rem3, rem2, rem1, hi - p, t))
  {
    hide Join, Spells;
    ghost var n, was := hi - p, out[..];
    PutLimb(rem1, out, p, hi, t);
    assert out[..p - 20] == was[..p - 20];
    PutLimb(rem2, out, p - 5, hi, Join(rem1, n, t));
    assert out[..p - 20] == was[..p - 20];
    PutLimb(rem3, out, p - 10, hi, Join(rem2, n + 5, Join(rem1, n, t)));
    assert out[..p - 20] == was[..p - 20];
    PutLimb(rem4, out, p - 15, hi, Join(rem3, n + 10, Join(rem2, n + 5, Join(rem1, n, t))));
  }

  /** Four limbs peeled off the value become four groups of the text. */
  lemma SweepText(quot: nat, r4: nat, r3: nat, r2: nat, r1: nat, n: nat, t: nat)
    ensures Join(Stacked(quot, r4, r3, r2, r1), n, t)
         == Join(quot, n + 20, TwentyDigits(r4, r3, r2, r1, n, t))
  {
    hide Join;
    var x2 := quot * LIMB + r4;
    var x3 := x2 * LIMB + r3;
    var x4 := x3 * LIMB + r2;
    var t1 := Join(r1, n, t);
    var t2 := Join(r2, n + 5, t1);
    var t3 := Join(r3, n + 10, t2);
    JoinLimb(x4, r1, n, t);
    JoinLimb(x3, r2, n + 5, t1);
    JoinLimb(x2, r3, n + 10, t2);
    JoinLimb(quot, r4, n + 15, t3);
  }

  lemma StackedShrinks(quot: nat, r4: nat, r3: nat, r2: nat, r1: nat)
    ensures Stacked(quot, r4, r3, r2, r1) > 0 ==> quot < Stacked(quot, r4, r3, r2, r1)
  {
  }

  /** One pass of the outer loop: divide by 58^20 and render the remainder. */
  method SweepTwenty(limbs: array<uint32>, start: nat, out: array<byte>, p: nat, hi: nat, ghost t: nat)
    returns (ghost u: nat)
    requires start < limbs.Length && limbs[start] != 0
    requires forall i :: 0 <= i < start ==> limbs[i] == 0
    requires 20 <= p <= hi <= out.Length && Spells(out[p..hi], t)
    modifies limbs, out
    ensures out[..p - 20] == old(out[..p - 20]) && out[hi..] == old(out[hi..])
    ensures Spells(out[p - 20..hi], u)
    ensures forall i :: 0 <= i < start ==> limbs[i] == 0
    ensures Join(old(ValBE(limbs[..], W32)), hi - p, t)
         == Join(ValBE(limbs[..], W32), hi - p + 20, u)
    ensures ValBE(limbs[..], W32) < old(ValBE(limbs[..], W32))
  {
    hide ValBE, Join, Spells, Stacked, TwentyDigits;
    PositiveValue(limbs[..], start, W32);
    var rem1, rem2, rem3, rem4 := Sweep(limbs, start);
    ghost var quot, n := ValBE(limbs[..], W32), hi - p;
    StackedShrinks(quot, rem4, rem3, rem2, rem1);
    SweepText(quot, rem4, rem3, rem2, rem1, n, t);
    ghost var swept := limbs[..];
    PutFourLimbs(rem1, rem2, rem3, rem4, out, p, hi, t);
    assert limbs[..] == swept;
    u := TwentyDigits(rem4, rem3, rem2, rem1, n, t);
  }

  /** Writes the base-58 characters of b (non-empty, zero-stripped) at the end
      of out[lo..] and returns where they start. */
  method EncodeVariableTail(b: seq<byte>, out: array<byte>, lo: nat, hi: nat) returns (p: nat)
    requires b != [] && b[0] != 0
    requires lo + EncodeVariableSize(|b|) <= hi <= out.Length
    modifies out
    ensures lo <= p <= hi && out[..lo] == old(out[..lo]) && out[hi..] == old(out[hi..])
    ensures out[p..hi] == Text(ToBE(Val256(b), 58))
  {
    hide ValBE, Pow, Join, Spells, EncodeVariableSize, Text, ToBE, Val256;
    var limbs := PackLimbs(b);
    NonzeroStart(b);
    p := hi;
    ghost var v: nat, t: nat := Val256(b), 0;
    assert out[p..hi] == [];
    EmptySpells();
    JoinNothing(v);
    var start := 0;
    while true
      invariant lo <= p <= hi && (hi - p) % 20 == 0
      invariant out[..lo] == old(out[..lo]) && out[hi..] == old(out[hi..])
      invariant Spells(out[p..hi], t)
      invariant v == Join(ValBE(limbs[..], W32), hi - p, t)
      invariant start <= limbs.Length && forall i :: 0 <= i < start ==> limbs[i] == 0
      decreases ValBE(limbs[..], W32)
    {
      while start < limbs.Length && limbs[start] == 0
        invariant start <= limbs.Length && forall i :: 0 <= i < start ==> limbs[i] == 0
      {
        start := start + 1;
      }
      if start == limbs.Length {
        break;
      }
      PositiveValue(limbs[..], start, W32);
      JoinLarge(ValBE(limbs[..], W32), hi - p, t);
      RoomForBlock(v, |b|, hi - p, 20);
      t := SweepTwenty(limbs, start, out, p, hi, t);
      p := p - 20;
    }
    assert limbs[..] == Zeros(limbs.Length);
    ValBEZeros(limbs.Length, W32);
    JoinZero(hi - p, t);
    p := SkipLeadingOnes(out, p, hi, v);
  }

  // ---- encodeSmallTail ----

  lemma OneDigit(d: nat, rest: seq<byte>, v: nat)
    requires d < 58 && Spells(rest, v)
    ensures Spells([Char(d)] + rest, Join(d, |rest|, v))
  {
    hide Pow, ValBE, Char, Inverse;
    InverseOfChar(d);
    assert Digits([Char(d)] + rest) == [d] + Digits(rest);
    ValBECons(d, Digits(rest), 58);
  }

  /** encodeVariableTail for one to eight significant bytes. */
  method EncodeSmallTail(b: seq<byte>, out: array<byte>, lo: nat, hi: nat) returns (p: nat)
    requires b != [] && b[0] != 0 && |b| <= 8
    requires lo + EncodeVariableSize(|b|) <= hi <= out.Length
    modifies out
    ensures lo <= p <= hi && out[..lo] == old(out[..lo]) && out[hi..] == old(out[hi..])
    ensures out[p..hi] == Text(ToBE(Val256(b), 58))
  {
    hide ValBE, Pow, Join, Spells, EncodeVariableSize, Text, ToBE, Val256;
    var v: uint64 := PackWord(b);
    NonzeroStart(b);
    ghost var whole: nat, t: nat := Val256(b), 0;
    p := hi;
    assert out[p..hi] == [];
    EmptySpells();
    JoinNothing(v);
    while v >= LIMB
      invariant lo <= p <= hi && (hi - p) % 5 == 0
      invariant out[..lo] == old(out[..lo]) && out[hi..] == old(out[hi..])
      invariant Spells(out[p..hi], t) && whole == Join(v, hi - p, t) && v > 0
    {
      ghost var n := hi - p;
      JoinLarge(v, n, t);
      RoomForBlock(whole, |b|, n, 5);
      var q := v / LIMB;
      var r: uint32 := v - q * LIMB;
      PutLimb(r, out, p, hi, t);
      JoinLimb(q, r, n, t);
      t := Join(r, n, t);
      v := q;
      p := p - 5;
    }
    p := PutTopDigits(v, |b|, out, lo, hi, p, whole, t);
  }

  /** p--; out[p] = base58Chars[d]. */
  method PutDigit(d: nat, out: array<byte>, p: nat, hi: nat, ghost t: nat)
    requires d < 58 && 1 <= p <= hi <= out.Length && Spells(out[p..hi], t)
    modifies out
    ensures out[..p - 1] == old(out[..p - 1]) && out[hi..] == old(out[hi..])
    ensures out[p - 1] == Char(d) && Spells(out[p - 1..hi], Join(d, hi - p, t))
  {
    hide Join, Spells, Char;
    ghost var rest := out[p..hi];
    OneDigit(d, rest, t);
    out[p - 1] := Char(d);
    assert out[p - 1..hi] == [Char(d)] + rest;
  }

  /** The digits of the last, most significant limb, without padding. */
  method PutTopDigits(limb: uint32, ghost nz: nat, out: array<byte>, lo: nat, hi: nat, from: nat,
                      ghost whole: nat, ghost tail: nat)
    returns (p: nat)
    requires lo + EncodeVariableSize(nz) <= hi <= out.Length && lo <= from <= hi
    requires limb > 0 && 0 < whole < Pow(256, nz)
    requires Spells(out[from..hi], tail) && whole == Join(limb, hi - from, tail)
    modifies out
    ensures lo <= p <= hi && out[..lo] == old(out[..lo]) && out[hi..] == old(out[hi..])
    ensures out[p..hi] == Text(ToBE(whole, 58))
  {
    hide ValBE, Pow, Join, Spells, EncodeVariableSize, Text, ToBE, Char;
    p := from;
    ghost var t: nat := tail;
    var r := limb;
    while r > 0
      invariant lo <= p <= hi
      invariant out[..lo] == old(out[..lo]) && out[hi..] == old(out[hi..])
      invariant Spells(out[p..hi], t) && whole == Join(r, hi - p, t)
      invariant r == 0 ==> p < hi && out[p] != ONE
    {
      ghost var n := hi - p;
      JoinLarge(r, n, t);
      RoomForBlock(whole, nz, n, 1);
      JoinDigit(r / 58, r % 58, n, t);
      if r < 58 {
        NotOne(r);
      }
      PutDigit(r % 58, out, p, hi, t);
      p := p - 1;
      t := Join(r % 58, n, t);
      r := r / 58;
    }
    JoinZero(hi - p, t);
    assert (p < hi ==> out[p..hi][0] == out[p]);
    SkipOnes(out[p..hi], 0, whole);
  }

  lemma NotOne(r: nat)
    requires 0 < r && r / 58 == 0
    ensures Char(r % 58) != ONE
  {
  }

  method PackWord(b: seq<byte>) returns (v: uint64)
    requires |b| <= 8
    ensures v == Val256(b)
  {
    hide ValBE, Pow;
    v := 0;
    assert b[..0] == [];
    ValBEEmpty(256);
    var i := 0;
    while i < |b|
      invariant i <= |b| && v == Val256(b[..i])
    {
      ValBEStep(b, i, 256);
      Val256Prefix(b, i + 1);
      PowMonotone(256, i + 1, 8);
      SevenBytes();
      v := v * 256 + b[i];
      i := i + 1;
    }
    assert b[..|b|] == b;
  }
}
