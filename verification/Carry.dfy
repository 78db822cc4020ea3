/** Carry propagation from matrix columns to base-58^5 limbs, the loop shared by
    every matrix encoder: v := column; q := v / 58^5; limb := v - q*58^5. */
module Carry {
  import opened Radix
  import opened Words
  import opened Base58
  import opened Sizes
  import opened Matrix

  /** What is left to convert to base b when column i holds v and m digits worth D
      are done. */
  ghost function Carried(b: nat, inter: seq<nat>, i: nat, v: nat, m: nat, D: nat): nat
    requires i <= |inter|
  {
    (ValBE(inter[..i], b) * b + v) * Pow(b, m) + D
  }

  lemma CarriedStart(b: nat, inter: seq<nat>)
    requires inter != []
    ensures Carried(b, inter, |inter| - 1, inter[|inter| - 1], 0, 0) == ValBE(inter, b)
  {
    hide ValBE;
    ValBEStep(inter, |inter| - 1, b);
    assert inter[..|inter|] == inter;
  }

  lemma CarriedStep(b: nat, inter: seq<nat>, i: nat, v: nat, q: nat, r: nat, m: nat, D: nat)
    requires 1 <= i <= |inter| && v == q * b + r
    ensures Carried(b, inter, i, v, m, D) == Carried(b, inter, i - 1, inter[i - 1] + q, m + 1, r * Pow(b, m) + D)
  {
    hide ValBE, Pow;
    ValBEStep(inter, i - 1, b);
    CarryStepBE(ValBE(inter[..i], b), v, q, r, b, Pow(b, m), D);
    PowNext(b, m);
  }

  lemma PowOne()
    ensures Pow(LIMB, 1) == LIMB && Pow(LIMB, 0) == 1
  {
  }

  lemma CarriedEnd(b: nat, inter: seq<nat>, v: nat, m: nat, D: nat)
    ensures Carried(b, inter, 0, v, m, D) == v * Pow(b, m) + D
  {
    hide Pow;
    ValBEEmpty(b);
    assert inter[..0] == [];
    assert 0 * b == 0;
  }

  /** The last column needs no division: the value bounds it. */
  lemma TopLimb(inter: seq<nat>, v: nat, m: nat, D: nat, V: nat)
    requires Carried(LIMB, inter, 0, v, m, D) == V < Pow(LIMB, m + 1)
    ensures v < LIMB && V == v * Pow(LIMB, m) + D
  {
    hide ValBE, Pow;
    CarriedEnd(LIMB, inter, v, m, D);
    PowAdd(LIMB, 1, m);
    PowOne();
    if v >= LIMB {
      MulMonotone(LIMB, v, Pow(LIMB, m));
    }
  }

  /** 2^256 < 58^45 and 2^512 < 58^90: nine and eighteen limbs suffice. */
  lemma LimbsSuffice()
    ensures Pow(256, 32) < Pow(LIMB, 9) && Pow(256, 64) < Pow(LIMB, 18)
  {
    PowOne();
    EightBytes();
    hide Pow;
    PowAdd(256, 8, 8);
    PowAdd(256, 16, 16);
    PowAdd(256, 32, 32);
    PowAdd(LIMB, 1, 1);
    PowAdd(LIMB, 2, 2);
    PowAdd(LIMB, 4, 4);
    PowAdd(LIMB, 8, 1);
    PowAdd(LIMB, 9, 9);
  }

  lemma Fits32(src: seq<byte>)
    requires |src| == 32
    ensures Val256(src) < Pow(LIMB, 9)
  {
    hide Pow, Val256;
    LimbsSuffice();
    Val256Prefix(src, 32);
    assert src[..32] == src;
  }

  lemma Fits64(src: seq<byte>)
    requires |src| == 64
    ensures Val256(src) < Pow(LIMB, 18)
  {
    hide Pow, Val256;
    LimbsSuffice();
    Val256Prefix(src, 64);
    assert src[..64] == src;
  }

  /** The normalised limbs of an input, most significant first. */
  function Limbs64(src: seq<byte>): (s: seq<nat>)
    requires |src| == 64
    ensures |s| == 18 && AllBelow(s, LIMB) && ValBE(s, LIMB) == Val256(src)
  {
    Fits64(src);
    FixedBE(Val256(src), 18, LIMB)
  }

  /** The matrix columns of 32 bytes leave room for the carries. */
  lemma Columns32(src: seq<byte>)
    requires |src| == 32
    ensures AllBelow(Inter32(src), W64 - 0x80_0000_0000)
    ensures ValBE(Inter32(src), LIMB) == Val256(src) < Pow(LIMB, 9)
  {
    hide ValBE, Pow, Dot, WordsOf;
    Inter32Value(src);
    Fits32(src);
    var s := Inter32(src);
    forall j | 0 <= j < 9
      ensures s[j] < W64 - 0x80_0000_0000
    {
      if j > 0 {
        Inter32Fits(WordsOf(src), 8, j - 1);
      }
    }
  }

  lemma Columns64(src: seq<byte>)
    requires |src| == 64
    ensures AllBelow(Inter64(src), W64 - 0x80_0000_0000)
    ensures ValBE(Inter64(src), LIMB) == Val256(src) < Pow(LIMB, 18)
  {
    hide ValBE, Pow, Dot, WordsOf;
    Inter64Value(src);
    Fits64(src);
    var s := Inter64(src);
    forall j | 0 <= j < 18
      ensures s[j] < W64 - 0x80_0000_0000
    {
      if j > 0 {
        Inter64Fits(WordsOf(src), j - 1);
      }
    }
  }

  lemma ConsLimb(r: nat, done: seq<nat>)
    requires r < LIMB && AllBelow(done, LIMB)
    ensures AllBelow([r] + done, LIMB)
    ensures ValBE([r] + done, LIMB) == r * Pow(LIMB, |done|) + ValBE(done, LIMB)
  {
    hide ValBE, Pow;
    ValBECons(r, done, LIMB);
  }

  /** Columns of a value that n limbs can hold, with room for carries. */
  ghost predicate Columns(s: seq<nat>, V: nat) {
    s != [] && AllBelow(s, W64 - 0x80_0000_0000) && ValBE(s, LIMB) == V < Pow(LIMB, |s|)
  }

  ghost predicate Limbs(s: seq<nat>, V: nat) {
    AllBelow(s, LIMB) && ValBE(s, LIMB) == V
  }

  // ---- one carry chain, a step at a time ----

  /** A chain that has normalised the cells after i and carries v into cell i. */
  ghost predicate Chain(s: seq<nat>, i: nat, v: nat, was: seq<nat>, V: nat) {
    && |s| == |was| && i < |s| && Columns(was, V)
    && s[..i] == was[..i] && AllBelow(s[i + 1..], LIMB)
    && v < W64
    && Carried(LIMB, was, i, v, |s| - 1 - i, ValBE(s[i + 1..], LIMB)) == V
  }

  lemma ChainStart(s: seq<nat>, V: nat)
    requires Columns(s, V)
    ensures Chain(s, |s| - 1, s[|s| - 1], s, V)
  {
    hide ValBE, Pow, Carried;
    CarriedStart(LIMB, s);
    ValBEEmpty(LIMB);
    assert s[|s|..] == [];
  }

  lemma ChainStep(s: seq<nat>, i: nat, v: nat, was: seq<nat>, V: nat, q: nat, r: nat)
    requires Chain(s, i, v, was, V) && i >= 1 && v == q * LIMB + r && r < LIMB
    ensures s[i - 1] + q < W64
    ensures Chain(s[i := r], i - 1, s[i - 1] + q, was, V)
  {
    hide ValBE, Pow, Carried;
    CarriedStep(LIMB, was, i, v, q, r, |s| - 1 - i, ValBE(s[i + 1..], LIMB));
    ConsLimb(r, s[i + 1..]);
    var t := s[i := r];
    assert t[i..] == [r] + s[i + 1..];
    assert s[i - 1] == s[..i][i - 1] == was[i - 1];
    assert t[..i - 1] == s[..i][..i - 1] == was[..i][..i - 1] == was[..i - 1];
  }

  lemma ChainEnd(s: seq<nat>, v: nat, was: seq<nat>, V: nat)
    requires Chain(s, 0, v, was, V)
    ensures Limbs(s[0 := v], V)
  {
    hide ValBE, Pow, Carried;
    TopLimb(was, v, |s| - 1, ValBE(s[1..], LIMB), V);
    ConsLimb(v, s[1..]);
    assert s[0 := v] == [v] + s[1..];
  }

  /** q := v / 58^5; flat[at+i] := v - q*58^5; v := flat[at+i-1] + q. */
  method Step(flat: array<uint64>, at: nat, n: nat, i: nat, v: uint64, ghost was: seq<nat>, ghost V: nat)
    returns (next: uint64)
    requires at + n <= flat.Length && i >= 1 && Chain(flat[at..at + n], i, v, was, V)
    modifies flat
    ensures Chain(flat[at..at + n], i - 1, next, was, V)
    ensures flat[..at] == old(flat[..at]) && flat[at + n..] == old(flat[at + n..])
  {
    hide Chain;
    ghost var s: seq<nat> := flat[at..at + n];
    ChainIndex(s, i, v, was, V);
    var q := v / LIMB;
    ChainStep(s, i, v, was, V, q, v - q * LIMB);
    flat[at + i] := v - q * LIMB;
    assert flat[at..at + n] == s[i := v - q * LIMB];
    assert flat[at + i - 1] == s[i - 1];
    next := flat[at + i - 1] + q;
  }

  lemma ChainIndex(s: seq<nat>, i: nat, v: nat, was: seq<nat>, V: nat)
    requires Chain(s, i, v, was, V)
    ensures i < |s|
  {
  }

  method Finish(flat: array<uint64>, at: nat, n: nat, v: uint64, ghost was: seq<nat>, ghost V: nat)
    requires at + n <= flat.Length && Chain(flat[at..at + n], 0, v, was, V)
    modifies flat
    ensures Limbs(flat[at..at + n], V)
    ensures flat[..at] == old(flat[..at]) && flat[at + n..] == old(flat[at + n..])
  {
    hide Chain, Limbs;
    ghost var s: seq<nat> := flat[at..at + n];
    ChainIndex(s, 0, v, was, V);
    ChainEnd(s, v, was, V);
    flat[at] := v;
    assert flat[at..at + n] == s[0 := v];
  }

  /** The sequential loop, in place: columns in, normalised limbs out. */
  method PropagateInPlace(inter: array<uint64>, at: nat, n: nat, ghost V: nat)
    requires n >= 1 && at + n <= inter.Length
    requires AllBelow(inter[at..at + n], W64 - 0x80_0000_0000)
    requires ValBE(inter[at..at + n], LIMB) == V < Pow(LIMB, n)
    modifies inter
    ensures inter[at..at + n] == FixedBE(V, n, LIMB)
    ensures inter[..at] == old(inter[..at]) && inter[at + n..] == old(inter[at + n..])
  {
    hide ValBE, Pow, Chain, FixedBE;
    ghost var was: seq<nat> := inter[at..at + n];
    ChainStart(was, V);
    var v: uint64 := inter[at + n - 1];
    var i := n - 1;
    while i >= 1
      invariant 0 <= i <= n - 1 && Chain(inter[at..at + n], i, v, was, V)
      invariant inter[..at] == old(inter[..at]) && inter[at + n..] == old(inter[at + n..])
    {
      v := Step(inter, at, n, i, v, was, V);
      i := i - 1;
    }
    Finish(inter, at, n, v, was, V);
    FixedUnique(inter[at..at + n], LIMB);
  }
}
