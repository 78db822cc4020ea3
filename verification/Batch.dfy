/** The batch encoders (batch.go): one backing buffer for all strings, four inputs
    at a time with interleaved carry chains. The 32- and 64-byte versions are the
    same code with 9 and 18 limbs per input. */
module Batch {
  import opened Radix
  import opened Sequences
  import opened Words
  import opened Alphabet
  import opened Base58
  import opened Chars
  import opened Tables
  import opened Matrix
  import opened Carry
  import opened Fixed

  // ---- the two widths ----

  predicate Width(src: seq<byte>, n: nat) {
    (|src| == 32 && n == 9) || (|src| == 64 && n == 18)
  }

  /** The matrix columns of one input. */
  method MatMul(src: seq<byte>, flat: array<uint64>, at: nat, n: nat, bounds: seq<(nat, nat)>)
    requires Width(src, n) && at + n <= flat.Length && TableBounds(ENC64, bounds)
    requires forall j :: at <= j < at + n ==> flat[j] == 0
    modifies flat
    ensures Columns(flat[at..at + n], Val256(src))
    ensures flat[..at] == old(flat[..at]) && flat[at + n..] == old(flat[at + n..])
  {
    hide ValBE, Val256, Pow, Inter32, Inter64, TableBounds;
    if n == 9 {
      EncodeMatMul32(src, flat, at);
      Columns32(src);
    } else {
      EncodeMatMul64(src, flat, at, bounds);
      Columns64(src);
    }
  }

  // ---- four lanes in one array ----

  function At(n: nat, k: nat): nat
    requires k < 4
  {
    if k == 0 then 0 else if k == 1 then n else if k == 2 then 2 * n else 3 * n
  }

  function Lane(f: seq<nat>, n: nat, k: nat): (s: seq<nat>)
    requires |f| == 4 * n && k < 4
    ensures |s| == n
  {
    f[At(n, k)..At(n, k) + n]
  }

  /** Work on one lane leaves the others as they were. */
  lemma OtherLanes(before: seq<nat>, after: seq<nat>, n: nat, k: nat)
    requires |before| == |after| == 4 * n && k < 4
    requires before[..At(n, k)] == after[..At(n, k)] && before[At(n, k) + n..] == after[At(n, k) + n..]
    ensures forall j :: 0 <= j < 4 && j != k ==> Lane(before, n, j) == Lane(after, n, j)
    ensures forall i :: At(n, k) + n <= i < 4 * n ==> before[i] == after[i]
  {
    var at := At(n, k);
    forall i | 0 <= i < 4 * n && !(at <= i < at + n)
      ensures before[i] == after[i]
    {
      if i < at {
        assert before[..at][i] == after[..at][i];
      } else {
        assert before[at + n..][i - at - n] == after[at + n..][i - at - n];
      }
    }
  }

  /** The first k inputs have been multiplied into their lanes. */
  ghost predicate Filled(f: seq<nat>, n: nat, k: nat, srcs: seq<seq<byte>>) {
    && |f| == 4 * n && |srcs| == 4 && k <= 4
    && (forall j :: 0 <= j < k ==> Columns(Lane(f, n, j), Val256(srcs[j])))
    && (k < 4 ==> forall i :: At(n, k) <= i < 4 * n ==> f[i] == 0)
  }

  method MatMulLane(srcs: seq<seq<byte>>, flat: array<uint64>, k: nat, n: nat, bounds: seq<(nat, nat)>)
    requires k < 4 && Filled(flat[..], n, k, srcs) && Width(srcs[k], n) && TableBounds(ENC64, bounds)
    modifies flat
    ensures Filled(flat[..], n, k + 1, srcs)
  {
    hide Columns, Val256, TableBounds;
    ghost var before := flat[..];
    MatMul(srcs[k], flat, At(n, k), n, bounds);
    OtherLanes(before, flat[..], n, k);
    assert Lane(flat[..], n, k) == flat[At(n, k)..At(n, k) + n];
  }

  /** Four values in their lanes, as columns or as limbs. */
  ghost predicate FourLimbs(f: seq<nat>, n: nat, Vs: seq<nat>) {
    |f| == 4 * n && |Vs| == 4 && forall k :: 0 <= k < 4 ==> Limbs(Lane(f, n, k), Vs[k])
  }

  ghost predicate FourColumns(f: seq<nat>, n: nat, Vs: seq<nat>) {
    |f| == 4 * n && |Vs| == 4 && forall k :: 0 <= k < 4 ==> Columns(Lane(f, n, k), Vs[k])
  }

  /** The state of the four interleaved chains: lanes before k are already in
      iteration i - 1. */
  ghost predicate Chains(f: seq<nat>, n: nat, i: nat, k: nat, v: seq<nat>, was: seq<nat>, Vs: seq<nat>) {
    && |f| == |was| == 4 * n && |Vs| == |v| == 4 && (k > 0 ==> i > 0)
    && forall j :: 0 <= j < 4 ==>
        Chain(Lane(f, n, j), if j < k then i - 1 else i, v[j], Lane(was, n, j), Vs[j])
  }

  lemma ChainsAt(f: seq<nat>, n: nat, i: nat, k: nat, v: seq<nat>, was: seq<nat>, Vs: seq<nat>)
    requires Chains(f, n, i, k, v, was, Vs) && k < 4
    ensures Chain(f[At(n, k)..At(n, k) + n], i, v[k], Lane(was, n, k), Vs[k])
  {
    assert f[At(n, k)..At(n, k) + n] == Lane(f, n, k);
  }

  /** One chain's step, the other three standing still. */
  method LaneStep(flat: array<uint64>, n: nat, i: nat, k: nat, ghost v: seq<nat>, x: uint64,
                  ghost was: seq<nat>, ghost Vs: seq<nat>)
    returns (next: uint64)
    requires i >= 1 && k < 4 && flat.Length == 4 * n
    requires Chains(flat[..], n, i, k, v, was, Vs) && v[k] == x
    modifies flat
    ensures Chains(flat[..], n, i, k + 1, v[k := next], was, Vs)
  {
    hide Chain;
    ghost var before := flat[..];
    ChainsAt(before, n, i, k, v, was, Vs);
    assert flat[At(n, k)..At(n, k) + n] == before[At(n, k)..At(n, k) + n];
    next := Step(flat, At(n, k), n, i, x, Lane(was, n, k), Vs[k]);
    OtherLanes(before, flat[..], n, k);
    assert Lane(flat[..], n, k) == flat[At(n, k)..At(n, k) + n];
  }

  lemma NextIteration(f: seq<nat>, n: nat, i: nat, v: seq<nat>, was: seq<nat>, Vs: seq<nat>)
    requires i >= 1 && Chains(f, n, i, 4, v, was, Vs)
    ensures Chains(f, n, i - 1, 0, v, was, Vs)
  {
  }

  /** The last column of one lane. */
  method LaneEnd(flat: array<uint64>, n: nat, k: nat, x: uint64, ghost was: seq<nat>, ghost V: nat)
    requires k < 4 && flat.Length == 4 * n && Chain(Lane(flat[..], n, k), 0, x, was, V)
    modifies flat
    ensures Limbs(Lane(flat[..], n, k), V)
    ensures forall j :: 0 <= j < 4 && j != k ==> Lane(flat[..], n, j) == old(Lane(flat[..], n, j))
  {
    hide Chain, Limbs;
    ghost var before := flat[..];
    assert flat[At(n, k)..At(n, k) + n] == Lane(before, n, k);
    Finish(flat, At(n, k), n, x, was, V);
    OtherLanes(before, flat[..], n, k);
    assert Lane(flat[..], n, k) == flat[At(n, k)..At(n, k) + n];
  }

  lemma ChainsStart(f: seq<nat>, n: nat, Vs: seq<nat>)
    requires n >= 1 && FourColumns(f, n, Vs)
    ensures Chains(f, n, n - 1, 0, [f[n - 1], f[2 * n - 1], f[3 * n - 1], f[4 * n - 1]], f, Vs)
  {
    hide Chain, Columns;
    forall j | 0 <= j < 4
      ensures Chain(Lane(f, n, j), n - 1, Lane(f, n, j)[n - 1], Lane(f, n, j), Vs[j])
    {
      ChainStart(Lane(f, n, j), Vs[j]);
    }
  }

  /** The interleaved loop: the same limbs as four separate chains would give. */
  method PropagateFour(flat: array<uint64>, n: nat, ghost Vs: seq<nat>)
    requires n >= 1 && flat.Length == 4 * n && FourColumns(flat[..], n, Vs)
    modifies flat
    ensures FourLimbs(flat[..], n, Vs)
  {
    hide Chain, Columns, Chains, Limbs;
    ghost var was: seq<nat> := flat[..];
    ChainsStart(was, n, Vs);
    var va, vb, vc, vd := flat[n - 1], flat[2 * n - 1], flat[3 * n - 1], flat[4 * n - 1];
    var i := n - 1;
    while i >= 1
      invariant 0 <= i <= n - 1 && Chains(flat[..], n, i, 0, [va, vb, vc, vd], was, Vs)
    {
      ghost var v: seq<nat> := [va, vb, vc, vd];
      va := LaneStep(flat, n, i, 0, v, va, was, Vs);
      v := v[0 := va];
      vb := LaneStep(flat, n, i, 1, v, vb, was, Vs);
      v := v[1 := vb];
      vc := LaneStep(flat, n, i, 2, v, vc, was, Vs);
      v := v[2 := vc];
      vd := LaneStep(flat, n, i, 3, v, vd, was, Vs);
      v := v[3 := vd];
      assert v == [va, vb, vc, vd];
      NextIteration(flat[..], n, i, v, was, Vs);
      i := i - 1;
    }
    FinishFour(flat, n, va, vb, vc, vd, was, Vs);
  }

  /** ia[0], ib[0], ic[0], id[0] = va, vb, vc, vd. */
  method FinishFour(flat: array<uint64>, n: nat, va: uint64, vb: uint64, vc: uint64, vd: uint64,
                    ghost was: seq<nat>, ghost Vs: seq<nat>)
    requires flat.Length == 4 * n && Chains(flat[..], n, 0, 0, [va, vb, vc, vd], was, Vs)
    modifies flat
    ensures FourLimbs(flat[..], n, Vs)
  {
    hide Chain, Limbs, Lane;
    LaneEnd(flat, n, 0, va, Lane(was, n, 0), Vs[0]);
    LaneEnd(flat, n, 1, vb, Lane(was, n, 1), Vs[1]);
    LaneEnd(flat, n, 2, vc, Lane(was, n, 2), Vs[2]);
    LaneEnd(flat, n, 3, vd, Lane(was, n, 3), Vs[3]);
  }

  // ---- characters ----

  /** Five characters per limb. */
  ghost predicate Rendered(text: seq<byte>, ls: seq<nat>) {
    |text| == 5 * |ls| && forall i :: 0 <= i < |ls| ==> Spells5(text[5 * i..5 * i + 5], ls[i])
  }

  lemma RenderNext(text: seq<byte>, ls: seq<nat>, five: seq<byte>, v: nat)
    requires Rendered(text, ls) && Spells5(five, v)
    ensures Rendered(text + five, ls + [v])
  {
    hide Spells5;
    var u, ms := text + five, ls + [v];
    LengthOfFive(five, v);
    forall i | 0 <= i < |ms|
      ensures Spells5(u[5 * i..5 * i + 5], ms[i])
    {
      if i < |ls| {
        assert u[5 * i..5 * i + 5] == text[5 * i..5 * i + 5];
        assert Spells5(text[5 * i..5 * i + 5], ls[i]);
      } else {
        assert u[5 * i..5 * i + 5] == five;
      }
    }
  }

  lemma LengthOfFive(five: seq<byte>, v: nat)
    requires Spells5(five, v)
    ensures |five| == 5
  {
  }

  lemma RenderedPart(text: seq<byte>, ls: seq<nat>, lo: nat, n: nat)
    requires Rendered(text, ls) && lo + n <= |ls|
    ensures Rendered(text[5 * lo..5 * (lo + n)], ls[lo..lo + n])
  {
    hide Spells5;
    var u, ms := text[5 * lo..5 * (lo + n)], ls[lo..lo + n];
    forall i | 0 <= i < n
      ensures Spells5(u[5 * i..5 * i + 5], ms[i])
    {
      assert u[5 * i..5 * i + 5] == text[5 * (lo + i)..5 * (lo + i) + 5];
      assert Spells5(text[5 * (lo + i)..5 * (lo + i) + 5], ls[lo + i]);
    }
  }

  lemma {:induction false} RenderedSpells(text: seq<byte>, ls: seq<nat>)
    requires Rendered(text, ls)
    ensures Spells(text, ValBE(ls, LIMB))
    decreases |ls|
  {
    hide Spells5, Spells, ValBE;
    if ls == [] {
      ValBEEmpty(LIMB);
      EmptySpells();
    } else {
      var n := |ls| - 1;
      RenderedPart(text, ls, 0, n);
      RenderedSpells(text[0..5 * n], ls[0..n]);
      assert ls[0..n] == ls[..n] && ls[..n + 1] == ls;
      assert text == text[0..5 * n] + text[5 * n..5 * n + 5];
      AppendLimb(text[0..5 * n], text[5 * n..5 * n + 5], ls, n);
    }
  }

  /** extractCharsFlat36 and extractCharsFlat72; with one lane, extractChars32 and
      extractChars64. */
  method ExtractFlat(flat: seq<uint64>, raws: array<byte>, at: nat)
    requires AllBelow(flat, LIMB) && at + 5 * |flat| <= raws.Length
    modifies raws
    ensures Rendered(raws[at..at + 5 * |flat|], flat)
    ensures raws[..at] == old(raws[..at])
  {
    hide Spells5, Rendered;
    var i := 0;
    NothingRendered();
    assert raws[at..at] == [] && flat[..0] == [];
    while i < |flat|
      invariant i <= |flat| && raws[..at] == old(raws[..at])
      invariant Rendered(raws[at..at + 5 * i], flat[..i])
    {
      var p := at + 5 * i;
      ghost var before := raws[..];
      ExtractChars5(flat[i], raws, p);
      KeptBefore(before, raws[..], p, at, p);
      KeptBefore(before, raws[..], p, at, at);
      SplitSlice(raws[..], at, p, p + 5);
      assert flat[..i + 1] == flat[..i] + [flat[i]];
      RenderNext(before[at..p], flat[..i], raws[p..p + 5], flat[i]);
      i := i + 1;
    }
    assert flat[..i] == flat;
  }

  lemma NothingRendered()
    ensures Rendered([], [])
  {
  }

  // ---- raw slots ----

  /** A slot of 45 or 90 characters that spells the input. */
  ghost predicate SlotOf(slot: seq<byte>, src: seq<byte>) {
    Spells(slot, Val256(src)) && |Encoding(src)| <= |slot|
  }

  lemma SlotFromLimbs(slot: seq<byte>, ls: seq<nat>, src: seq<byte>, n: nat)
    requires Width(src, n) && |ls| == n && Limbs(ls, Val256(src)) && Rendered(slot, ls)
    ensures SlotOf(slot, src) && |slot| == 5 * n
  {
    hide ValBE, Spells, Encoding, Val256, Spells5;
    RenderedSpells(slot, ls);
    EncodingLength(src);
  }

  /** rawSkip32 and rawSkip64: the '1's of the slot beyond one per zero byte. */
  method RawSkip(src: seq<byte>, raw: seq<byte>) returns (skip: nat)
    requires SlotOf(raw, src)
    ensures skip == |raw| - |Encoding(src)| && raw[skip..] == Encoding(src)
  {
    hide Spells, Encoding, Val256, ToBE, Leading;
    var inZeros := CountLeading(src, 0);
    var rawOnes := CountLeading(raw, ONE);
    SlotLeading(raw, src);
    skip := rawOnes - inZeros;
  }

  lemma SlotLeading(raw: seq<byte>, src: seq<byte>)
    requires SlotOf(raw, src)
    ensures Leading(raw, ONE) - Leading(src, 0) == |raw| - |Encoding(src)|
    ensures raw[|raw| - |Encoding(src)|..] == Encoding(src)
  {
    hide Spells, Encoding, Val256, ToBE, Leading;
    PaddedText(raw, src, Val256(src));
    EncodingLength(src);
    if Val256(src) == 0 {
      ZeroText();
    } else {
      PositiveText(Val256(src));
    }
    LeadingUnique(raw, ONE, |raw| - |ToBE(Val256(src), 58)|);
  }

  lemma PositiveText(v: nat)
    requires v > 0
    ensures |ToBE(v, 58)| > 0
  {
  }

  /** encodeRaw32 and encodeRaw64 into a slot of the backing buffer. */
  method EncodeRaw(src: seq<byte>, backing: array<byte>, at: nat, n: nat, bounds: seq<(nat, nat)>) returns (skip: nat)
    requires Width(src, n) && TableBounds(ENC64, bounds) && at + 5 * n <= backing.Length
    modifies backing
    ensures backing[..at] == old(backing[..at])
    ensures skip <= 5 * n && backing[at + skip..at + 5 * n] == Encoding(src)
  {
    hide ValBE, Val256, Encoding, Pow, FixedBE, TableBounds, Rendered, SlotOf;
    var inter := new uint64[n](_ => 0);
    MatMul(src, inter, 0, n, bounds);
    assert inter[0..n] == inter[..];
    PropagateInPlace(inter, 0, n, Val256(src));
    assert inter[0..n] == inter[..];
    ExtractFlat(inter[..], backing, at);
    SlotFromLimbs(backing[at..at + 5 * n], inter[..], src, n);
    skip := RawSkip(src, backing[at..at + 5 * n]);
    assert backing[at..at + 5 * n][skip..] == backing[at + skip..at + 5 * n];
  }

  /** encodeRaw32x4 and encodeRaw64x4: four consecutive slots. */
  method EncodeRawX4(srcs: seq<seq<byte>>, backing: array<byte>, at: nat, n: nat, bounds: seq<(nat, nat)>)
    requires |srcs| == 4 && n >= 1 && (forall k :: 0 <= k < 4 ==> Width(srcs[k], n))
    requires TableBounds(ENC64, bounds) && at + 20 * n <= backing.Length
    modifies backing
    ensures backing[..at] == old(backing[..at])
    ensures FourSlots(backing[at..at + 20 * n], n, srcs)
  {
    hide Val256, Columns, Limbs, TableBounds, Rendered, FourSlots, Filled;
    var flat := new uint64[4 * n](_ => 0);
    NothingFilled(flat[..], n, srcs);
    MatMulLane(srcs, flat, 0, n, bounds);
    MatMulLane(srcs, flat, 1, n, bounds);
    MatMulLane(srcs, flat, 2, n, bounds);
    MatMulLane(srcs, flat, 3, n, bounds);
    ghost var Vs := [Val256(srcs[0]), Val256(srcs[1]), Val256(srcs[2]), Val256(srcs[3])];
    AllFilled(flat[..], n, srcs, Vs);
    PropagateFour(flat, n, Vs);
    LanesBelow(flat[..], n, Vs);
    ExtractFlat(flat[..], backing, at);
    SlotsFromLanes(backing[at..at + 20 * n], flat[..], n, srcs, Vs);
  }

  function Slot(raws: seq<byte>, n: nat, k: nat): (s: seq<byte>)
    requires |raws| == 20 * n && k < 4
    ensures |s| == 5 * n
  {
    raws[5 * At(n, k)..5 * At(n, k) + 5 * n]
  }

  ghost predicate FourSlots(raws: seq<byte>, n: nat, srcs: seq<seq<byte>>) {
    |raws| == 20 * n && |srcs| == 4 && forall k :: 0 <= k < 4 ==> SlotOf(Slot(raws, n, k), srcs[k])
  }

  lemma NothingFilled(f: seq<nat>, n: nat, srcs: seq<seq<byte>>)
    requires |f| == 4 * n && |srcs| == 4 && forall i :: 0 <= i < 4 * n ==> f[i] == 0
    ensures Filled(f, n, 0, srcs)
  {
  }

  lemma AllFilled(f: seq<nat>, n: nat, srcs: seq<seq<byte>>, Vs: seq<nat>)
    requires Filled(f, n, 4, srcs) && |Vs| == 4 && forall k :: 0 <= k < 4 ==> Vs[k] == Val256(srcs[k])
    ensures FourColumns(f, n, Vs)
  {
    hide Columns, Val256;
  }

  lemma LanesBelow(f: seq<nat>, n: nat, Vs: seq<nat>)
    requires FourLimbs(f, n, Vs)
    ensures AllBelow(f, LIMB)
  {
    hide ValBE;
    forall i | 0 <= i < |f|
      ensures f[i] < LIMB
    {
      var k := if i < n then 0 else if i < 2 * n then 1 else if i < 3 * n then 2 else 3;
      assert Limbs(Lane(f, n, k), Vs[k]);
      assert Lane(f, n, k)[i - At(n, k)] == f[i];
    }
  }

  lemma SlotsFromLanes(raws: seq<byte>, f: seq<nat>, n: nat, srcs: seq<seq<byte>>, Vs: seq<nat>)
    requires Rendered(raws, f) && FourLimbs(f, n, Vs) && |srcs| == 4
    requires forall k :: 0 <= k < 4 ==> Width(srcs[k], n) && Vs[k] == Val256(srcs[k])
    ensures |raws| == 20 * n && FourSlots(raws, n, srcs)
  {
    hide Val256, Limbs, SlotOf, Spells5;
    forall k | 0 <= k < 4
      ensures SlotOf(Slot(raws, n, k), srcs[k])
    {
      RenderedPart(raws, f, At(n, k), n);
      assert Slot(raws, n, k) == raws[5 * At(n, k)..5 * (At(n, k) + n)];
      SlotFromLimbs(Slot(raws, n, k), Lane(f, n, k), srcs[k], n);
    }
  }

  // ---- the batch ----

  /** A returned string: a window of the backing buffer. */
  datatype View = View(from: nat, to: nat)

  /** Slot i starts at character i * size. */
  function SlotStart(i: nat, size: nat): nat {
    i * size
  }

  /** String i lies in slot i and is the encoding of its input. */
  ghost predicate Encodes(buf: seq<byte>, v: View, src: seq<byte>, i: nat, size: nat) {
    SlotStart(i, size) <= v.from <= v.to == SlotStart(i + 1, size) <= |buf| && buf[v.from..v.to] == Encoding(src)
  }

  ghost predicate AllEncode(buf: seq<byte>, out: seq<View>, srcs: seq<seq<byte>>, size: nat) {
    |out| <= |srcs| && forall i :: 0 <= i < |out| ==> Encodes(buf, out[i], srcs[i], i, size)
  }

  lemma SlotOrder(i: nat, j: nat, size: nat)
    requires i <= j
    ensures SlotStart(i, size) <= SlotStart(j, size)
    ensures SlotStart(i + 1, size) == SlotStart(i, size) + size
    ensures SlotStart(i + 4, size) == SlotStart(i, size) + 4 * size
  {
    MulMonotone(i, j, size);
  }

  /** Writing from slot |out| on, which starts at end, changes no string returned
      so far. */
  lemma ViewsKept(before: seq<byte>, after: seq<byte>, out: seq<View>, srcs: seq<seq<byte>>, size: nat, end: nat)
    requires AllEncode(before, out, srcs, size) && end == SlotStart(|out|, size) <= |before| == |after|
    requires before[..end] == after[..end]
    ensures AllEncode(after, out, srcs, size)
  {
    hide Encoding, SlotStart;
    forall i | 0 <= i < |out|
      ensures Encodes(after, out[i], srcs[i], i, size)
    {
      assert Encodes(before, out[i], srcs[i], i, size);
      SlotOrder(i + 1, |out|, size);
      KeptBefore(before, after, end, out[i].from, out[i].to);
    }
  }

  lemma ViewAdded(buf: seq<byte>, out: seq<View>, srcs: seq<seq<byte>>, size: nat, start: nat, skip: nat)
    requires AllEncode(buf, out, srcs, size) && |out| < |srcs| && skip <= size
    requires start == SlotStart(|out|, size) && start + size <= |buf|
    requires buf[start + skip..start + size] == Encoding(srcs[|out|])
    ensures AllEncode(buf, out + [View(start + skip, start + size)], srcs, size)
  {
    hide Encoding, SlotStart;
    SlotOrder(|out|, |out|, size);
    var v := View(start + skip, start + size);
    forall i | 0 <= i < |out| + 1
      ensures Encodes(buf, (out + [v])[i], srcs[i], i, size)
    {
      assert i < |out| ==> Encodes(buf, out[i], srcs[i], i, size);
    }
  }

  lemma SlotPosition(raws: seq<byte>, buf: seq<byte>, at: nat, n: nat, j: nat)
    requires j < 4 && at + 20 * n <= |buf| && raws == buf[at..at + 20 * n]
    ensures 5 * At(n, j) + 5 * n <= 20 * n
    ensures buf[at + 5 * At(n, j)..at + 5 * At(n, j) + 5 * n] == Slot(raws, n, j)
  {
    SubSlice(buf, at, at + 20 * n, 5 * At(n, j), 5 * At(n, j) + 5 * n);
  }

  lemma FourTimes(j: nat, x: nat)
    requires j < 4
    ensures j * x == if j == 0 then 0 else if j == 1 then x else if j == 2 then 2 * x else 3 * x
  {
  }

  /** for j := range 4 { slot; skip; out[i+j] }, the first slot starting at first. */
  method TakeFour(backing: array<byte>, srcs: seq<seq<byte>>, i: nat, n: nat, first: nat, taken: seq<View>)
    returns (out: seq<View>)
    requires i + 4 <= |srcs| && |taken| == i && first == SlotStart(i, 5 * n) && first + 20 * n <= backing.Length
    requires AllEncode(backing[..], taken, srcs, 5 * n)
    requires FourSlots(backing[..][first..first + 20 * n], n, srcs[i..i + 4])
    ensures |out| == i + 4 && AllEncode(backing[..], out, srcs, 5 * n)
  {
    hide AllEncode, SlotOf, Encoding, FourSlots, SlotStart;
    out := taken;
    for j := 0 to 4
      invariant |out| == i + j && AllEncode(backing[..], out, srcs, 5 * n)
    {
      var start := SlotStart(i + j, 5 * n);
      SlotInBatch(backing[..], srcs, i, j, n, first, start);
      out := TakeOne(backing, srcs, 5 * n, start, out);
    }
  }

  method TakeOne(backing: array<byte>, srcs: seq<seq<byte>>, size: nat, start: nat, taken: seq<View>)
    returns (out: seq<View>)
    requires |taken| < |srcs| && start == SlotStart(|taken|, size) && start + size <= backing.Length
    requires AllEncode(backing[..], taken, srcs, size)
    requires SlotOf(backing[..][start..start + size], srcs[|taken|])
    ensures |out| == |taken| + 1 && AllEncode(backing[..], out, srcs, size)
  {
    hide AllEncode, SlotOf, Encoding, SlotStart;
    var slot := backing[start..start + size];
    var skip := RawSkip(srcs[|taken|], slot);
    SubSlice(backing[..], start, start + size, skip, size);
    assert slot[skip..] == slot[skip..size];
    ViewAdded(backing[..], taken, srcs, size, start, skip);
    out := taken + [View(start + skip, start + size)];
  }

  lemma SlotInBatch(buf: seq<byte>, srcs: seq<seq<byte>>, i: nat, j: nat, n: nat, first: nat, start: nat)
    requires j < 4 && i + 4 <= |srcs| && first == SlotStart(i, 5 * n) && start == SlotStart(i + j, 5 * n)
    requires first + 20 * n <= |buf| && FourSlots(buf[first..first + 20 * n], n, srcs[i..i + 4])
    ensures start + 5 * n <= |buf| && SlotOf(buf[start..start + 5 * n], srcs[i + j])
  {
    hide SlotOf, Slot, SlotStart;
    SlotOffset(i, j, n);
    SlotPosition(buf[first..first + 20 * n], buf, first, n, j);
    assert srcs[i..i + 4][j] == srcs[i + j];
  }

  lemma SlotOffset(i: nat, j: nat, n: nat)
    requires j < 4
    ensures SlotStart(i + j, 5 * n) == SlotStart(i, 5 * n) + 5 * At(n, j)
  {
    var x := 5 * n;
    assert (i + j) * x == i * x + j * x;
    FourTimes(j, x);
  }

  /** Encode32Batch (n == 9) and Encode64Batch (n == 18). */
  method EncodeBatch(srcs: seq<seq<byte>>, n: nat, bounds: seq<(nat, nat)>)
    returns (backing: array<byte>, out: seq<View>)
    requires n >= 1 && TableBounds(ENC64, bounds) && forall i :: 0 <= i < |srcs| ==> Width(srcs[i], n)
    ensures fresh(backing) && |out| == |srcs| && AllEncode(backing[..], out, srcs, 5 * n)
  {
    hide Encoding, AllEncode, TableBounds, FourSlots, SlotStart;
    var size := 5 * n;
    backing := new byte[SlotStart(|srcs|, size) + 6](_ => 0);
    out := [];
    NoViews(backing[..], srcs, size);
    if |srcs| == 0 {
      return;
    }
    var i := 0;
    while i + 4 <= |srcs|
      invariant i <= |srcs| && |out| == i && fresh(backing) && backing.Length == SlotStart(|srcs|, size) + 6
      invariant AllEncode(backing[..], out, srcs, size)
    {
      out := BatchFour(backing, srcs, i, n, bounds, out);
      i := i + 4;
    }
    while i < |srcs|
      invariant i <= |srcs| && |out| == i && fresh(backing) && backing.Length == SlotStart(|srcs|, size) + 6
      invariant AllEncode(backing[..], out, srcs, size)
    {
      out := BatchOne(backing, srcs, i, n, bounds, out);
      i := i + 1;
    }
  }

  lemma NoViews(buf: seq<byte>, srcs: seq<seq<byte>>, size: nat)
    ensures AllEncode(buf, [], srcs, size)
  {
  }

  method BatchFour(backing: array<byte>, srcs: seq<seq<byte>>, i: nat, n: nat, bounds: seq<(nat, nat)>,
                   taken: seq<View>)
    returns (out: seq<View>)
    requires n >= 1 && TableBounds(ENC64, bounds) && forall k :: 0 <= k < |srcs| ==> Width(srcs[k], n)
    requires i + 4 <= |srcs| && |taken| == i && backing.Length == SlotStart(|srcs|, 5 * n) + 6
    requires AllEncode(backing[..], taken, srcs, 5 * n)
    modifies backing
    ensures |out| == i + 4 && AllEncode(backing[..], out, srcs, 5 * n)
  {
    hide Encoding, AllEncode, TableBounds, FourSlots, SlotStart;
    var size := 5 * n;
    var first := SlotStart(i, size);
    SlotOrder(i, i, size);
    SlotOrder(i + 4, |srcs|, size);
    ghost var before := backing[..];
    EncodeRawX4(srcs[i..i + 4], backing, first, n, bounds);
    ViewsKept(before, backing[..], taken, srcs, size, first);
    out := TakeFour(backing, srcs, i, n, first, taken);
  }

  method BatchOne(backing: array<byte>, srcs: seq<seq<byte>>, i: nat, n: nat, bounds: seq<(nat, nat)>,
                  taken: seq<View>)
    returns (out: seq<View>)
    requires TableBounds(ENC64, bounds) && forall k :: 0 <= k < |srcs| ==> Width(srcs[k], n)
    requires i < |srcs| && |taken| == i && backing.Length == SlotStart(|srcs|, 5 * n) + 6
    requires AllEncode(backing[..], taken, srcs, 5 * n)
    modifies backing
    ensures |out| == i + 1 && AllEncode(backing[..], out, srcs, 5 * n)
  {
    hide Encoding, AllEncode, TableBounds, SlotStart;
    var size := 5 * n;
    var first := SlotStart(i, size);
    SlotOrder(i, i, size);
    SlotOrder(i + 1, |srcs|, size);
    ghost var before := backing[..];
    var skip := EncodeRaw(srcs[i], backing, first, n, bounds);
    ViewsKept(before, backing[..], taken, srcs, size, first);
    ViewAdded(backing[..], taken, srcs, size, first, skip);
    out := taken + [View(first + skip, first + size)];
  }

  /** The strings share one buffer but no characters. */
  lemma ViewsDisjoint(buf: seq<byte>, out: seq<View>, srcs: seq<seq<byte>>, size: nat, i: nat, j: nat)
    requires AllEncode(buf, out, srcs, size) && i < j < |out|
    ensures out[i].to <= out[j].from
  {
    hide Encoding, SlotStart;
    assert Encodes(buf, out[i], srcs[i], i, size) && Encodes(buf, out[j], srcs[j], j, size);
    SlotOrder(i + 1, j, size);
  }
}
