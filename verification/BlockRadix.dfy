/** The block-radix encoder (encode_block.go): 64-byte blocks folded into a
    little-endian base-58^5 number, state = state * 2^512 + block. */
module BlockRadix {
  import opened Radix
  import opened Words
  import opened Alphabet
  import opened Base58
  import opened Sizes
  import opened Chars
  import opened Tables
  import opened Matrix
  import opened Carry
  import opened Convolve
  import opened Division

  // ---- the state: little-endian limbs without a zero on top ----

  ghost predicate IsState(ds: seq<nat>, V: nat) {
    |ds| >= 1 && AllBelow(ds, LIMB) && ValLE(ds, LIMB) == V
    && (|ds| == 1 || ds[|ds| - 1] != 0)
  }

  /** A trimmed state of a value has no more limbs than the value needs. */
  lemma StateLength(ds: seq<nat>, V: nat, m: nat)
    requires IsState(ds, V) && V < Pow(256, m)
    ensures |ds| == 1 || 40 * (|ds| - 1) < 11 * m
    ensures V < Pow(LIMB, |ds|)
  {
    hide ValLE, Pow;
    ValLEBound(ds, LIMB);
    if |ds| > 1 {
      ValLELower(ds, LIMB);
      LimbPower(|ds| - 1);
      EncodedDigits(V, 5 * (|ds| - 1), m);
    }
  }

  lemma DropTopZero(ds: seq<nat>)
    requires ds != [] && ds[|ds| - 1] == 0
    ensures ValLE(ds[..|ds| - 1], LIMB) == ValLE(ds, LIMB)
  {
  }

  /** for count > 1 && digits[count-1] == 0 { count-- }. */
  method Trim(digits: array<uint32>, n: nat, ghost V: nat) returns (count: nat)
    requires 1 <= n <= digits.Length
    requires AllBelow(digits[..n], LIMB) && ValLE(digits[..n], LIMB) == V
    ensures 1 <= count <= n && IsState(digits[..count], V)
  {
    hide ValLE;
    count := n;
    while count > 1 && digits[count - 1] == 0
      invariant 1 <= count <= n
      invariant AllBelow(digits[..count], LIMB) && ValLE(digits[..count], LIMB) == V
    {
      DropTopZero(digits[..count]);
      assert digits[..count][..count - 1] == digits[..count - 1];
      count := count - 1;
    }
  }

  // ---- one block through the matrix kernel ----

  lemma SnocLimb(done: seq<nat>, r: nat)
    requires r < LIMB && AllBelow(done, LIMB)
    ensures AllBelow(done + [r], LIMB)
    ensures ValLE(done + [r], LIMB) == r * Pow(LIMB, |done|) + ValLE(done, LIMB)
  {
    assert (done + [r])[..|done|] == done;
  }

  /** The carry loop of encodeBlock32/64: columns, most significant first, into
      little-endian limbs, trimmed. */
  method ColumnsToState(inter: array<uint64>, n: nat, digits: array<uint32>, ghost V: nat)
    returns (count: nat)
    requires 1 <= n == inter.Length <= digits.Length
    requires AllBelow(inter[..], W64 - 0x80_0000_0000)
    requires ValBE(inter[..], LIMB) == V < Pow(LIMB, n)
    modifies digits
    ensures 1 <= count <= n && IsState(digits[..count], V)
  {
    hide ValBE, ValLE, Pow, Carried, IsState;
    ghost var was: seq<nat> := inter[..];
    CarriedStart(LIMB, was);
    ValLEEmpty(LIMB);
    var v: uint64 := inter[n - 1];
    var i := n - 1;
    assert digits[..0] == [] && v == was[n - 1];
    while i >= 1
      invariant 0 <= i <= n - 1 && inter[..] == was
      invariant AllBelow(digits[..n - 1 - i], LIMB)
      invariant Carried(LIMB, was, i, v, n - 1 - i, ValLE(digits[..n - 1 - i], LIMB)) == V
    {
      ghost var done: seq<nat> := digits[..n - 1 - i];
      var q := v / LIMB;
      var r: uint32 := v - q * LIMB;
      CarriedStep(LIMB, was, i, v, q, r, n - 1 - i, ValLE(done, LIMB));
      SnocLimb(done, r);
      assert inter[i - 1] == was[i - 1];
      digits[n - 1 - i] := r;
      v := inter[i - 1] + q;
      assert digits[..n - i] == done + [r as nat];
      i := i - 1;
    }
    ghost var low: seq<nat> := digits[..n - 1];
    TopLimb(was, v, n - 1, ValLE(low, LIMB), V);
    SnocLimb(low, v);
    digits[n - 1] := v;
    assert digits[..n] == low + [v as nat];
    count := Trim(digits, n, V);
  }

  method EncodeBlock32(src: seq<byte>, digits: array<uint32>) returns (count: nat)
    requires |src| == 32 && digits.Length >= 9
    modifies digits
    ensures 1 <= count <= 9 && IsState(digits[..count], Val256(src))
  {
    hide IsState, Val256, Inter32, ValBE, Pow;
    var inter := new uint64[9](_ => 0);
    EncodeMatMul32(src, inter, 0);
    assert inter[..] == inter[0..9];
    Columns32(src);
    count := ColumnsToState(inter, 9, digits, Val256(src));
  }

  method EncodeBlock64(src: seq<byte>, digits: array<uint32>, bounds: seq<(nat, nat)>) returns (count: nat)
    requires |src| == 64 && digits.Length >= 18 && TableBounds(ENC64, bounds)
    modifies digits
    ensures 1 <= count <= 18 && IsState(digits[..count], Val256(src))
  {
    hide IsState, Val256, Inter64, ValBE, Pow, TableBounds;
    var inter := new uint64[18](_ => 0);
    EncodeMatMul64(src, inter, 0, bounds);
    assert inter[..] == inter[0..18];
    Columns64(src);
    count := ColumnsToState(inter, 18, digits, Val256(src));
  }

  // ---- rendering the state ----

  lemma StatePositive(ds: seq<nat>, V: nat, i: nat)
    requires IsState(ds, V) && i < |ds|
    ensures ds[..i + 1] == ds[..i] + [ds[i]]
    ensures ValLE(ds[..i + 1], LIMB) == Join(ds[i], 5 * i, ValLE(ds[..i], LIMB))
  {
    hide Pow;
    ValLEStep(ds, i, LIMB);
    LimbPower(i);
  }

  /** encodeDigits5Tail: five characters a limb, then the leading '1's go. */
  method EncodeDigits5Tail(digits: seq<uint32>, out: array<byte>, lo: nat, hi: nat, ghost V: nat) returns (p: nat)
    requires IsState(digits, V) && V > 0
    requires lo + 5 * |digits| <= hi <= out.Length
    modifies out
    ensures lo <= p <= hi && out[..lo] == old(out[..lo]) && out[hi..] == old(out[hi..])
    ensures out[p..hi] == Text(ToBE(V, 58))
  {
    hide ValLE, Join, Spells, Text, ToBE;
    p := hi;
    assert out[p..hi] == [] && digits[..0] == [];
    EmptySpells();
    ValLEEmpty(LIMB);
    var i := 0;
    while i < |digits|
      invariant i <= |digits| && p == hi - 5 * i
      invariant out[..lo] == old(out[..lo]) && out[hi..] == old(out[hi..])
      invariant Spells(out[p..hi], ValLE(digits[..i], LIMB))
    {
      StatePositive(digits, V, i);
      PutLimb(digits[i], out, p, hi, ValLE(digits[..i], LIMB));
      p := p - 5;
      i := i + 1;
    }
    assert digits[..|digits|] == digits;
    p := SkipLeadingOnes(out, p, hi, V);
  }

  // ---- encodeHornerStep ----

  lemma DigitTimes(d: nat, mult: nat, carry: nat, product: nat)
    requires d < LIMB && carry < mult <= W32 && product == d * mult
    ensures product + carry < LIMB * mult && product + carry < W64
  {
    MulMonotone(d, LIMB - 1, mult);
  }

  lemma PutLimbLE(ds: seq<nat>, i: nat, r: nat)
    requires i < |ds| && r < LIMB && ds[i] == r && AllBelow(ds[..i], LIMB)
    ensures AllBelow(ds[..i + 1], LIMB)
    ensures ValLE(ds[..i + 1], LIMB) == ValLE(ds[..i], LIMB) + r * Pow(LIMB, i)
  {
    hide ValLE, Pow;
    ValLEStep(ds, i, LIMB);
  }

  /** v := digit * multiplier + carry fits 64 bits; its quotient is the next carry. */
  method MulAddDivide(digit: uint32, multiplier: nat, carry: uint64) returns (q: uint64, r: uint32)
    requires digit < LIMB && carry < multiplier <= W32
    ensures digit * multiplier + carry == q * LIMB + r && r < LIMB && q < multiplier
  {
    var product := digit * multiplier;
    DigitTimes(digit, multiplier, carry, product);
    var v: uint64 := product + carry;
    q := v / LIMB;
    r := v - q * LIMB;
  }

  /** The pass over the existing limbs. */
  method ScaleLimbs(digits: array<uint32>, count: nat, multiplier: nat, chunk: nat, ghost V: nat)
    returns (carry: uint64)
    requires 1 <= count <= digits.Length && IsState(digits[..count], V)
    requires chunk < multiplier <= W32
    modifies digits
    ensures AllBelow(digits[..count], LIMB)
    ensures Pending(LIMB, ValLE(digits[..count], LIMB), count, carry) == Scaled(V, multiplier, chunk)
  {
    hide ValLE, Pow, Pending, Scaled;
    ghost var was: seq<nat> := digits[..count];
    carry := chunk;
    ValLEEmpty(LIMB);
    PendingStart(LIMB, chunk);
    ScaledZero(multiplier, chunk);
    assert digits[..0] == [] && was[..0] == [];
    var i := 0;
    while i < count
      invariant i <= count && carry < multiplier
      invariant AllBelow(digits[..i], LIMB) && digits[i..count] == was[i..]
      invariant Scaled(ValLE(was[..i], LIMB), multiplier, chunk) == Pending(LIMB, ValLE(digits[..i], LIMB), i, carry)
    {
      assert digits[i] == was[i];
      var q, r := MulAddDivide(digits[i], multiplier, carry);
      ScaleStep(LIMB, was, i, multiplier, chunk, ValLE(digits[..i], LIMB), carry, q, r);
      ghost var low: seq<nat> := digits[..i];
      digits[i] := r;
      assert digits[..][..i] == low == digits[..i] && digits[..][..i + 1] == digits[..i + 1];
      PutLimbLE(digits[..], i, r);
      carry := q;
      i := i + 1;
    }
    assert was[..count] == was;
  }

  /** encodeHornerStep: state = state * multiplier + chunk. */
  method HornerStep(digits: array<uint32>, count: nat, multiplier: nat, chunk: nat, ghost V: nat)
    returns (newCount: nat)
    requires 1 <= count <= digits.Length && IsState(digits[..count], V)
    requires chunk < multiplier <= W32
    requires Scaled(V, multiplier, chunk) < Pow(LIMB, digits.Length)
    modifies digits
    ensures 1 <= newCount <= digits.Length
    ensures IsState(digits[..newCount], Scaled(V, multiplier, chunk))
  {
    hide ValLE, Pow, Pending, Scaled;
    ghost var was: seq<nat> := digits[..count];
    var carry := ScaleLimbs(digits, count, multiplier, chunk, V);
    newCount := AppendCarry(digits, count, carry, Scaled(V, multiplier, chunk));
    if newCount == count > 1 {
      ValLELower(was, LIMB);
      ScaledGrows(V, multiplier, chunk);
      TopNonzero(digits[..newCount], LIMB);
    }
  }

  /** for carry != 0 { digits[count] = carry % 58^5; carry /= 58^5; count++ }. */
  method AppendCarry(digits: array<uint32>, count: nat, c: uint64, ghost total: nat) returns (n: nat)
    requires 1 <= count <= digits.Length && AllBelow(digits[..count], LIMB)
    requires Pending(LIMB, ValLE(digits[..count], LIMB), count, c) == total < Pow(LIMB, digits.Length)
    modifies digits
    ensures count <= n <= digits.Length && AllBelow(digits[..n], LIMB)
    ensures ValLE(digits[..n], LIMB) == total
    ensures n > count ==> digits[n - 1] != 0
  {
    hide ValLE, Pow, Pending;
    n := count;
    var carry: uint64 := c;
    while carry != 0
      invariant count <= n <= digits.Length && AllBelow(digits[..n], LIMB)
      invariant Pending(LIMB, ValLE(digits[..n], LIMB), n, carry) == total
      invariant n > count && carry == 0 ==> digits[n - 1] != 0
    {
      PendingLarge(LIMB, ValLE(digits[..n], LIMB), n, carry, digits.Length);
      var q := carry / LIMB;
      PendingStep(LIMB, ValLE(digits[..n], LIMB), n, carry, 0, q, carry - q * LIMB);
      NothingTimes(LIMB, n);
      ghost var low: seq<nat> := digits[..n];
      digits[n] := carry - q * LIMB;
      assert digits[..][..n] == low == digits[..n] && digits[..][..n + 1] == digits[..n + 1];
      PutLimbLE(digits[..], n, carry - q * LIMB);
      carry := q;
      n := n + 1;
    }
    PendingDone(LIMB, ValLE(digits[..n], LIMB), n);
  }

  // ---- encodeReduceColumns ----

  /** Reduces n columns to limbs. The carry dropped after the last one is zero. */
  method ReduceColumns(tmp: array<uint64>, digits: array<uint32>, n: nat, ghost V: nat) returns (carry: uint64)
    requires n <= tmp.Length && n <= digits.Length
    requires AllBelow(tmp[..n], W64 / 2 + W32) && ValLE(tmp[..n], LIMB) == V < Pow(LIMB, n)
    modifies digits
    ensures carry == 0
    ensures AllBelow(digits[..n], LIMB) && ValLE(digits[..n], LIMB) == V
  {
    hide ValLE, Pow, Pending;
    ghost var cols: seq<nat> := tmp[..n];
    carry := 0;
    ValLEEmpty(LIMB);
    PendingStart(LIMB, 0);
    assert digits[..0] == [] && cols[..0] == [];
    var i := 0;
    while i < n
      invariant i <= n && carry < 0x10_0000_0000 && tmp[..n] == cols
      invariant AllBelow(digits[..i], LIMB)
      invariant ValLE(cols[..i], LIMB) == Pending(LIMB, ValLE(digits[..i], LIMB), i, carry)
    {
      assert tmp[i] == cols[i];
      var v: uint64 := tmp[i] + carry;
      var q := v / LIMB;
      var r: uint32 := v - q * LIMB;
      PendingStep(LIMB, ValLE(digits[..i], LIMB), i, carry, cols[i], q, r);
      ValLEStep(cols, i, LIMB);
      ghost var low: seq<nat> := digits[..i];
      digits[i] := r;
      assert digits[..][..i] == low == digits[..i] && digits[..][..i + 1] == digits[..i + 1];
      PutLimbLE(digits[..], i, r);
      carry := q;
      i := i + 1;
    }
    assert cols[..n] == cols;
    if carry > 0 {
      PendingLarge(LIMB, ValLE(digits[..n], LIMB), n, carry, n);
    }
    PendingDone(LIMB, ValLE(digits[..n], LIMB), n);
  }

  // ---- encodeAbsorbBlocks ----

  lemma AddLow(sum: seq<nat>, s: seq<nat>, t: seq<nat>)
    requires |t| <= |s| == |sum|
    requires forall i :: 0 <= i < |s| ==> sum[i] == s[i] + (if i < |t| then t[i] else 0)
    ensures ValLE(sum, LIMB) == ValLE(s, LIMB) + ValLE(t, LIMB)
  {
    hide ValLE, Pow;
    var wide := t + Zeros(|s| - |t|);
    ValLETrailingZeros(t, |s| - |t|, LIMB);
    ValLELinear(sum, s, 1, wide, LIMB);
  }

  /** tmp[i] += blockDigits[i]. */
  method AddBlock(tmp: array<uint64>, n: nat, block: seq<uint32>)
    requires |block| <= n <= tmp.Length
    requires AllBelow(tmp[..n], W64 / 2)
    modifies tmp
    ensures AllBelow(tmp[..n], W64 / 2 + W32)
    ensures ValLE(tmp[..n], LIMB) == old(ValLE(tmp[..n], LIMB)) + ValLE(block, LIMB)
  {
    hide ValLE;
    ghost var was: seq<nat> := tmp[..n];
    var i := 0;
    while i < |block|
      invariant i <= |block|
      invariant forall k :: 0 <= k < i ==> tmp[k] == was[k] + block[k]
      invariant forall k :: i <= k < n ==> tmp[k] == was[k]
    {
      assert tmp[i] == was[i];
      tmp[i] := tmp[i] + block[i];
      i := i + 1;
    }
    AddLow(tmp[..n], was, block);
  }

  lemma BlockPower()
    ensures Pow(256, 64) == W16 < Pow(LIMB, 18)
  {
    Powers256();
    LimbsSuffice();
    hide Pow;
    PowAdd(256, 4, 4);
    PowAdd(256, 8, 8);
    PowAdd(256, 16, 16);
    PowAdd(256, 32, 32);
  }

  /** Appending a block to the bytes is state * 2^512 + block. */
  lemma AppendBlock(done: seq<byte>, block: seq<byte>)
    requires |block| == 64
    ensures Val256(done + block) == Val256(done) * W16 + Val256(block)
    ensures Val256(block) < W16
  {
    hide ValBE, Pow;
    BlockPower();
    ValBEAppend(done, block, 256);
    Val256Prefix(block, 64);
    assert block[..64] == block;
  }

  lemma FoldFits(V: nat, B: nat, count: nat)
    requires V < Pow(LIMB, count) && B < W16
    ensures V * W16 + B < Pow(LIMB, count + 18)
  {
    hide Pow;
    BlockPower();
    BoundStep(V, Pow(LIMB, count), W16, B);
    MulMonotone(W16, Pow(LIMB, 18), Pow(LIMB, count));
    PowAdd(LIMB, 18, count);
  }

  /** With m bytes consumed and j blocks to come, need limbs are enough for the
      eighteen transient limbs of every fold. */
  predicate RoomFor(need: nat, m: nat, j: nat) {
    18 * j + 1 <= need && 11 * m <= 40 * (need - 18 * j)
  }

  lemma RoomAfterBlock(need: nat, m: nat, j: nat)
    requires RoomFor(need, m, j) && j > 0
    ensures RoomFor(need, m + 64, j - 1)
  {
  }

  lemma StateHasRoom(ds: seq<nat>, done: seq<byte>, need: nat, j: nat)
    requires IsState(ds, Val256(done)) && RoomFor(need, |done|, j)
    ensures |ds| + 18 * j <= need
    ensures Val256(done) < Pow(LIMB, |ds|)
  {
    hide ValLE, Pow, Val256;
    Val256Prefix(done, |done|);
    assert done[..|done|] == done;
    StateLength(ds, Val256(done), |done|);
  }

  /** One fold: convolve, add the block, reduce, trim. */
  method FoldBlock(block: seq<byte>, digits: array<uint32>, tmp: array<uint64>, count: nat,
                   bounds: seq<(nat, nat)>, ghost done: seq<byte>)
    returns (newCount: nat)
    requires |block| == 64 && TableBounds(ENC64, bounds)
    requires 1 <= count && count + 18 <= digits.Length == tmp.Length
    requires IsState(digits[..count], Val256(done)) && Val256(done) < Pow(LIMB, count)
    modifies digits, tmp
    ensures 1 <= newCount <= digits.Length
    ensures IsState(digits[..newCount], Val256(done + block))
  {
    hide ValLE, Pow, Val256, ConvRow, TableBounds;
    var blockDigits := new uint32[18](_ => 0);
    var blockCount := EncodeBlock64(block, blockDigits, bounds);
    var n := count + 18;
    ghost var d: seq<nat> := digits[..count];
    if count < 96 {
      ConvolveRows(digits, count, n, tmp);
    } else {
      ConvolveColumns(digits, count, n, tmp);
    }
    ConvRowValue(d, n);
    RowFits(d, n);
    AddBlock(tmp, n, blockDigits[..blockCount]);
    AppendBlock(done, block);
    FoldFits(Val256(done), Val256(block), count);
    var dropped := ReduceColumns(tmp, digits, n, Val256(done + block));
    newCount := Trim(digits, n, Val256(done + block));
  }

  /** encodeAbsorbBlocks. */
  method AbsorbBlocks(blocks: seq<byte>, digits: array<uint32>, tmp: array<uint64>, count: nat,
                      bounds: seq<(nat, nat)>, ghost done: seq<byte>)
    returns (newCount: nat)
    requires TableBounds(ENC64, bounds) && digits.Length == tmp.Length
    requires 1 <= count <= digits.Length && IsState(digits[..count], Val256(done))
    requires |blocks| % 64 == 0 && RoomFor(digits.Length, |done|, |blocks| / 64)
    modifies digits, tmp
    ensures 1 <= newCount <= digits.Length
    ensures IsState(digits[..newCount], Val256(done + blocks))
  {
    hide IsState, Pow, Val256, TableBounds, RoomFor;
    newCount := count;
    var rest := blocks;
    ghost var taken, j := done, |blocks| / 64;
    while |rest| >= 64
      invariant taken + rest == done + blocks && |rest| == 64 * j
      invariant 1 <= newCount <= digits.Length
      invariant IsState(digits[..newCount], Val256(taken))
      invariant RoomFor(digits.Length, |taken|, j)
    {
      StateHasRoom(digits[..newCount], taken, digits.Length, j);
      newCount := FoldBlock(rest[..64], digits, tmp, newCount, bounds, taken);
      assert (taken + rest[..64]) + rest[64..] == taken + rest;
      RoomAfterBlock(digits.Length, |taken|, j);
      taken, j := taken + rest[..64], j - 1;
      rest := rest[64..];
    }
    assert taken == done + blocks;
  }

  // ---- encodeBlockTail ----

  /** The limb bound encodeBlockTail computes up front. */
  function Need(n: nat): nat {
    (n / 64) * 18 + ((n % 64) * 138 / 100 + 5) / 5
  }

  lemma NeedIsEnough(n: nat)
    requires n >= 1
    ensures 11 * n <= 40 * Need(n)
    ensures RoomFor(Need(n), n % 64, n / 64)
    ensures n >= 64 ==> Need(n) >= 19
    ensures n >= 32 ==> Need(n) >= 9
  {
    var b, h := n / 64, n % 64;
    var d := h * 138 / 100;
    var t := (d + 5) / 5;
    Rounded(h, d, t);
    NeedBounds(n, b, h, t);
  }

  lemma Rounded(h: nat, d: nat, t: nat)
    requires d == h * 138 / 100 && t == (d + 5) / 5
    ensures 11 * h <= 40 * t && t >= 1
    ensures h >= 32 ==> t >= 9
  {
    assert 100 * d >= 138 * h - 99;
    assert 5 * t >= d + 1;
  }

  lemma NeedBounds(n: nat, b: nat, h: nat, t: nat)
    requires n == 64 * b + h && h < 64 && 11 * h <= 40 * t && t >= 1
    requires h >= 32 ==> t >= 9
    ensures 11 * n <= 40 * (b * 18 + t)
    ensures 18 * b + 1 <= b * 18 + t && 11 * h <= 40 * ((b * 18 + t) - 18 * b)
    ensures n >= 64 ==> b * 18 + t >= 19
    ensures n >= 32 ==> b * 18 + t >= 9
  {
  }

  lemma ValueFits(v: nat, m: nat, need: nat)
    requires v < Pow(256, m) && 11 * m <= 40 * need
    ensures v < Pow(LIMB, need)
  {
    hide Pow;
    LimbPower(need);
    if v >= Pow(58, 5 * need) {
      EncodedDigits(v, 5 * need, m);
    }
  }

  lemma BytesFit(s: seq<byte>, n: nat, need: nat)
    requires |s| <= n && 11 * n <= 40 * need
    ensures Val256(s) < Pow(LIMB, need)
  {
    hide Pow, ValBE;
    Val256Prefix(s, |s|);
    assert s[..|s|] == s;
    ValueFits(Val256(s), |s|, need);
  }

  lemma AppendChunk(done: seq<byte>, chunk: seq<byte>)
    ensures Val256(done + chunk) == Scaled(Val256(done), Pow(256, |chunk|), Val256(chunk))
    ensures Val256(chunk) < Pow(256, |chunk|)
  {
    hide Pow, ValBE;
    ValBEAppend(done, chunk, 256);
    Val256Prefix(chunk, |chunk|);
    assert chunk[..|chunk|] == chunk;
  }

  lemma WordChunk(s: seq<byte>, i: nat)
    requires i + 4 <= |s|
    ensures Val256(s[i..i + 4]) == Uint32BE(s[i], s[i + 1], s[i + 2], s[i + 3])
  {
    hide ValBE;
    Val256Step4(s[i..i + 4], 0);
    ValBEEmpty(256);
    assert s[i..i + 4][..4] == s[i..i + 4] && s[i..i + 4][..0] == [];
  }

  /** The Horner path: four-byte chunks, then the last one to three bytes. */
  method AppendBytes(rest: seq<byte>, digits: array<uint32>, count: nat, ghost done: seq<byte>, ghost n: nat)
    returns (newCount: nat)
    requires 1 <= count <= digits.Length && IsState(digits[..count], Val256(done))
    requires |done| + |rest| <= n && 11 * n <= 40 * digits.Length
    modifies digits
    ensures 1 <= newCount <= digits.Length
    ensures IsState(digits[..newCount], Val256(done + rest))
  {
    hide IsState, Pow, Val256, Scaled;
    newCount := count;
    var i := 0;
    assert done + rest[..0] == done;
    Powers256();
    while |rest| - i >= 4
      invariant i <= |rest|
      invariant 1 <= newCount <= digits.Length
      invariant IsState(digits[..newCount], Val256(done + rest[..i]))
    {
      ghost var all := done + rest[..i];
      var chunk: nat := Uint32BE(rest[i], rest[i + 1], rest[i + 2], rest[i + 3]);
      WordChunk(rest, i);
      AppendChunk(all, rest[i..i + 4]);
      assert all + rest[i..i + 4] == done + rest[..i + 4];
      BytesFit(done + rest[..i + 4], n, digits.Length);
      newCount := HornerStep(digits, newCount, W32, chunk, Val256(all));
      i := i + 4;
    }
    if i < |rest| {
      ghost var all := done + rest[..i];
      var chunk := PackHead(rest[i..], |rest| - i);
      assert rest[i..][..|rest| - i] == rest[i..];
      AppendChunk(all, rest[i..]);
      assert all + rest[i..] == done + rest;
      BytesFit(done + rest, n, digits.Length);
      newCount := HornerStep(digits, newCount, ShiftedOne(|rest| - i), chunk, Val256(all));
    } else {
      assert rest[..i] == rest;
    }
  }

  /** uint64(1) << (8 * k). */
  function ShiftedOne(k: nat): (m: nat)
    requires 1 <= k < 4
    ensures m == Pow(256, k) < W32
  {
    Powers256();
    if k == 1 then 0x100 else if k == 2 then 0x1_0000 else 0x100_0000
  }

  /** What the setup of encodeBlockTailScratch decides: the bytes already in the
      state, those that go through Horner, and the blocks to absorb. */
  method Seed(src: seq<byte>, digits: array<uint32>, bounds: seq<(nat, nat)>)
    returns (count: nat, rest: seq<byte>, blocks: seq<byte>, ghost done: seq<byte>)
    requires src != [] && digits.Length == Need(|src|) && TableBounds(ENC64, bounds)
    requires forall i :: 0 <= i < digits.Length ==> digits[i] == 0
    modifies digits
    ensures 1 <= count <= digits.Length && IsState(digits[..count], Val256(done))
    ensures done + rest + blocks == src && |blocks| % 64 == 0
    ensures RoomFor(digits.Length, |done| + |rest|, |blocks| / 64)
    ensures |rest| >= 32 ==> done == [] && digits.Length >= 9
  {
    hide ValLE, Val256, Pow, TableBounds, IsState, Need, RoomFor;
    NeedIsEnough(|src|);
    EmptyState();
    count, rest, blocks, done := 1, src, [], [];
    assert digits[..1] == [0];
    if |src| >= 64 {
      var blockCount, head := |src| / 64, |src| % 64;
      if blockCount >= 2 || head >= 16 {
        rest, blocks := src[..head], src[head..];
        if head == 0 {
          count := EncodeBlock64(blocks[..64], digits, bounds);
          RoomAfterBlock(digits.Length, 0, blockCount);
          done, blocks := blocks[..64], blocks[64..];
        }
      } else {
        count := EncodeBlock64(src[..64], digits, bounds);
        RoomAfterBlock(digits.Length, head, 1);
        done, rest := src[..64], src[64..];
      }
    }
  }

  lemma EmptyState()
    ensures IsState([0], Val256([]))
  {
    ValLEEmpty(LIMB);
    ValLECons(0, [], LIMB);
    assert [0] + [] == [0 as nat];
  }

  /** encodeBlockTail: the canonical digits of any zero-stripped byte string, with
      every limb index below Need(|src|). */
  method EncodeBlockTail(src: seq<byte>, out: array<byte>, lo: nat, hi: nat, bounds: seq<(nat, nat)>) returns (p: nat)
    requires src != [] && src[0] != 0 && TableBounds(ENC64, bounds)
    requires lo + EncodeVariableSize(|src|) <= hi <= out.Length
    modifies out
    ensures lo <= p <= hi && out[..lo] == old(out[..lo]) && out[hi..] == old(out[hi..])
    ensures out[p..hi] == Text(ToBE(Val256(src), 58))
  {
    hide IsState, Val256, Pow, TableBounds, EncodeVariableSize, Text, ToBE;
    var digits, count := BlockState(src, bounds);
    NonzeroStart(src);
    StateFitsOutput(digits[..count], Val256(src), |src|);
    p := EncodeDigits5Tail(digits[..count], out, lo, hi, Val256(src));
  }

  /** encodeBlockTailScratch up to the rendering: seed, head bytes, blocks. */
  method BlockState(src: seq<byte>, bounds: seq<(nat, nat)>) returns (digits: array<uint32>, count: nat)
    requires src != [] && TableBounds(ENC64, bounds)
    ensures fresh(digits) && 1 <= count <= digits.Length && IsState(digits[..count], Val256(src))
  {
    hide IsState, Val256, Pow, TableBounds, RoomFor, Need;
    var need := NeedLimbs(|src|);
    digits := new uint32[need](_ => 0);
    var tmp := new uint64[need](_ => 0);
    ghost var done: seq<byte>;
    var rest, blocks;
    count, rest, blocks, done := Seed(src, digits, bounds);
    NeedIsEnough(|src|);
    count := AppendHead(rest, digits, count, done, |src|);
    if blocks != [] {
      count := AbsorbBlocks(blocks, digits, tmp, count, bounds, done + rest);
    } else {
      assert done + rest == done + rest + blocks;
    }
  }

  /** The bytes before the blocks: 32 through the matrix if there are that many, the
      others word by word. */
  method AppendHead(rest: seq<byte>, digits: array<uint32>, count: nat, ghost done: seq<byte>, ghost n: nat)
    returns (newCount: nat)
    requires 1 <= count <= digits.Length && IsState(digits[..count], Val256(done))
    requires |rest| >= 32 ==> done == [] && digits.Length >= 9
    requires |done| + |rest| <= n && 11 * n <= 40 * digits.Length
    modifies digits
    ensures 1 <= newCount <= digits.Length
    ensures IsState(digits[..newCount], Val256(done + rest))
  {
    hide IsState, Val256, Pow;
    if |rest| >= 32 {
      newCount := EncodeBlock32(rest[..32], digits);
      newCount := AppendBytes(rest[32..], digits, newCount, rest[..32], n);
      assert rest[..32] + rest[32..] == done + rest;
    } else {
      newCount := AppendBytes(rest, digits, count, done, n);
    }
  }

  method NeedLimbs(n: nat) returns (need: nat)
    requires n >= 1
    ensures need == Need(n)
  {
    need := (n / 64) * 18 + ((n % 64) * 138 / 100 + 5) / 5;
  }

  /** Five characters for every limb of a trimmed state fit the output buffer. */
  lemma StateFitsOutput(ds: seq<nat>, V: nat, nz: nat)
    requires IsState(ds, V) && 0 < V < Pow(256, nz)
    ensures 5 * |ds| <= EncodeVariableSize(nz)
  {
    hide ValLE, Pow;
    if |ds| == 1 {
      PowersTo5();
      RoomForBlock(V, nz, 0, 5);
    } else {
      ValLELower(ds, LIMB);
      LimbPower(|ds| - 1);
      RoomForBlock(V, nz, 5 * (|ds| - 1), 5);
    }
  }
}
