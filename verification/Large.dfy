/** Decoding of very long strings (large.go): a divide-and-conquer tree over
    mutable big integers that share memoised powers of 58. */
module Large {
  import opened Radix
  import opened Sequences
  import opened Words
  import opened Alphabet
  import opened Base58
  import opened BigEndian
  import opened DigitGroups
  import opened Slices
  import opened DecodeVariable

  const LEAF_CHARS: nat := 1024

  /** The part of math/big.Int the decoder uses: a mutable natural number. */
  class BigInt {
    var v: nat

    constructor ()
      ensures v == 0
    {
      v := 0;
    }

    method SetUint64(x: uint64)
      modifies this
      ensures v == x
    {
      v := x;
    }

    /** this = x * y; either operand may be this. */
    method Mul(x: BigInt, y: BigInt)
      modifies this
      ensures v == old(x.v) * old(y.v)
    {
      v := x.v * y.v;
    }

    /** this = x + y; either operand may be this. */
    method Add(x: BigInt, y: BigInt)
      modifies this
      ensures v == old(x.v) + old(y.v)
    {
      v := x.v + y.v;
    }
  }

  // ---- shared powers of 58 ----

  /** pow58u64. */
  const POW58: seq<uint64> := [1, 58, 3364, 195112, 11316496, 656356768, 38068692544, 2207984167552,
                               128063081718016, 7427658739644928, POW10]

  lemma Pow58Table(i: nat)
    requires i < 11
    ensures |POW58| == 11 && POW58[i] == Pow(58, i)
  {
    if i > 0 {
      Pow58Table(i - 1);
    }
  }

  /** largePow58: the eleven package-level integers 58^0 .. 58^10. */
  ghost predicate BasePowers(base: seq<BigInt>)
    reads base
  {
    |base| == 11 && forall i :: 0 <= i < 11 ==> base[i].v == Pow(58, i)
  }

  lemma BasePower(base: seq<BigInt>, e: nat)
    requires BasePowers(base) && e <= 10
    ensures |base| == 11 && base[e] in base && base[e].v == Pow(58, e)
  {
  }

  method InitPowers() returns (base: seq<BigInt>)
    ensures BasePowers(base) && fresh(base)
  {
    hide Pow;
    base := [];
    for i := 0 to 11
      invariant |base| == i && fresh(base)
      invariant forall k :: 0 <= k < i ==> base[k].v == Pow(58, k)
    {
      Pow58Table(i);
      var p := new BigInt();
      p.SetUint64(POW58[i]);
      base := base + [p];
    }
  }

  /** new(big.Int).Mul(x, y). */
  method Product(x: BigInt, y: BigInt) returns (p: BigInt)
    ensures fresh(p) && p.v == x.v * y.v
  {
    p := new BigInt();
    p.Mul(x, y);
  }

  /** The powers map of one decoding, over the package-level base powers. */
  class PowerMemo {
    const base: seq<BigInt>
    var powers: map<nat, BigInt>
    /** Every integer that a later call may share. */
    ghost var Repr: set<BigInt>

    constructor (b: seq<BigInt>)
      requires BasePowers(b)
      ensures Valid() && base == b && powers == map[]
    {
      base := b;
      powers := map[];
      Repr := set x | x in b;
    }

    /** Every stored integer is the power its key says. */
    ghost predicate Valid()
      reads this, Repr, base
    {
      && BasePowers(base)
      && (forall x :: x in base ==> x in Repr)
      && forall e :: e in powers ==> powers[e] in Repr && powers[e].v == Pow(58, e)
    }

    /** largePower58: 58^exponent, computed once and shared. */
    method Power(exponent: nat) returns (p: BigInt)
      requires Valid()
      modifies this
      ensures Valid() && p in Repr && p.v == Pow(58, exponent)
      ensures fresh(Repr - old(Repr))
      ensures exponent > 10 ==> exponent in powers && powers[exponent] == p
      ensures forall e :: e in old(powers) ==> e in powers && powers[e] == old(powers)[e]
      ensures forall e :: e in powers ==> e in old(powers) || e <= exponent
      decreases exponent
    {
      hide Pow, BasePowers;
      if exponent <= 10 {
        BasePower(base, exponent);
        return base[exponent];
      }
      if exponent in powers {
        return powers[exponent];
      }
      var left := exponent / 2;
      var x := Power(left);
      var y := Power(exponent - left);
      PowAdd(58, left, exponent - left);
      p := Product(x, y);
      Remember(exponent, p);
    }

    /** powers[exponent] = p. */
    method Remember(exponent: nat, p: BigInt)
      requires Valid() && p.v == Pow(58, exponent)
      modifies this
      ensures Valid() && powers == old(powers)[exponent := p] && Repr == old(Repr) + {p}
    {
      hide Pow, BasePowers;
      Repr := Repr + {p};
      powers := powers[exponent := p];
    }
  }

  // ---- the tree ----

  lemma TreeStep(s: seq<byte>, i: nat, j: nat)
    requires i <= j <= |s|
    ensures Val58(s[..j]) == Val58(s[..i]) * Pow(58, j - i) + Val58(s[i..j])
    ensures Valid(s[..j]) <==> Valid(s[..i]) && Valid(s[i..j])
  {
    hide Val58, Pow, Valid;
    WholePrefix(s, i, j);
    Val58Append(s[..i], s[i..j]);
    ValidPart(s, i, j);
  }

  /** value = value * power + group, through a reused addend. */
  method Fold(value: BigInt, power: BigInt, addend: BigInt, group: uint64)
    requires value != addend && power != addend
    modifies value, addend
    ensures value.v == old(value.v) * old(power.v) + group
  {
    value.Mul(value, power);
    addend.SetUint64(group);
    value.Add(value, addend);
  }

  /** decodeLargeLeaf: Horner over groups of ten. */
  method Leaf(s: seq<byte>, base: seq<BigInt>) returns (value: BigInt, ok: bool)
    requires BasePowers(base)
    ensures ok <==> Valid(s)
    ensures fresh(value) && (ok ==> value.v == Val58(s))
  {
    hide Val58, Pow, Inverse;
    value := new BigInt();
    var addend := new BigInt();
    var i := 0;
    var groupLen := if |s| % 10 == 0 then 10 else |s| % 10;
    Val58Empty();
    assert s[..0] == [];
    while i < |s|
      invariant i <= |s| && (i == |s| || (i + groupLen <= |s| && (|s| - i - groupLen) % 10 == 0))
      invariant 1 <= groupLen <= 10 && (i > 0 ==> groupLen == 10)
      invariant fresh(value) && fresh(addend) && value != addend && BasePowers(base)
      invariant Valid(s[..i]) && value.v == Val58(s[..i])
    {
      var group, bad := HornerGroup(s[i..i + groupLen], 0);
      TreeStep(s, i, i + groupLen);
      if bad >= 64 {
        ValidPrefix(s, i + groupLen);
        return value, false;
      }
      Fold(value, base[groupLen], addend, group);
      i := i + groupLen;
      groupLen := 10;
    }
    assert s[..i] == s;
    ok := true;
  }

  /** decodeLargeTree. The result is always a new integer that no memo entry refers
      to, so multiplying it in place cannot corrupt a shared power. */
  method Tree(s: seq<byte>, memo: PowerMemo) returns (value: BigInt, ok: bool)
    requires memo.Valid()
    modifies memo
    ensures memo.Valid() && fresh(memo.Repr - old(memo.Repr))
    ensures ok <==> Valid(s)
    ensures fresh(value) && value !in memo.Repr && (ok ==> value.v == Val58(s))
    decreases |s|
  {
    hide Val58, Pow, Inverse;
    if |s| <= LEAF_CHARS {
      value, ok := Leaf(s, memo.base);
      return;
    }
    var half := |s| / 2;
    var split := half - half % 10;
    TreeStep(s, split, |s|);
    assert s[..|s|] == s;
    value, ok := Tree(s[..split], memo);
    if !ok {
      return;
    }
    var right;
    right, ok := Tree(s[split..], memo);
    if !ok {
      return;
    }
    var power := memo.Power(|s| - split);
    value.Mul(value, power);
    value.Add(value, right);
  }

  // ---- appendDecodeLarge ----

  /** bad |= digit over the whole string. */
  method CheckAll(s: seq<byte>) returns (bad: byte)
    ensures bad < 64 <==> Valid(s)
  {
    hide Or, Inverse;
    bad := 0;
    for i := 0 to |s|
      invariant bad < 64 <==> Valid(s[..i])
    {
      OrStaysSmall(bad, Inverse(s[i]));
      bad := Or(bad, Inverse(s[i]));
      assert s[..i + 1] == s[..i] + [s[i]];
      ValidAppend(s[..i], [s[i]]);
    }
    assert s[..|s|] == s;
  }

  method AppendDecodeLarge(dst: Slice, s: seq<byte>, zeros: nat, base: seq<BigInt>) returns (r: Result<Slice>)
    requires dst.Valid() && s != [] && s[0] != ONE && BasePowers(base)
    modifies dst.buf
    ensures Appended(r, old(dst.Contents()), zeros, s)
    ensures WroteOnly(r, dst, old(dst.buf[..]), dst.buf[..])
    ensures r.Ok? ==> if r.value.len <= dst.buf.Length then r.value.buf == dst.buf else fresh(r.value.buf)
  {
    hide Val58, Inverse, Bytes, ToBE, Pow, BitLen;
    var bad := CheckAll(s);
    if bad >= 64 {
      return Err(InvalidChar);
    }
    var memo := new PowerMemo(base);
    var value, ok := Tree(s, memo);
    if !ok {
      return Err(InvalidChar);
    }
    PositiveString(s);
    var payload := (BitLen(value.v) + 7) / 8;
    ByteLength(value.v);
    var out := Extend(dst, zeros + payload);
    FillBig(out.buf, dst.len, zeros, payload, value.v);
    if out.buf == dst.buf {
      OutsideParts(old(dst.buf[..]), dst.buf[..], dst.len, out.len);
    }
    r := Ok(out);
  }

  /** clear(dst[start:start+zeros]); value.FillBytes(dst[start+zeros:]). */
  method FillBig(out: array<byte>, start: nat, zeros: nat, payload: nat, v: nat)
    requires start + zeros + payload <= out.Length
    requires payload >= 1 && Pow(256, payload - 1) <= v < Pow(256, payload)
    modifies out
    ensures out[..start + zeros + payload] == old(out[..start]) + Repeat(0, zeros) + Bytes(ToBE(v, 256))
    ensures out[..start] == old(out[..start])
    ensures out[start + zeros + payload..] == old(out[start + zeros + payload..])
  {
    hide Val256, Bytes, ToBE, Pow;
    var from := start + zeros;
    var total := from + payload;
    ghost var before := out[..];
    ClearZeros(out, start, zeros);
    ghost var cleared := out[..];
    WholePrefix(cleared, start, from);
    KeptAfter(before, cleared, from, total, total);
    PutBytes(out, total, payload, v);
    KeptBefore(cleared, out[..], from, start, start);
    FirstByte(out[from..total]);
    CanonicalBytes(out[from..total]);
    WholePrefix(out[..], from, total);
  }
}
