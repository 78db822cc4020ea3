/** Bytes of words and of big numbers: bits.Len64, big.Int.BitLen and the
    big-endian stores the decoders end with. */
module BigEndian {
  import opened Radix
  import opened Sequences
  import opened Words
  import opened Base58
  import opened Sizes

  /** bits.Len64 and big.Int.BitLen. */
  function BitLen(x: nat): nat {
    if x == 0 then 0 else 1 + BitLen(x / 2)
  }

  lemma {:induction false} BitLenBounds(x: nat)
    requires x > 0
    ensures BitLen(x) >= 1 && Pow(2, BitLen(x) - 1) <= x < Pow(2, BitLen(x))
  {
    if x == 1 {
      assert BitLen(1) == 1 && Pow(2, 0) == 1 && Pow(2, 1) == 2;
    } else {
      BitLenBounds(x / 2);
      DoublePower(BitLen(x / 2));
    }
  }

  lemma DoublePower(n: nat)
    requires n >= 1
    ensures Pow(2, n) == 2 * Pow(2, n - 1) && Pow(2, n + 1) == 2 * Pow(2, n)
  {
  }

  /** (BitLen + 7) / 8 is the number of significant bytes. */
  lemma ByteLength(x: nat)
    requires x > 0
    ensures var k := (BitLen(x) + 7) / 8; k >= 1 && Pow(256, k - 1) <= x < Pow(256, k)
  {
    hide Pow, BitLen;
    var k := (BitLen(x) + 7) / 8;
    BitLenBounds(x);
    SmallPowersOfTwo();
    PowOfPow(2, 8, k - 1, 8 * (k - 1));
    PowOfPow(2, 8, k, 8 * k);
    PowMonotone(2, 8 * (k - 1), BitLen(x) - 1);
    PowMonotone(2, BitLen(x), 8 * k);
  }

  /** p--; dst[p] = b. */
  method PutByte(out: array<byte>, at: nat, b: byte, ghost p: nat)
    requires at < p <= out.Length
    modifies out
    ensures out[..at] == old(out[..at]) && out[p..] == old(out[p..])
    ensures out[at..p] == [b] + old(out[at + 1..p])
  {
    ghost var before := out[..];
    out[at] := b;
    assert out[..] == before[at := b];
    SplitSlice(out[..], at, at + 1, p);
  }

  /** The k low bytes of v, the last at p-1: for range k { p--; dst[p] = byte(v); v >>= 8 }. */
  method PutBytes(out: array<byte>, p: nat, k: nat, v: nat)
    requires k <= p <= out.Length && v < Pow(256, k)
    modifies out
    ensures out[..p - k] == old(out[..p - k]) && out[p..] == old(out[p..])
    ensures Val256(out[p - k..p]) == v
  {
    hide ValBE, Val256, Pow, Pending;
    ghost var was := out[..];
    var x := v;
    PendingStart(256, v);
    Val256Empty();
    assert out[p..p] == [];
    for i := 0 to k
      invariant out[..p - k] == was[..p - k] && out[p..] == was[p..]
      invariant Pending(256, Val256(out[p - i..p]), i, x) == v
    {
      ghost var before := out[..];
      PendingStep(256, Val256(before[p - i..p]), i, x, 0, x / 256, x % 256);
      NothingTimes(256, i);
      PutByte(out, p - i - 1, x % 256, p);
      KeptBefore(before, out[..], p - i - 1, p - k, p - k);
      Val256Cons(x % 256, before[p - i..p]);
      x := x / 256;
    }
    if x > 0 {
      PendingLarge(256, Val256(out[p - k..p]), k, x, k);
    }
    PendingDone(256, Val256(out[p - k..p]), k);
  }

  lemma Val256Cons(b: byte, rest: seq<byte>)
    ensures Val256([b] + rest) == b * Pow(256, |rest|) + Val256(rest)
  {
    ValBECons(b, rest, 256);
  }

  lemma FirstByte(t: seq<byte>)
    requires t != [] && Val256(t) >= Pow(256, |t| - 1)
    ensures t[0] != 0
  {
    hide ValBE, Pow;
    if t[0] == 0 {
      assert t == [t[0]] + t[1..];
      ValBECons(0, t[1..], 256);
      ValBEBound(t[1..], 256);
    }
  }

  /** PutBytes in front of bytes already written up to `total`. */
  method PrependBytes(out: array<byte>, p: nat, k: nat, v: nat, total: nat)
    requires k <= p <= total <= out.Length && v < Pow(256, k)
    modifies out
    ensures out[..p - k] == old(out[..p - k]) && out[total..] == old(out[total..])
    ensures Val256(out[p - k..p]) == v
    ensures out[p - k..total] == out[p - k..p] + old(out[p..total])
  {
    hide Val256, Pow;
    ghost var before := out[..];
    PutBytes(out, p, k, v);
    KeptAfter(before, out[..], p, p, total);
    SplitSlice(out[..], p - k, p, total);
  }
}
