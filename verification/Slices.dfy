/** Go byte slices that are appended to: a buffer whose first len bytes are in use
    and whose Length is the capacity. */
module Slices {
  import opened Words
  import opened Sequences
  import opened Base58

  datatype Slice = Slice(buf: array<byte>, len: nat) {
    predicate Valid() {
      len <= buf.Length
    }

    ghost function Contents(): seq<byte>
      requires Valid()
      reads buf
    {
      buf[..len]
    }
  }

  /** copy(dst[at:], src) for a source that fits. */
  method CopyInto(src: seq<byte>, dst: array<byte>, at: nat)
    requires at + |src| <= dst.Length
    modifies dst
    ensures dst[at..at + |src|] == src
    ensures dst[..at] == old(dst[..at]) && dst[at + |src|..] == old(dst[at + |src|..])
  {
    for i := 0 to |src|
      invariant dst[..at] == old(dst[..at]) && dst[at + |src|..] == old(dst[at + |src|..])
      invariant forall k :: at <= k < at + i ==> dst[k] == src[k - at]
    {
      dst[at + i] := src[i];
    }
  }

  /** for i := range n { out[at+i] = x }. */
  method Fill(out: array<byte>, at: nat, n: nat, x: byte)
    requires at + n <= out.Length
    modifies out
    ensures out[..at] == old(out[..at]) && out[at + n..] == old(out[at + n..])
    ensures forall k :: at <= k < at + n ==> out[k] == x
  {
    for i := 0 to n
      invariant out[..at] == old(out[..at]) && out[at + n..] == old(out[at + n..])
      invariant forall k :: at <= k < at + i ==> out[k] == x
    {
      out[at + i] := x;
    }
  }

  /** Makes room for extra more bytes: in place when the capacity allows, otherwise
      in a new buffer of exactly the required length. */
  method Extend(dst: Slice, extra: nat) returns (r: Slice)
    requires dst.Valid()
    ensures r.Valid() && r.len == dst.len + extra
    ensures if r.len <= dst.buf.Length then r.buf == dst.buf else fresh(r.buf)
    ensures r.buf[..dst.len] == dst.Contents()
  {
    var total := dst.len + extra;
    if dst.buf.Length < total {
      var grown := new byte[total](_ => 0);
      CopyInto(dst.buf[..dst.len], grown, 0);
      r := Slice(grown, total);
    } else {
      r := Slice(dst.buf, total);
    }
  }

  /** append(dst, x). */
  method AppendByte(dst: Slice, x: byte) returns (r: Slice)
    requires dst.Valid()
    modifies dst.buf
    ensures r.Valid() && r.Contents() == old(dst.Contents()) + [x]
    ensures if r.len <= dst.buf.Length then r.buf == dst.buf else fresh(r.buf)
    ensures SameOutside(old(dst.buf[..]), dst.buf[..], dst.len, dst.len + 1)
  {
    r := Extend(dst, 1);
    r.buf[dst.len] := x;
    assert r.buf[..r.len] == r.buf[..dst.len] + [x];
  }

  /** for range n { dst = append(dst, x) }. */
  method AppendRepeated(dst: Slice, x: byte, n: nat) returns (r: Slice)
    requires dst.Valid()
    modifies dst.buf
    ensures r.Valid() && r.Contents() == old(dst.Contents()) + Repeat(x, n)
    ensures if r.len <= dst.buf.Length then r.buf == dst.buf else fresh(r.buf)
    ensures SameOutside(old(dst.buf[..]), dst.buf[..], dst.len, dst.len + n)
  {
    r := dst;
    ghost var was := dst.Contents();
    assert was == was + Repeat(x, 0);
    for k := 0 to n
      invariant r.Valid() && if r.len <= dst.buf.Length then r.buf == dst.buf else fresh(r.buf)
      invariant r.Contents() == was + Repeat(x, k)
      invariant SameOutside(old(dst.buf[..]), dst.buf[..], dst.len, dst.len + k)
    {
      ghost var before := dst.buf[..];
      assert r.len == dst.len + k by {
        assert |r.Contents()| == |was + Repeat(x, k)|;
      }
      r := AppendByte(r, x);
      assert was + Repeat(x, k) + [x] == was + Repeat(x, k + 1);
      OutsideBoth(old(dst.buf[..]), before, dst.buf[..], dst.len, dst.len + k, dst.len + k + 1);
    }
  }

  /** append(dst, x...). */
  method AppendAll(dst: Slice, x: seq<byte>) returns (r: Slice)
    requires dst.Valid()
    modifies dst.buf
    ensures r.Valid() && r.Contents() == old(dst.Contents()) + x
    ensures if r.len <= dst.buf.Length then r.buf == dst.buf else fresh(r.buf)
    ensures SameOutside(old(dst.buf[..]), dst.buf[..], dst.len, r.len)
  {
    r := Extend(dst, |x|);
    CopyInto(x, r.buf, dst.len);
    WholePrefix(r.buf[..], dst.len, r.len);
    if r.buf == dst.buf {
      OutsideParts(old(dst.buf[..]), dst.buf[..], dst.len, r.len);
    }
  }
}
