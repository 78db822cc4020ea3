/** Characters to numbers, a group at a time: what the decoders compute before
    they know whether every character is in the alphabet. The sentinel 255 of an
    invalid character never makes a word wrap, and the or-accumulator remembers it. */
module DigitGroups {
  import opened Radix
  import opened Sequences
  import opened Words
  import opened Alphabet
  import opened Chars

  /** ds[0] | ds[1] | ... */
  function OrAll(ds: seq<nat>): nat {
    if ds == [] then 0 else Or(OrAll(ds[..|ds| - 1]), ds[|ds| - 1])
  }

  lemma {:induction false} OrAllSmall(s: seq<byte>)
    ensures OrAll(Digits(s)) < 64 <==> Valid(s)
    ensures OrAll(Digits(s)) < 256
  {
    hide Or, Inverse;
    if s != [] {
      var n := |s| - 1;
      OrAllSmall(s[..n]);
      assert Digits(s)[..n] == Digits(s[..n]);
      OrStaysSmall(OrAll(Digits(s[..n])), Inverse(s[n]));
      assert Valid(s) <==> Valid(s[..n]) && Inverse(s[n]) < 58 by {
        assert s == s[..n] + [s[n]];
      }
    }
  }

  lemma ValidAppend(s: seq<byte>, t: seq<byte>)
    ensures Valid(s + t) <==> Valid(s) && Valid(t)
  {
    hide Inverse;
    var u := s + t;
    assert forall i :: 0 <= i < |s| ==> s[i] == u[i];
    assert forall i :: 0 <= i < |t| ==> t[i] == u[|s| + i];
  }

  lemma ValidPart(s: seq<byte>, i: nat, j: nat)
    requires i <= j <= |s|
    ensures Valid(s[..j]) <==> Valid(s[..i]) && Valid(s[i..j])
  {
    hide Valid;
    WholePrefix(s, i, j);
    ValidAppend(s[..i], s[i..j]);
  }

  lemma ValidPrefix(s: seq<byte>, j: nat)
    requires j <= |s| && !Valid(s[..j])
    ensures !Valid(s)
  {
    hide Valid;
    ValidPart(s, j, |s|);
    assert s[..|s|] == s;
  }

  /** Sentinel digits included, n characters spell less than 5 * 58^n. */
  lemma {:induction false} SentinelBound(s: seq<byte>)
    ensures 57 * Val58(s) + 255 <= 255 * Pow(58, |s|)
  {
    hide Inverse, ValBE;
    if s == [] {
      Val58Empty();
    } else {
      var n := |s| - 1;
      SentinelBound(s[..n]);
      Val58Step(s, n);
      assert s[..n + 1] == s;
    }
  }

  lemma TenDigits(s: seq<byte>)
    requires |s| <= 10
    ensures Val58(s) < 0x1E00_0000_0000_0000
    ensures |s| <= 5 ==> Val58(s) < W32
  {
    hide ValBE, Val58;
    PowersTo5();
    PowAdd(58, 5, 5);
    hide Pow;
    SentinelBound(s);
    PowMonotone(58, |s|, 10);
    if |s| <= 5 {
      PowMonotone(58, |s|, 5);
    }
  }

  /** Five digits in one expression. */
  function Group5(d0: nat, d1: nat, d2: nat, d3: nat, d4: nat): nat {
    d0 * 11316496 + d1 * 195112 + d2 * 3364 + d3 * 58 + d4
  }

  lemma Group5Value(c: seq<byte>)
    requires |c| == 5
    ensures Val58(c) == Group5(Inverse(c[0]), Inverse(c[1]), Inverse(c[2]), Inverse(c[3]), Inverse(c[4]))
  {
    hide ValBE, Inverse, Val58;
    Val58Empty();
    assert c[..0] == [];
    Val58Step(c, 0);
    Val58Step(c, 1);
    Val58Step(c, 2);
    Val58Step(c, 3);
    Val58Step(c, 4);
    assert c[..5] == c;
  }

  /** for each character: bad |= d; g = g*58 + d. */
  method HornerGroup(s: seq<byte>, bad0: byte) returns (g: uint64, bad: byte)
    requires |s| <= 10
    ensures g == Val58(s) && (|s| <= 5 ==> g < W32)
    ensures bad < 64 <==> bad0 < 64 && Valid(s)
  {
    hide Or, Inverse, Val58;
    g, bad := 0, bad0;
    Val58Empty();
    assert s[..0] == [];
    for i := 0 to |s|
      invariant g == Val58(s[..i])
      invariant bad < 64 <==> bad0 < 64 && Valid(s[..i])
    {
      var d := Inverse(s[i]);
      OrStaysSmall(bad, d);
      bad := Or(bad, d);
      Val58Step(s, i);
      TenDigits(s[..i + 1]);
      assert s[..i + 1] == s[..i] + [s[i]];
      ValidAppend(s[..i], [s[i]]);
      g := g * 58 + d;
    }
    assert s[..|s|] == s;
    TenDigits(s);
  }

  /** Ten characters at once: two groups of five, each in 32 bits. */
  method TenGroup(c: seq<byte>, bad0: byte) returns (half: uint64, bad: byte)
    requires |c| == 10
    ensures half == Val58(c) < 0x1E00_0000_0000_0000
    ensures bad < 64 <==> bad0 < 64 && Valid(c)
  {
    hide Or, Inverse, Val58, OrAll, Pow;
    var d := Digits(c);
    OrAllSmall(c);
    OrStaysSmall(bad0, OrAll(d));
    bad := Or(bad0, OrAll(d));
    var hi: uint32 := FiveAt(c, 0);
    var lo: uint32 := FiveAt(c, 5);
    PowersTo5();
    Val58Append(c[0..5], c[5..10]);
    assert c == c[0..5] + c[5..10];
    TenDigits(c);
    half := hi * 656356768 + lo;
  }

  /** uint32(d0)*58^4 + ... + uint32(d4) of five characters. */
  function FiveAt(c: seq<byte>, i: nat): (g: uint32)
    requires i + 5 <= |c|
    ensures g == Val58(c[i..i + 5])
  {
    Group5Value(c[i..i + 5]);
    TenDigits(c[i..i + 5]);
    Group5(Inverse(c[i]), Inverse(c[i + 1]), Inverse(c[i + 2]), Inverse(c[i + 3]), Inverse(c[i + 4]))
  }
}
