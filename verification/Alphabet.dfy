/** The Bitcoin alphabet and its lookup tables (tables.go). */
module Alphabet {
  import opened Radix
  import opened Words

  const ONE: byte := 49

  /** base58Chars: 1-9, A-H, J-N, P-Z, a-k, m-z. */
  const RUN0: seq<byte> := [49, 50, 51, 52, 53, 54, 55, 56, 57]
  const RUN1: seq<byte> := [65, 66, 67, 68, 69, 70, 71, 72]
  const RUN2: seq<byte> := [74, 75, 76, 77, 78]
  const RUN3: seq<byte> := [80, 81, 82, 83, 84, 85, 86, 87, 88, 89, 90]
  const RUN4: seq<byte> := [97, 98, 99, 100, 101, 102, 103, 104, 105, 106, 107]
  const RUN5: seq<byte> := [109, 110, 111, 112, 113, 114, 115, 116, 117, 118, 119, 120, 121, 122]
  const CHARS: seq<byte> := RUN0 + RUN1 + RUN2 + RUN3 + RUN4 + RUN5

  const INVALID: byte := 255

  /** The character of a digit: the alphabet is six runs of ASCII codes. */
  function Char(d: nat): (c: byte)
    requires d < 58
  {
    d + (if d < 9 then 49 else if d < 17 then 56 else if d < 22 then 57
         else if d < 33 then 58 else if d < 44 then 64 else 65)
  }

  lemma Runs()
    ensures |RUN0| == 9 && forall i :: 0 <= i < 9 ==> RUN0[i] == 49 + i
    ensures |RUN1| == 8 && forall i :: 0 <= i < 8 ==> RUN1[i] == 65 + i
    ensures |RUN2| == 5 && forall i :: 0 <= i < 5 ==> RUN2[i] == 74 + i
    ensures |RUN3| == 11 && forall i :: 0 <= i < 11 ==> RUN3[i] == 80 + i
    ensures |RUN4| == 11 && forall i :: 0 <= i < 11 ==> RUN4[i] == 97 + i
    ensures |RUN5| == 14 && forall i :: 0 <= i < 14 ==> RUN5[i] == 109 + i
  {
  }

  /** Char is the table base58Chars. */
  lemma CharIsTable(d: nat)
    requires d < 58
    ensures |CHARS| == 58 && CHARS[d] == Char(d)
  {
    hide RUN0, RUN1, RUN2, RUN3, RUN4, RUN5;
    Runs();
  }

  /** The digit of a character, or 255 outside the alphabet: the meaning of
      base58InverseFull. */
  function Inverse(c: byte): (d: byte)
    ensures d < 58 || d == 255
    ensures d < 58 ==> Char(d) == c
  {
    if 49 <= c <= 57 then c - 49
    else if 65 <= c <= 72 then c - 56
    else if 74 <= c <= 78 then c - 57
    else if 80 <= c <= 90 then c - 58
    else if 97 <= c <= 107 then c - 64
    else if 109 <= c <= 122 then c - 65
    else INVALID
  }

  lemma InverseOfChar(d: nat)
    requires d < 58
    ensures Inverse(Char(d)) == d
  {
  }

  lemma InverseRejects(c: byte, e: nat)
    requires Inverse(c) == INVALID && e < 58
    ensures Char(e) != c
  {
  }

  /** The string of a digit sequence. */
  function Text(ds: seq<nat>): (s: seq<byte>)
    requires AllBelow(ds, 58)
    ensures |s| == |ds|
    ensures forall i :: 0 <= i < |s| ==> s[i] == Char(ds[i])
  {
    seq(|ds|, i requires 0 <= i < |ds| => Char(ds[i]))
  }

  /** The digits of a string; a character outside the alphabet counts as 255. */
  function Digits(s: seq<byte>): (ds: seq<nat>)
    ensures |ds| == |s|
    ensures forall i :: 0 <= i < |s| ==> ds[i] == Inverse(s[i])
  {
    seq(|s|, i requires 0 <= i < |s| => Inverse(s[i]))
  }

  predicate Valid(s: seq<byte>) {
    forall i :: 0 <= i < |s| ==> Inverse(s[i]) < 58
  }

  /** The number a string spells in base 58. */
  function Val58(s: seq<byte>): nat {
    ValBE(Digits(s), 58)
  }

  lemma TextDigits(s: seq<byte>)
    requires Valid(s)
    ensures AllBelow(Digits(s), 58) && Text(Digits(s)) == s
  {
  }

  lemma DigitsText(ds: seq<nat>)
    requires AllBelow(ds, 58)
    ensures Valid(Text(ds)) && Digits(Text(ds)) == ds
  {
    forall i | 0 <= i < |ds|
      ensures Inverse(Text(ds)[i]) == ds[i]
    {
      InverseOfChar(ds[i]);
    }
  }

  lemma Val58Append(s: seq<byte>, t: seq<byte>)
    ensures Val58(s + t) == Val58(s) * Pow(58, |t|) + Val58(t)
  {
    hide ValBE, Pow;
    assert Digits(s + t) == Digits(s) + Digits(t);
    ValBEAppend(Digits(s), Digits(t), 58);
  }

  lemma Val58Step(s: seq<byte>, i: nat)
    requires i < |s|
    ensures Val58(s[..i + 1]) == Val58(s[..i]) * 58 + Inverse(s[i])
  {
    hide ValBE;
    assert Digits(s[..i + 1]) == Digits(s[..i]) + [Inverse(s[i]) as nat];
    ValBESnoc(Digits(s[..i]), Inverse(s[i]), 58);
  }

  lemma Val58Empty()
    ensures Val58([]) == 0
  {
  }

  lemma Val58Bound(s: seq<byte>)
    requires Valid(s)
    ensures Val58(s) < Pow(58, |s|)
  {
    hide ValBE, Pow;
    ValBEBound(Digits(s), 58);
  }

  /** The text that canonical digits give: any valid string of the value that
      does not start with '1'. */
  lemma CanonicalText(s: seq<byte>)
    requires Valid(s)
    requires s != [] ==> s[0] != ONE
    ensures s == Text(ToBE(Val58(s), 58))
  {
    hide ValBE, ToBE;
    ToBEUnique(Digits(s), 58);
    TextDigits(s);
  }

  // ---- which characters, and in which order ----

  /** The alphabet is the ASCII digits and letters without 0, O, I and l. */
  lemma AlphabetIs(c: byte)
    ensures Valid([c]) <==>
      ('0' <= c as char <= '9' || 'A' <= c as char <= 'Z' || 'a' <= c as char <= 'z')
      && c as char !in {'0', 'O', 'I', 'l'}
  {
    assert [c][0] == c;
  }

  /** Digits follow ASCII order. */
  lemma DigitOrder(c: byte, d: byte)
    requires Valid([c]) && Valid([d])
    ensures c < d <==> Val58([c]) < Val58([d])
  {
    OneDigit(c);
    OneDigit(d);
  }

  lemma OneDigit(c: byte)
    ensures Val58([c]) == Inverse(c)
    ensures Valid([c]) <==> Inverse(c) < 58
  {
    Val58Empty();
    Val58Step([c], 0);
    assert [c][..1] == [c] && [c][..0] == [] && [c][0] == c;
  }

  /** s comes before t in dictionary order, for strings of one length. */
  ghost predicate LexLess(s: seq<byte>, t: seq<byte>)
    requires |s| == |t|
  {
    exists i :: 0 <= i < |s| && s[..i] == t[..i] && s[i] < t[i]
  }

  lemma LexFirst(s: seq<byte>, t: seq<byte>, i: nat)
    requires |s| == |t| && i < |s| && s[..i] == t[..i] && s[i] < t[i]
    requires Valid(s) && Valid(t)
    ensures Val58(s) < Val58(t)
  {
    hide Val58, Inverse, Pow;
    var n := |s| - i - 1;
    Val58Split(s, i);
    Val58Split(t, i);
    DigitOrder(s[i], t[i]);
    MulMonotone(Val58([s[i]]) + 1, Val58([t[i]]), Pow(58, n));
  }

  /** Value of the characters before, at and after position i. */
  lemma Val58Split(s: seq<byte>, i: nat)
    requires i < |s| && Valid(s)
    ensures var w := Pow(58, |s| - i - 1);
            var low := Val58(s[i + 1..]);
            Val58(s) == Val58(s[..i]) * Pow(58, |s| - i) + Val58([s[i]]) * w + low && low < w
    ensures Valid([s[i]])
  {
    hide Val58, Inverse, Pow;
    assert s == s[..i] + s[i..] && s[i..] == [s[i]] + s[i + 1..];
    Val58Append(s[..i], s[i..]);
    Val58Append([s[i]], s[i + 1..]);
    Val58Bound(s[i + 1..]);
  }

  /** The value of a string orders strings of one length as a dictionary does. */
  lemma ValueIsDictionaryOrder(s: seq<byte>, t: seq<byte>)
    requires |s| == |t| && Valid(s) && Valid(t)
    ensures Val58(s) < Val58(t) <==> LexLess(s, t)
  {
    hide Val58, Inverse, Valid;
    var i := FirstDifference(s, t);
    if i == |s| {
      assert s == s[..i] && t == t[..i];
    } else if s[i] < t[i] {
      LexFirst(s, t, i);
    } else {
      LexFirst(t, s, i);
    }
    if LexLess(s, t) {
      var k :| 0 <= k < |s| && s[..k] == t[..k] && s[k] < t[k];
      LexFirst(s, t, k);
    }
  }

  ghost function FirstDifference(s: seq<byte>, t: seq<byte>): (i: nat)
    requires |s| == |t|
    ensures i <= |s| && s[..i] == t[..i]
    ensures i < |s| ==> s[i] != t[i]
  {
    if s == [] || s[0] != t[0] then 0 else
      var i := FirstDifference(s[1..], t[1..]);
      assert s[..i + 1] == [s[0]] + s[1..][..i] && t[..i + 1] == [t[0]] + t[1..][..i];
      i + 1
  }
}
