/** The lookup tables that init fills (tables.go): each loop leaves exactly the
    function the codec's proofs use in its place. */
module Lookup {
  import opened Words
  import opened Alphabet
  import opened DecodeFixed

  /** base58InverseFull while the characters before d have been entered. */
  function Partial(c: byte, d: nat): (x: byte)
    ensures d == 58 ==> x == Inverse(c)
  {
    if Inverse(c) < d then Inverse(c) else INVALID
  }

  method InitInverse() returns (table: array<byte>)
    ensures fresh(table) && table.Length == 256
    ensures forall c: byte :: table[c] == Inverse(c)
  {
    hide Inverse, Char, CHARS;
    table := new byte[256](_ => INVALID);
    for d := 0 to 58
      invariant forall c: byte :: table[c] == Partial(c, d)
    {
      InverseOfChar(d);
      CharIsTable(d);
      table[CHARS[d]] := d;
      forall c: byte
        ensures table[c] == Partial(c, d + 1)
      {
        assert Inverse(c) == d ==> Char(d) == c;
      }
    }
  }

  /** uint16(c0)<<8 | uint16(c1). */
  function Index(c0: byte, c1: byte): (i: uint16)
    ensures i / 256 == c0 && i % 256 == c1
  {
    c0 * 256 + c1
  }

  /** base58InversePairs when rows before d0 and, in row d0, columns before d1 are in. */
  function PartialPair(c0: byte, c1: byte, d0: nat, d1: nat): (x: uint16)
    requires d1 <= 58
  {
    if Inverse(c1) < 58 && (Inverse(c0) < d0 < 59 || (Inverse(c0) == d0 < 58 && Inverse(c1) < d1))
    then Inverse(c0) * 58 + Inverse(c1) else 0xffff
  }

  method InitInversePairs() returns (table: array<uint16>)
    ensures fresh(table) && table.Length == 0x1_0000
    ensures forall c0: byte, c1: byte :: table[Index(c0, c1)] == InversePair(c0, c1)
  {
    hide Inverse, Char, CHARS, Index, InversePair, PartialPair;
    table := new uint16[0x1_0000](_ => 0xffff);
    NoPairs();
    for d0 := 0 to 58
      invariant forall c0: byte, c1: byte :: table[Index(c0, c1)] == PartialPair(c0, c1, d0, 0)
    {
      for d1 := 0 to 58
        invariant forall c0: byte, c1: byte :: table[Index(c0, c1)] == PartialPair(c0, c1, d0, d1)
      {
        ghost var was := table[..];
        CharIsTable(d0);
        CharIsTable(d1);
        table[Index(CHARS[d0], CHARS[d1])] := d0 * 58 + d1;
        forall c0: byte, c1: byte
          ensures table[Index(c0, c1)] == PartialPair(c0, c1, d0, d1 + 1)
        {
          assert was[Index(c0, c1)] == PartialPair(c0, c1, d0, d1);
          NextPair(c0, c1, d0, d1);
        }
      }
      forall c0: byte, c1: byte
        ensures table[Index(c0, c1)] == PartialPair(c0, c1, d0 + 1, 0)
      {
        NextRow(c0, c1, d0);
      }
    }
    forall c0: byte, c1: byte
      ensures table[Index(c0, c1)] == InversePair(c0, c1)
    {
      AllPairs(c0, c1);
    }
  }

  lemma NoPairs()
    ensures forall c0: byte, c1: byte :: PartialPair(c0, c1, 0, 0) == 0xffff
  {
  }

  lemma NextPair(c0: byte, c1: byte, d0: nat, d1: nat)
    requires d0 < 58 && d1 < 58
    ensures PartialPair(c0, c1, d0, d1 + 1)
         == if Index(c0, c1) == Index(Char(d0), Char(d1)) then d0 * 58 + d1 else PartialPair(c0, c1, d0, d1)
  {
    hide Inverse, Char, Index;
    InverseOfChar(d0);
    InverseOfChar(d1);
  }

  lemma NextRow(c0: byte, c1: byte, d0: nat)
    requires d0 < 58
    ensures PartialPair(c0, c1, d0, 58) == PartialPair(c0, c1, d0 + 1, 0)
  {
    hide Inverse;
  }

  lemma AllPairs(c0: byte, c1: byte)
    ensures PartialPair(c0, c1, 58, 0) == InversePair(c0, c1)
  {
    hide Inverse;
  }
}
