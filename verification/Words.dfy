/** Machine words as bounded integers. Storing into a variable of one of these
    types carries the obligation that the value does not wrap. */
module Words {
  import opened Radix

  type byte = x: nat | x < 256
  type uint16 = x: nat | x < 0x1_0000
  type uint32 = x: nat | x < 0x1_0000_0000
  type uint64 = x: nat | x < 0x1_0000_0000_0000_0000

  /** 2^32 and 2^64, the word radixes. */
  const W32: nat := 0x1_0000_0000
  const W64: nat := 0x1_0000_0000_0000_0000

  /** 58^5, the radix of the encoder's limbs (r1div in tables.go). */
  const LIMB: nat := 656356768

  /** binary.BigEndian.Uint32 of four bytes. */
  function Uint32BE(a: byte, b: byte, c: byte, d: byte): (w: uint32)
    ensures w == ((a * 256 + b) * 256 + c) * 256 + d
  {
    a * 0x100_0000 + b * 0x1_0000 + c * 0x100 + d
  }

  /** bits.Mul64: the two-word product. */
  function Mul64(x: nat, y: nat): (r: (uint64, uint64))
    requires x < W64 && y < W64
    ensures r.0 * W64 + r.1 == x * y
  {
    ProductBelow(x, y, W64);
    SplitWords(x * y)
  }

  function SplitWords(v: nat): (r: (uint64, uint64))
    requires v < W64 * W64
    ensures r.0 * W64 + r.1 == v
  {
    (v / W64, v % W64)
  }

  lemma ProductBelow(x: nat, y: nat, b: nat)
    requires x < b && y < b
    ensures x * y < b * b
  {
    MulMonotone(x, b, y);
    MulMonotone(y + 1, b, b);
    assert (y + 1) * b == b * y + b;
  }

  /** bits.Add64: the sum with a carry in and the carry out. */
  function Add64(x: uint64, y: uint64, c: uint64): (r: (uint64, uint64))
    requires c <= 1
    ensures r.0 + r.1 * W64 == x + y + c && r.1 <= 1
  {
    if x + y + c < W64 then (x + y + c, 0) else (x + y + c - W64, 1)
  }

  /** Bitwise or of two words, bit by bit. */
  function Or(a: nat, b: nat): nat {
    if a == 0 && b == 0 then 0
    else 2 * Or(a / 2, b / 2) + (if a % 2 == 1 || b % 2 == 1 then 1 else 0)
  }

  lemma {:induction false} OrBounds(a: nat, b: nat, k: nat)
    ensures Or(a, b) >= a && Or(a, b) >= b
    ensures Or(a, b) == Or(b, a)
    ensures a < Pow(2, k) && b < Pow(2, k) ==> Or(a, b) < Pow(2, k)
    decreases a + b, k
  {
    if a != 0 || b != 0 {
      OrBounds(a / 2, b / 2, if k == 0 then 0 else k - 1);
    }
  }

  lemma SmallPowersOfTwo()
    ensures Pow(2, 6) == 64 && Pow(2, 8) == 256
    ensures Pow(2, 15) == 0x8000 && Pow(2, 16) == 0x1_0000
  {
    PowAdd(2, 8, 7);
    PowAdd(2, 8, 8);
  }

  /** An or-accumulator over digits stays below 2^6 exactly while every digit does. */
  lemma OrStaysSmall(a: nat, b: nat)
    ensures Or(a, b) < 64 <==> a < 64 && b < 64
    ensures a < 256 && b < 256 ==> Or(a, b) < 256
  {
    SmallPowersOfTwo();
    hide Pow, Or;
    OrBounds(a, b, 6);
    OrBounds(a, b, 8);
  }

  lemma OrStaysBelowHighBit(a: nat, b: nat)
    ensures Or(a, b) < 0x8000 <==> a < 0x8000 && b < 0x8000
    ensures a < 0x1_0000 && b < 0x1_0000 ==> Or(a, b) < 0x1_0000
  {
    SmallPowersOfTwo();
    hide Pow, Or;
    OrBounds(a, b, 15);
    OrBounds(a, b, 16);
  }
}
