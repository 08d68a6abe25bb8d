/** Key usage masks as machine words of nine bits, one for each key usage, and the positions of their bits. */
module Masks {

  type Mask = bv9

  const WIDTH := 9

  /** The value with the one bit at position `b`. */
  function Bit(b: nat): Mask
    requires b < WIDTH
  {
    match b
    case 0 => 0x1
    case 1 => 0x2
    case 2 => 0x4
    case 3 => 0x8
    case 4 => 0x10
    case 5 => 0x20
    case 6 => 0x40
    case 7 => 0x80
    case _ => 0x100
  }

  /** The positions at which a mask has a bit. */
  function BitsOf(m: Mask): set<nat> {
    set b: nat | b < WIDTH && m & Bit(b) != 0
  }

  lemma AndOverOr(m: Mask, v: Mask, k: Mask)
    ensures (m | v) & k == (m & k) | (v & k)
  {
  }

  lemma OrIsZero(x: Mask, y: Mask)
    ensures x | y == 0 <==> x == 0 && y == 0
  {
  }

  /** The bitwise or has the bits of both masks. */
  lemma BitsOfOr(m: Mask, v: Mask)
    ensures BitsOf(m | v) == BitsOf(m) + BitsOf(v)
  {
    forall b: nat | b < WIDTH ensures b in BitsOf(m | v) <==> b in BitsOf(m) || b in BitsOf(v) {
      AndOverOr(m, v, Bit(b));
      OrIsZero(m & Bit(b), v & Bit(b));
    }
  }

  lemma BitsOfNothing()
    ensures BitsOf(0) == {}
  {
    forall b: nat | b < WIDTH ensures (0 as Mask) & Bit(b) == 0 {}
  }

  lemma BitsMeet(k: nat, b: nat)
    requires k < WIDTH && b < WIDTH
    ensures Bit(k) & Bit(b) != 0 <==> b == k
  {
  }

  /** A value with one bit has no other. */
  lemma BitsOfBit(k: nat)
    requires k < WIDTH
    ensures BitsOf(Bit(k)) == {k}
  {
    forall b: nat | b < WIDTH ensures Bit(k) & Bit(b) != 0 <==> b == k { BitsMeet(k, b); }
  }

  /** Masks with the same bits are the same word. */
  lemma BitsDetermine(m: Mask, n: Mask)
    requires BitsOf(m) == BitsOf(n)
    ensures m == n
  {
    Has(m, n, 0);
    Has(m, n, 1);
    Has(m, n, 2);
    Has(m, n, 3);
    Has(m, n, 4);
    Has(m, n, 5);
    Has(m, n, 6);
    Has(m, n, 7);
    Has(m, n, 8);
    SameWord(m, n);
  }

  lemma Has(m: Mask, n: Mask, b: nat)
    requires b < WIDTH && BitsOf(m) == BitsOf(n)
    ensures m & Bit(b) != 0 <==> n & Bit(b) != 0
  {
    assert b in BitsOf(m) <==> b in BitsOf(n);
  }

  lemma SameWord(m: Mask, n: Mask)
    requires (m & 0x1 != 0 <==> n & 0x1 != 0) && (m & 0x2 != 0 <==> n & 0x2 != 0) && (m & 0x4 != 0 <==> n & 0x4 != 0)
    requires (m & 0x8 != 0 <==> n & 0x8 != 0) && (m & 0x10 != 0 <==> n & 0x10 != 0)
    requires m & 0x20 != 0 <==> n & 0x20 != 0
    requires (m & 0x40 != 0 <==> n & 0x40 != 0) && (m & 0x80 != 0 <==> n & 0x80 != 0)
    requires m & 0x100 != 0 <==> n & 0x100 != 0
    ensures m == n
  {
  }
}
