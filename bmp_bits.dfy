/**
 * Single bits of a byte, numbered 0 (least significant) to 7. The decoder
 * tests pixels with the mask 0x80 >> k and sets band bits with 1 << p; both
 * are the bit masks below.
 */
module ByteBits {
  /** 1 << p, written out so that no shift by a variable is needed. */
  function BitOf(p: nat): bv8
    requires p < 8
  {
    if p == 0 then 0x01 else if p == 1 then 0x02 else if p == 2 then 0x04 else if p == 3 then 0x08
    else if p == 4 then 0x10 else if p == 5 then 0x20 else if p == 6 then 0x40 else 0x80
  }

  predicate HasBit(x: bv8, p: nat)
    requires p < 8
  {
    x & BitOf(p) != 0
  }

  /** The mask 1 << p of the source is bit p. */
  lemma OneShiftedLeft(p: nat)
    requires p < 8
    ensures (1 as bv8) << p == BitOf(p)
  {
    if p == 0 {} else if p == 1 {} else if p == 2 {} else if p == 3 {}
    else if p == 4 {} else if p == 5 {} else if p == 6 {} else {}
  }

  /** The mask 0x80 >> k of the source is bit 7 - k: pixels are stored most significant bit first. */
  lemma HighBitShiftedRight(k: nat)
    requires k < 8
    ensures (0x80 as bv8) >> k == BitOf(7 - k)
  {
    if k == 0 {} else if k == 1 {} else if k == 2 {} else if k == 3 {}
    else if k == 4 {} else if k == 5 {} else if k == 6 {} else {}
  }

  lemma BitDistinct(p: nat, q: nat)
    requires p < 8 && q < 8
    ensures HasBit(BitOf(q), p) <==> p == q
  {
  }

  lemma OrBit(a: bv8, x: bv8, p: nat)
    requires p < 8
    ensures HasBit(a | x, p) <==> HasBit(a, p) || HasBit(x, p)
  {
  }

  lemma ZeroHasNoBit(p: nat)
    requires p < 8
    ensures !HasBit(0, p)
  {
  }

  /** A byte is determined by its eight bits. */
  lemma SameBitsSameByte(x: bv8, y: bv8)
    requires forall p | 0 <= p < 8 :: HasBit(x, p) == HasBit(y, p)
    ensures x == y
  {
    assert x & 0x01 == y & 0x01 by { assert HasBit(x, 0) == HasBit(y, 0); }
    assert x & 0x02 == y & 0x02 by { assert HasBit(x, 1) == HasBit(y, 1); }
    assert x & 0x04 == y & 0x04 by { assert HasBit(x, 2) == HasBit(y, 2); }
    assert x & 0x08 == y & 0x08 by { assert HasBit(x, 3) == HasBit(y, 3); }
    assert x & 0x10 == y & 0x10 by { assert HasBit(x, 4) == HasBit(y, 4); }
    assert x & 0x20 == y & 0x20 by { assert HasBit(x, 5) == HasBit(y, 5); }
    assert x & 0x40 == y & 0x40 by { assert HasBit(x, 6) == HasBit(y, 6); }
    assert x & 0x80 == y & 0x80 by { assert HasBit(x, 7) == HasBit(y, 7); }
  }
}
