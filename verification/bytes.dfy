/** Bytes and the bit operations that network masks use on them. */
module Bytes {

  type Byte = n: nat | n < 256

  /** The binary digits of a byte. */
  function Bits(x: Byte): bv8 { if x == 0 then 0 else (Bits(x / 2) << 1) | (if x % 2 == 1 then 1 else 0) }

  lemma Twice(b: bv8)
    requires b as nat < 128
    ensures ((b << 1) | 0) as nat == 2 * b as nat && ((b << 1) | 1) as nat == 2 * b as nat + 1
  {
  }

  lemma {:induction false} BitsValue(x: Byte)
    ensures Bits(x) as nat == x
  {
    if x > 0 {
      BitsValue(x / 2);
      Twice(Bits(x / 2));
    }
  }

  /** x & m. */
  function And(x: Byte, m: bv8): Byte { (Bits(x) & m) as nat }

  /** x | ^m. */
  function OrNot(x: Byte, m: bv8): Byte { (Bits(x) | !m) as nat }

  /** x++ on an unsigned byte. */
  function Next(x: Byte): Byte { if x == 255 then 0 else x + 1 }

  /** A byte of k ones followed by zeros. */
  function MaskByte(k: nat): bv8
    requires k <= 8
  {
    if k == 0 then 0x00 else if k == 1 then 0x80 else if k == 2 then 0xc0 else if k == 3 then 0xe0 else if k == 4 then 0xf0
    else if k == 5 then 0xf8 else if k == 6 then 0xfc else if k == 7 then 0xfe else 0xff
  }

  /** 2 to the k. */
  function Power(k: nat): (p: nat)
    requires k <= 8
    ensures 0 < p <= 256
  {
    if k == 0 then 1 else if k == 1 then 2 else if k == 2 then 4 else if k == 3 then 8 else if k == 4 then 16
    else if k == 5 then 32 else if k == 6 then 64 else if k == 7 then 128 else 256
  }

  /** The mask leaves a multiple of p; its complement fills up to the next one. */
  predicate Clears(b: bv8, m: bv8, p: nat)
    requires p > 0
  {
    (b & m) as nat == b as nat - b as nat % p
  }

  predicate Fills(b: bv8, m: bv8, p: nat)
    requires p > 0
  {
    (b | !m) as nat == b as nat - b as nat % p + p - 1
  }

  lemma And0(b: bv8)
    ensures Clears(b, MaskByte(0), Power(8))
  {
  }

  lemma Or0(b: bv8)
    ensures Fills(b, MaskByte(0), Power(8))
  {
    assert b | !MaskByte(0) == 0xff;
  }

  lemma And8(b: bv8)
    ensures Clears(b, MaskByte(8), Power(0))
  {
  }

  lemma Or8(b: bv8)
    ensures Fills(b, MaskByte(8), Power(0))
  {
  }

  lemma And1(b: bv8)
    ensures Clears(b, MaskByte(1), Power(7))
  {
  }

  lemma Or1(b: bv8)
    ensures Fills(b, MaskByte(1), Power(7))
  {
  }

  lemma And2(b: bv8)
    ensures Clears(b, MaskByte(2), Power(6))
  {
  }

  lemma Or2(b: bv8)
    ensures Fills(b, MaskByte(2), Power(6))
  {
  }

  lemma And3(b: bv8)
    ensures Clears(b, MaskByte(3), Power(5))
  {
  }

  lemma Or3(b: bv8)
    ensures Fills(b, MaskByte(3), Power(5))
  {
  }

  lemma And4(b: bv8)
    ensures Clears(b, MaskByte(4), Power(4))
  {
  }

  lemma Or4(b: bv8)
    ensures Fills(b, MaskByte(4), Power(4))
  {
  }

  lemma And5(b: bv8)
    ensures Clears(b, MaskByte(5), Power(3))
  {
  }

  lemma Or5(b: bv8)
    ensures Fills(b, MaskByte(5), Power(3))
  {
  }

  lemma And6(b: bv8)
    ensures Clears(b, MaskByte(6), Power(2))
  {
  }

  lemma Or6(b: bv8)
    ensures Fills(b, MaskByte(6), Power(2))
  {
    And6(b);
    assert b | !MaskByte(6) == (b & MaskByte(6)) | 3;
  }

  lemma And7(b: bv8)
    ensures Clears(b, MaskByte(7), Power(1))
  {
  }

  lemma Or7(b: bv8)
    ensures Fills(b, MaskByte(7), Power(1))
  {
  }

  lemma AndBits(b: bv8, k: nat)
    requires k <= 8
    ensures Clears(b, MaskByte(k), Power(8 - k))
  {
    match k {
      case 1 => And1(b);
      case 2 => And2(b);
      case 3 => And3(b);
      case 4 => And4(b);
      case 5 => And5(b);
      case 6 => And6(b);
      case 7 => And7(b);
      case 0 => And0(b);
      case 8 => And8(b);
    }
  }

  lemma OrBits(b: bv8, k: nat)
    requires k <= 8
    ensures Fills(b, MaskByte(k), Power(8 - k))
  {
    match k {
      case 1 => Or1(b);
      case 2 => Or2(b);
      case 3 => Or3(b);
      case 4 => Or4(b);
      case 5 => Or5(b);
      case 6 => Or6(b);
      case 7 => Or7(b);
      case 0 => Or0(b);
      case 8 => Or8(b);
    }
  }

  lemma AndByte(x: Byte, b: bv8, k: nat)
    requires k <= 8 && b == Bits(x) && b as nat == x
    ensures And(x, MaskByte(k)) == x - x % Power(8 - k)
  {
    AndBits(b, k);
  }

  lemma OrByte(x: Byte, b: bv8, k: nat)
    requires k <= 8 && b == Bits(x) && b as nat == x
    ensures OrNot(x, MaskByte(k)) == x - x % Power(8 - k) + Power(8 - k) - 1
  {
    OrBits(b, k);
  }

  /** A mask byte clears the low bits, its complement sets them. */
  lemma MaskedByte(x: Byte, k: nat)
    requires k <= 8
    ensures And(x, MaskByte(k)) == x - x % Power(8 - k)
    ensures OrNot(x, MaskByte(k)) == x - x % Power(8 - k) + Power(8 - k) - 1
  {
    BitsValue(x);
    AndByte(x, Bits(x), k);
    OrByte(x, Bits(x), k);
  }
}
