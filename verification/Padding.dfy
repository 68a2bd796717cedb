/** What the 10* paddings of AEZ denote, bit for bit (crates/aez/src/block.rs): the padding bit directly
    follows the padded string, so padding is injective. */
module Padding {
  import opened Blocks
  import opened Nibbles

  // -------------------------------------------------------------------------
  // Shifting right
  // -------------------------------------------------------------------------

  lemma {:induction false} ShiftRightAdds(x: Block, a: nat, b: nat)
    ensures ShiftRight(x, a + b) == ShiftRight(ShiftRight(x, a), b)
  {
    hide ShiftOneRight;
    if b > 0 {
      ShiftRightAdds(x, a, b - 1);
    }
  }

  lemma ShiftRightUnfold4(x: Block)
    ensures ShiftRight(x, 4) == ShiftOneRight(ShiftOneRight(ShiftOneRight(ShiftOneRight(x))))
  {
    hide ShiftOneRight;
    assert ShiftRight(x, 0) == x;
    assert ShiftRight(x, 1) == ShiftOneRight(x);
    assert ShiftRight(x, 2) == ShiftOneRight(ShiftOneRight(x));
    assert ShiftRight(x, 3) == ShiftOneRight(ShiftOneRight(ShiftOneRight(x)));
  }

  lemma ShiftRight4(x: Block)
    ensures ShiftRight(x, 4) == x >> 4
  {
    calc {
      ShiftRight(x, 4);
      { ShiftRightUnfold4(x); }
      ShiftOneRight(ShiftOneRight(ShiftOneRight(ShiftOneRight(x))));
      ShiftOneRight(ShiftOneRight(ShiftOneRight(x >> 1)));
      ShiftOneRight(ShiftOneRight((x >> 1) >> 1));
      ShiftOneRight(((x >> 1) >> 1) >> 1);
      (((x >> 1) >> 1) >> 1) >> 1;
      x >> 4;
    }
  }

  lemma ShiftRight8(x: Block)
    ensures ShiftRight(x, 8) == x >> 8
  {
    hide ShiftRight;
    calc {
      ShiftRight(x, 8);
      { ShiftRightAdds(x, 4, 4); }
      ShiftRight(ShiftRight(x, 4), 4);
      { ShiftRight4(x); }
      ShiftRight(x >> 4, 4);
      { ShiftRight4(x >> 4); }
      (x >> 4) >> 4;
      x >> 8;
    }
  }

  lemma LastByteBack(x: Block)
    ensures ((x >> 8) << 8) | (x & 0xff) as byte as Block == x
    ensures ((x >> 8) >> 120) as byte == 0
  {}

  // Shifting right by one byte moves a zero byte in from the left.
  lemma ShiftRightByte(x: Block, p: nat)
    requires p < BLOCK_BYTES
    ensures ToBytes(x >> 8)[p] == if p == 0 then 0 else ToBytes(x)[p - 1]
  {
    hide ToBytes;
    LastByteBack(x);
    ShiftIn(x >> 8, (x & 0xff) as byte);
    FirstByte(x >> 8);
  }

  lemma {:induction false} ShiftedRightByteAt(x: Block, count: nat, p: nat)
    requires p < BLOCK_BYTES
    ensures ToBytes(ShiftRight(x, 8 * count))[p] == if p < count then 0 else ToBytes(x)[p - count]
  {
    hide ToBytes, ShiftRight;
    if count == 0 {
      NotShifted(x);
    } else {
      var before := ShiftRight(x, 8 * (count - 1));
      ShiftRightAdds(x, 8 * (count - 1), 8);
      ShiftRight8Byte(before, p);
      if p > 0 {
        ShiftedRightByteAt(x, count - 1, p - 1);
      }
    }
  }

  lemma NotShifted(x: Block)
    ensures ShiftRight(x, 0) == x
  {}

  lemma ShiftRight8Byte(x: Block, p: nat)
    requires p < BLOCK_BYTES
    ensures ToBytes(ShiftRight(x, 8))[p] == if p == 0 then 0 else ToBytes(x)[p - 1]
  {
    hide ToBytes, ShiftRight;
    ShiftRight8(x);
    ShiftRightByte(x, p);
  }

  // -------------------------------------------------------------------------
  // The padding bit
  // -------------------------------------------------------------------------

  // 0^4 1 0^123.
  const FIFTH_BIT: Block := 0x0800_0000_0000_0000_0000_0000_0000_0000

  lemma EncodingOfBits(p: nat)
    requires p < BLOCK_BYTES
    ensures ToBytes(TOP_BIT)[p] == if p == 0 then 0x80 else 0
    ensures ToBytes(FIFTH_BIT)[p] == if p == 0 then 0x08 else 0
  {
    assert ToBytes2(0) == [0, 0];
    assert ToBytes2(0x8000) == [0x80, 0];
    assert ToBytes2(0x0800) == [0x08, 0];
    assert ToBytes4(0) == [0, 0, 0, 0];
    assert ToBytes4(0x8000_0000) == [0x80, 0, 0, 0];
    assert ToBytes4(0x0800_0000) == [0x08, 0, 0, 0];
    assert ToBytes8(0) == [0, 0, 0, 0, 0, 0, 0, 0];
    assert ToBytes8(0x8000_0000_0000_0000) == [0x80, 0, 0, 0, 0, 0, 0, 0];
    assert ToBytes8(0x0800_0000_0000_0000) == [0x08, 0, 0, 0, 0, 0, 0, 0];
    hide ToBytes2, ToBytes4, ToBytes8;
  }

  lemma ShiftedTopBit()
    ensures ShiftRight(TOP_BIT, 4) == FIFTH_BIT
  {
    calc {
      ShiftRight(TOP_BIT, 4);
      { ShiftRight4(TOP_BIT); }
      TOP_BIT >> 4;
      FIFTH_BIT;
    }
  }

  /** The byte of the padding bit in front of nibble `count`. */
  function BitByte(count: nat, p: nat): byte {
    if p != count / 2 then 0 else if count % 2 == 0 then 0x80 else 0x08
  }

  lemma BitAtBytes(count: nat, p: nat)
    requires p < BLOCK_BYTES
    ensures ToBytes(BitAt(4 * count))[p] == BitByte(count, p)
  {
    hide ToBytes, ShiftRight;
    if count >= 32 {
      EncodingOfZero();
    } else {
      if p >= count / 2 {
        EncodingOfBits(p - count / 2);
      }
      if count % 2 == 0 {
        ShiftedRightByteAt(TOP_BIT, count / 2, p);
      } else {
        ShiftRightAdds(TOP_BIT, 4, 8 * (count / 2));
        ShiftedTopBit();
        ShiftedRightByteAt(FIFTH_BIT, count / 2, p);
      }
    }
  }

  lemma OrIsXorAnd(x: Block, y: Block)
    ensures Or(x, y) == Xor(Xor(x, y), And(x, y))
  {
    calc {
      Or(x, y);
      x | y;
      (x ^ y) ^ (x & y);
      Xor(x ^ y, x & y);
      Xor(Xor(x, y), And(x, y));
    }
  }

  lemma OrByte(a: byte, b: byte)
    ensures (a ^ b) ^ (a & b) == a | b
  {}

  lemma XorBytesAt(x: Block, y: Block, p: nat)
    requires p < BLOCK_BYTES
    ensures ToBytes(Xor(x, y))[p] == ToBytes(x)[p] ^ ToBytes(y)[p]
  {
    hide ToBytes, Xor;
    XorEncoding(x, y);
  }

  lemma OrBytesAt(x: Block, y: Block, p: nat)
    requires p < BLOCK_BYTES
    ensures ToBytes(Or(x, y))[p] == ToBytes(x)[p] | ToBytes(y)[p]
  {
    hide ToBytes, Xor, And, Or;
    OrIsXorAnd(x, y);
    XorBytesAt(Xor(x, y), And(x, y), p);
    XorBytesAt(x, y, p);
    AndBytesAt(x, y, p);
    OrByte(ToBytes(x)[p], ToBytes(y)[p]);
  }

  // -------------------------------------------------------------------------
  // Padding byte strings
  // -------------------------------------------------------------------------

  lemma OrZero(b: byte)
    ensures b | 0 == b && 0 | b == b
  {}

  // A short string is followed by one 1 bit and zeros; of a longer one the first block remains.
  lemma PaddedBytes(partial: seq<byte>)
    ensures ToBytes(Padded(partial))
         == if |partial| < BLOCK_BYTES then partial + [0x80] + ZERO_BYTES[..15 - |partial|] else partial[..BLOCK_BYTES]
  {
    var expected := if |partial| < BLOCK_BYTES then partial + [0x80] + ZERO_BYTES[..15 - |partial|]
                    else partial[..BLOCK_BYTES];
    forall p | 0 <= p < BLOCK_BYTES
      ensures ToBytes(Padded(partial))[p] == expected[p]
    {
      PaddedByteAt(partial, p);
    }
    hide ToBytes, Padded;
    assert ToBytes(Padded(partial)) == expected;
  }

  lemma PaddedByteAt(partial: seq<byte>, p: nat)
    requires p < BLOCK_BYTES
    ensures ToBytes(Padded(partial))[p] == if p < |partial| then partial[p] else if p == |partial| then 0x80 else 0
  {
    hide ToBytes, FromBytes, Or, BitAt;
    OrBytesAt(FromPrefix(partial), BitAt(8 * |partial|), p);
    RoundTrip(0, ZeroExtended(partial));
    BitAtBytes(2 * |partial|, p);
    OrZero(ZeroExtended(partial)[p]);
    OrZero(BitByte(2 * |partial|, p));
  }

  // Distinct short strings have distinct padded blocks.
  lemma PaddedIsInjective(a: seq<byte>, b: seq<byte>)
    requires |a| < BLOCK_BYTES && |b| < BLOCK_BYTES && Padded(a) == Padded(b)
    ensures a == b
  {
    hide ToBytes, Padded;
    var block := ToBytes(Padded(a));
    PaddedBytes(a);
    PaddedBytes(b);
    assert block[|a|] == 0x80 && block[|b|] == 0x80;
    assert forall p | |a| < p < BLOCK_BYTES :: block[p] == 0;
    assert forall p | |b| < p < BLOCK_BYTES :: block[p] == 0;
    assert a == block[..|a|] && b == block[..|b|];
  }

  // -------------------------------------------------------------------------
  // Padding half-strings
  // -------------------------------------------------------------------------

  lemma NibbleOfOr(a: byte, b: byte, high: bool)
    ensures NibbleOf(a | b, high) == NibbleOf(a, high) | NibbleOf(b, high)
  {}

  lemma NibbleOfBit(high: bool)
    ensures NibbleOf(0x80, high) == if high then 8 else 0
    ensures NibbleOf(0x08, high) == if high then 0 else 8
    ensures NibbleOf(0, high) == 0
  {}

  // A half-string of n nibbles is followed by the nibble 1000 and zeros.
  lemma NibbleOfPadded(x: Block, count: nat, k: nat)
    requires ZeroTail(x, count) && k < 32
    ensures Nibble(ToBytes(PadBits(x, 4 * count)), k)
         == if k < count then Nibble(ToBytes(x), k) else if k == count then 8 else 0
  {
    hide ToBytes, NibbleOf, Or, BitAt, BitByte;
    var p, high := k / 2, k % 2 == 0;
    OrBytesAt(x, BitAt(4 * count), p);
    BitAtBytes(count, p);
    NibbleOfOr(ToBytes(x)[p], BitByte(count, p), high);
    NibbleOfBitByte(count, k);
    OrZero(Nibble(ToBytes(x), k));
    OrZero(NibbleOf(BitByte(count, p), high));
    if k >= count {
      assert Nibble(ToBytes(x), k) == 0;
    }
  }

  lemma NibbleOfBitByte(count: nat, k: nat)
    ensures NibbleOf(BitByte(count, k / 2), k % 2 == 0) == if k == count then 8 else 0
  {
    hide NibbleOf;
    NibbleOfBit(k % 2 == 0);
  }

  // Distinct half-strings, even of different lengths, have distinct padded blocks.
  lemma PadBitsIsInjective(x: Block, m: nat, y: Block, n: nat)
    requires m < 32 && n < 32 && ZeroTail(x, m) && ZeroTail(y, n)
    requires PadBits(x, 4 * m) == PadBits(y, 4 * n)
    ensures m == n && x == y
  {
    hide ToBytes, Nibble, PadBits;
    NibbleOfPadded(x, m, m);
    NibbleOfPadded(y, n, m);
    NibbleOfPadded(x, m, n);
    NibbleOfPadded(y, n, n);
    forall k | 0 <= k < m && k < 32
      ensures Nibble(ToBytes(x), k) == Nibble(ToBytes(y), k)
    {
      NibbleOfPadded(x, m, k);
      NibbleOfPadded(y, n, k);
    }
    EqualHalves(x, y, m);
  }
}
