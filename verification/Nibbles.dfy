/** Nibbles of byte strings and of blocks: the half-strings of AEZ-tiny may end inside a byte
    (crates/aez/src/aez_tiny.rs). */
module Nibbles {
  import opened Blocks

  function NibbleOf(b: byte, high: bool): byte {
    if high then (b >> 4) & 0x0f else b & 0x0f
  }

  function WithNibble(b: byte, high: bool, value: byte): byte {
    if high then (b & 0x0f) | ((value & 0x0f) << 4) else (b & 0xf0) | (value & 0x0f)
  }

  lemma NibbleOfWith(b: byte, high: bool, value: byte, which: bool)
    ensures NibbleOf(WithNibble(b, high, value), which) == if which == high then value & 0x0f else NibbleOf(b, which)
  {}

  lemma NibbleIsLow(b: byte, high: bool)
    ensures NibbleOf(b, high) & 0x0f == NibbleOf(b, high)
  {}

  lemma ByteFromNibbles(a: byte, b: byte)
    requires NibbleOf(a, true) == NibbleOf(b, true) && NibbleOf(a, false) == NibbleOf(b, false)
    ensures a == b
  {}

  lemma NibbleOfXor(a: byte, b: byte, high: bool)
    ensures NibbleOf(a ^ b, high) == NibbleOf(a, high) ^ NibbleOf(b, high)
  {}

  /** Nibble `index` of `bytes`, 0 being the high nibble of byte 0; zero past the end. */
  function Nibble(bytes: seq<byte>, index: nat): byte {
    if index / 2 < |bytes| then NibbleOf(bytes[index / 2], index % 2 == 0) else 0
  }

  /** `bytes` with nibble `index` replaced by the low nibble of `value`; unchanged past the end. */
  function SetNibble(bytes: seq<byte>, index: nat, value: byte): (result: seq<byte>)
    ensures |result| == |bytes|
  {
    if index / 2 < |bytes|
    then bytes[index / 2 := WithNibble(bytes[index / 2], index % 2 == 0, value)]
    else bytes
  }

  lemma NibbleOfSet(bytes: seq<byte>, index: nat, value: byte, k: nat)
    requires k < 2 * |bytes|
    ensures Nibble(SetNibble(bytes, index, value), k) == if k == index then value & 0x0f else Nibble(bytes, k)
  {
    hide NibbleOf, WithNibble;
    if k / 2 == index / 2 {
      NibbleOfWith(bytes[k / 2], index % 2 == 0, value, k % 2 == 0);
    }
  }

  lemma ByteIsNibbles(b: byte)
    ensures b == (NibbleOf(b, true) << 4) | NibbleOf(b, false)
    ensures NibbleOf(b, true) < 16 && NibbleOf(b, false) < 16
  {}

  // A byte is its high nibble, the one of even index, followed by its low one; past the end nibbles are zero.
  lemma NibblesOfByte(bytes: seq<byte>, k: nat)
    ensures if k < |bytes|
            then bytes[k] == (Nibble(bytes, 2 * k) << 4) | Nibble(bytes, 2 * k + 1)
                 && Nibble(bytes, 2 * k) < 16 && Nibble(bytes, 2 * k + 1) < 16
            else Nibble(bytes, 2 * k) == 0 && Nibble(bytes, 2 * k + 1) == 0
  {
    hide NibbleOf;
    if k < |bytes| {
      ByteIsNibbles(bytes[k]);
    }
  }

  lemma EqualNibbles(s: seq<byte>, t: seq<byte>)
    requires |s| == |t| && forall k | 0 <= k < 2 * |s| :: Nibble(s, k) == Nibble(t, k)
    ensures s == t
  {
    hide NibbleOf;
    forall k | 0 <= k < |s|
      ensures s[k] == t[k]
    {
      assert Nibble(s, 2 * k) == Nibble(t, 2 * k) && Nibble(s, 2 * k + 1) == Nibble(t, 2 * k + 1);
      ByteFromNibbles(s[k], t[k]);
    }
  }

  const ZERO_BYTES: seq<byte> := [0, 0, 0, 0, 0, 0, 0, 0, 0, 0, 0, 0, 0, 0, 0, 0]

  /** The 16 bytes that hold nibbles start .. start + count of `source`, left-aligned. */
  function Taken(source: seq<byte>, start: nat, count: nat): (result: seq<byte>)
    ensures |result| == BLOCK_BYTES
  {
    if count == 0 then ZERO_BYTES
    else SetNibble(Taken(source, start, count - 1), count - 1, Nibble(source, start + count - 1))
  }

  /** `target` with the first `count` nibbles of `bytes` written from nibble `start`. */
  function Put(target: seq<byte>, start: nat, count: nat, bytes: seq<byte>): (result: seq<byte>)
    ensures |result| == |target|
  {
    if count == 0 then target
    else SetNibble(Put(target, start, count - 1, bytes), start + count - 1, Nibble(bytes, count - 1))
  }

  lemma NibbleOfZeros(k: nat)
    requires k < 32
    ensures Nibble(ZERO_BYTES, k) == 0
  {
    NibblesOfZero();
    hide NibbleOf;
  }

  lemma {:induction false} NibbleOfTaken(source: seq<byte>, start: nat, count: nat, k: nat)
    requires k < 32
    ensures Nibble(Taken(source, start, count), k) == if k < count then Nibble(source, start + k) else 0
  {
    hide Nibble, SetNibble;
    if count == 0 {
      NibbleOfZeros(k);
    } else {
      NibbleOfTaken(source, start, count - 1, k);
      NibbleOfSet(Taken(source, start, count - 1), count - 1, Nibble(source, start + count - 1), k);
      NibbleIsOwnLow(source, start + count - 1);
    }
  }

  lemma NibbleIsOwnLow(bytes: seq<byte>, k: nat)
    ensures Nibble(bytes, k) & 0x0f == Nibble(bytes, k)
  {
    hide NibbleOf;
    if k / 2 < |bytes| {
      NibbleIsLow(bytes[k / 2], k % 2 == 0);
    }
  }

  lemma {:induction false} NibbleOfPut(target: seq<byte>, start: nat, count: nat, bytes: seq<byte>, k: nat)
    requires k < 2 * |target|
    ensures Nibble(Put(target, start, count, bytes), k)
         == if start <= k < start + count then Nibble(bytes, k - start) else Nibble(target, k)
  {
    hide NibbleOf, Nibble, SetNibble;
    if count > 0 {
      NibbleOfPut(target, start, count - 1, bytes, k);
      NibbleOfSet(Put(target, start, count - 1, bytes), start + count - 1, Nibble(bytes, count - 1), k);
      NibbleIsOwnLow(bytes, count - 1);
    }
  }

  // -------------------------------------------------------------------------
  // Blocks that hold a half-string
  // -------------------------------------------------------------------------

  /** `x` is zero beyond its first `count` nibbles. */
  ghost predicate ZeroTail(x: Block, count: nat) {
    forall k | count <= k < 32 :: Nibble(ToBytes(x), k) == 0
  }

  function Take(source: seq<byte>, start: nat, count: nat): Block {
    FromBytes(Taken(source, start, count))
  }

  lemma TakeHasZeroTail(source: seq<byte>, start: nat, count: nat)
    ensures ZeroTail(Take(source, start, count), count)
  {
    hide ToBytes, FromBytes, Nibble, Taken;
    RoundTrip(0, Taken(source, start, count));
    forall k | count <= k < 32
      ensures Nibble(ToBytes(Take(source, start, count)), k) == 0
    {
      NibbleOfTaken(source, start, count, k);
    }
  }

  lemma XorHasZeroTail(x: Block, y: Block, count: nat)
    requires ZeroTail(x, count) && ZeroTail(y, count)
    ensures ZeroTail(Xor(x, y), count)
  {
    hide ToBytes, Xor, NibbleOf;
    XorEncoding(x, y);
    forall k | count <= k < 32
      ensures Nibble(ToBytes(Xor(x, y)), k) == 0
    {
      NibbleOfXor(ToBytes(x)[k / 2], ToBytes(y)[k / 2], k % 2 == 0);
      assert Nibble(ToBytes(x), k) == 0 && Nibble(ToBytes(y), k) == 0;
    }
  }

  // Two blocks with zero tails that agree on the nibbles before are equal.
  lemma EqualHalves(x: Block, y: Block, count: nat)
    requires ZeroTail(x, count) && ZeroTail(y, count)
    requires forall k | 0 <= k < count && k < 32 :: Nibble(ToBytes(x), k) == Nibble(ToBytes(y), k)
    ensures x == y
  {
    hide ToBytes, Nibble;
    EqualNibbles(ToBytes(x), ToBytes(y));
    EqualBytes(x, y);
  }

  // -------------------------------------------------------------------------
  // Truncation
  // -------------------------------------------------------------------------

  lemma {:induction false} ShiftLeftAdds(x: Block, a: nat, b: nat)
    ensures ShiftLeft(x, a + b) == ShiftLeft(ShiftLeft(x, a), b)
  {
    hide ShiftOne;
    if b > 0 {
      ShiftLeftAdds(x, a, b - 1);
    }
  }

  lemma ShiftLeft4(x: Block)
    ensures ShiftLeft(x, 4) == x << 4
  {
    calc {
      ShiftLeft(x, 4);
      { ShiftLeftUnfold4(x); }
      ShiftOne(ShiftOne(ShiftOne(ShiftOne(x))));
      ShiftOne(ShiftOne(ShiftOne(x << 1)));
      ShiftOne(ShiftOne((x << 1) << 1));
      ShiftOne(((x << 1) << 1) << 1);
      (((x << 1) << 1) << 1) << 1;
      x << 4;
    }
  }

  lemma ShiftLeftUnfold4(x: Block)
    ensures ShiftLeft(x, 4) == ShiftOne(ShiftOne(ShiftOne(ShiftOne(x))))
  {
    hide ShiftOne;
    assert ShiftLeft(x, 0) == x;
    assert ShiftLeft(x, 1) == ShiftOne(x);
    assert ShiftLeft(x, 2) == ShiftOne(ShiftOne(x));
    assert ShiftLeft(x, 3) == ShiftOne(ShiftOne(ShiftOne(x)));
  }

  lemma ShiftLeft8(x: Block)
    ensures ShiftLeft(x, 8) == x << 8
  {
    hide ShiftLeft;
    calc {
      ShiftLeft(x, 8);
      { ShiftLeftAdds(x, 4, 4); }
      ShiftLeft(ShiftLeft(x, 4), 4);
      { ShiftLeft4(x); }
      ShiftLeft(x << 4, 4);
      { ShiftLeft4(x << 4); }
      (x << 4) << 4;
      x << 8;
    }
  }

  lemma SlideZeros(bytes: seq<byte>, count: nat)
    requires |bytes| == BLOCK_BYTES && count < BLOCK_BYTES
    ensures (bytes[count..] + ZERO_BYTES[..count])[1..] + [0] == bytes[count + 1..] + ZERO_BYTES[..count + 1]
  {}

  lemma NothingShifted(x: Block)
    ensures ToBytes(ShiftLeft(x, 0)) == ToBytes(x)[0..] + ZERO_BYTES[..0]
  {
    hide ToBytes;
    assert ShiftLeft(x, 0) == x;
  }

  // Shifting left by bytes drops them from the front of the encoding.
  lemma {:induction false} ShiftLeftBytes(x: Block, count: nat)
    requires count <= BLOCK_BYTES
    ensures ToBytes(ShiftLeft(x, 8 * count)) == ToBytes(x)[count..] + ZERO_BYTES[..count]
  {
    hide ToBytes, ShiftLeft;
    if count == 0 {
      NothingShifted(x);
    } else {
      calc {
        ToBytes(ShiftLeft(x, 8 * (count - 1) + 8));
        { ShiftLeftAdds(x, 8 * (count - 1), 8); }
        ToBytes(ShiftLeft(ShiftLeft(x, 8 * (count - 1)), 8));
        { ShiftLeftByte(ShiftLeft(x, 8 * (count - 1))); }
        ToBytes(ShiftLeft(x, 8 * (count - 1)))[1..] + [0];
        { ShiftLeftBytes(x, count - 1); }
        (ToBytes(x)[count - 1..] + ZERO_BYTES[..count - 1])[1..] + [0];
        { SlideZeros(ToBytes(x), count - 1); }
        ToBytes(x)[count..] + ZERO_BYTES[..count];
      }
    }
  }

  lemma ShiftLeftByte(x: Block)
    ensures ToBytes(ShiftLeft(x, 8)) == ToBytes(x)[1..] + [0]
  {
    hide ToBytes, ShiftLeft;
    calc {
      ToBytes(ShiftLeft(x, 8));
      { ShiftLeft8(x); }
      ToBytes(x << 8);
      ToBytes((x << 8) | (0 as byte) as Block);
      { ShiftIn(x, 0); }
      ToBytes(x)[1..] + [0];
    }
  }

  lemma EncodingOfZero()
    ensures ToBytes(0) == ZERO_BYTES
  {
    ToBytesOfZero();
    hide ToBytes;
  }

  lemma NibblesOfZero()
    ensures NibbleOf(0, true) == 0 && NibbleOf(0, false) == 0
  {}

  // 1^124 0^4.
  const ONES_BUT_LAST_NIBBLE: Block := 0xffff_ffff_ffff_ffff_ffff_ffff_ffff_fff0

  lemma EncodingOfOnes(p: nat)
    requires p < BLOCK_BYTES
    ensures ToBytes(ALL_ONES)[p] == 0xff
    ensures ToBytes(ONES_BUT_LAST_NIBBLE)[p] == if p < 15 then 0xff else 0xf0
  {
    assert ToBytes2(0xffff) == [0xff, 0xff];
    assert ToBytes2(0xfff0) == [0xff, 0xf0];
    assert ToBytes4(0xffff_ffff) == [0xff, 0xff, 0xff, 0xff];
    assert ToBytes4(0xffff_fff0) == [0xff, 0xff, 0xff, 0xf0];
    assert ToBytes8(0xffff_ffff_ffff_ffff) == [0xff, 0xff, 0xff, 0xff, 0xff, 0xff, 0xff, 0xff];
    assert ToBytes8(0xffff_ffff_ffff_fff0) == [0xff, 0xff, 0xff, 0xff, 0xff, 0xff, 0xff, 0xf0];
    hide ToBytes2, ToBytes4, ToBytes8;
  }

  /** Byte `p` of the mask of the first `count` nibbles. */
  function MaskByte(count: nat, p: nat): byte {
    if 2 * p + 2 <= count then 0xff else if 2 * p + 1 == count then 0xf0 else 0
  }

  lemma ShiftedByteAt(x: Block, count: nat, p: nat)
    requires count <= BLOCK_BYTES && p < BLOCK_BYTES
    ensures ToBytes(ShiftLeft(x, 8 * count))[p] == if p + count < BLOCK_BYTES then ToBytes(x)[p + count] else 0
  {
    hide ToBytes, ShiftLeft;
    ShiftLeftBytes(x, count);
  }

  lemma ShiftedOnes()
    ensures ShiftLeft(ALL_ONES, 4) == ONES_BUT_LAST_NIBBLE
  {
    calc {
      ShiftLeft(ALL_ONES, 4);
      { ShiftLeft4(ALL_ONES); }
      ALL_ONES << 4;
      ONES_BUT_LAST_NIBBLE;
    }
  }

  lemma LeadingOnesIs(count: nat)
    requires count <= 32
    ensures LeadingOnes(4 * count) == ShiftLeft(ALL_ONES, 128 - 4 * count)
  {
    hide ToBytes, ShiftLeft;
    if count == 0 {
      ShiftLeftBytes(ALL_ONES, BLOCK_BYTES);
      EncodingOfZero();
      EqualBytes(ShiftLeft(ALL_ONES, 8 * BLOCK_BYTES), 0);
    }
  }

  lemma LeadingOnesBytes(count: nat, p: nat)
    requires count <= 32 && p < BLOCK_BYTES
    ensures ToBytes(LeadingOnes(4 * count))[p] == MaskByte(count, p)
  {
    hide ToBytes, ShiftLeft, LeadingOnes;
    var dropped := (32 - count) / 2;
    LeadingOnesIs(count);
    if p + dropped < BLOCK_BYTES {
      EncodingOfOnes(p + dropped);
    }
    if count % 2 == 0 {
      ShiftedByteAt(ALL_ONES, dropped, p);
    } else {
      ShiftLeftAdds(ALL_ONES, 4, 8 * dropped);
      ShiftedOnes();
      ShiftedByteAt(ONES_BUT_LAST_NIBBLE, dropped, p);
    }
  }

  lemma NibbleOfMask(b: byte, high: bool)
    ensures NibbleOf(b & 0xff, high) == NibbleOf(b, high)
    ensures NibbleOf(b & 0xf0, high) == if high then NibbleOf(b, true) else 0
    ensures NibbleOf(b & 0, high) == 0
  {}

  // Truncating to 4n bits keeps the first n nibbles and clears the others.
  lemma NibbleOfTruncated(x: Block, count: nat, k: nat)
    requires count <= 32 && k < 32
    ensures Nibble(ToBytes(Truncate(x, 4 * count)), k) == if k < count then Nibble(ToBytes(x), k) else 0
  {
    hide ToBytes, NibbleOf, And;
    var mask, p := LeadingOnes(4 * count), k / 2;
    LeadingOnesBytes(count, p);
    AndBytesAt(x, mask, p);
    hide LeadingOnes;
    NibbleOfMask(ToBytes(x)[p], k % 2 == 0);
  }

  lemma AndBytesAt(x: Block, y: Block, p: nat)
    requires p < BLOCK_BYTES
    ensures ToBytes(And(x, y))[p] == ToBytes(x)[p] & ToBytes(y)[p]
  {
    hide ToBytes;
    AndEncoding(x, y);
  }

  lemma TruncateHasZeroTail(x: Block, count: nat)
    requires count <= 32
    ensures ZeroTail(Truncate(x, 4 * count), count)
  {
    hide ToBytes, Nibble, Truncate;
    forall k | count <= k < 32
      ensures Nibble(ToBytes(Truncate(x, 4 * count)), k) == 0
    {
      NibbleOfTruncated(x, count, k);
    }
  }
}
