/** The encoding of integers as 128-bit strings (crates/aez/src/block.rs): below 2^128 distinct integers have
    distinct encodings, so the counters and round indices of AEZ never collide. */
module Index {
  import opened Blocks
  import opened Nibbles
  import opened Field

  /** `x` has no bit set from bit `width` (counting from the last) on. */
  ghost predicate Fits(x: Block, width: nat) {
    And(x, ShiftLeft(ALL_ONES, width)) == 0
  }

  lemma FromIndexStep(n: nat)
    ensures FromIndex(n) == AppendBit(FromIndex(n / 2), n % 2 == 1)
  {
    if n == 0 {
      AppendToZero();
    }
    hide AppendBit;
  }

  lemma AppendFits(x: Block, mask: Block, bit: bool)
    requires And(x, mask) == 0
    ensures And(AppendBit(x, bit), ShiftOne(mask)) == 0
  {}

  lemma {:induction false} IndexFits(n: nat, width: nat)
    requires n < PowerOfTwo(width)
    ensures Fits(FromIndex(n), width)
  {
    hide And, ShiftOne, FromIndex, AppendBit;
    FromIndexStep(n);
    if width == 0 {
      assert n == 0;
      FromIndexOfZero();
      ZeroAnd(ShiftLeft(ALL_ONES, 0));
    } else {
      IndexFits(n / 2, width - 1);
      AppendFits(FromIndex(n / 2), ShiftLeft(ALL_ONES, width - 1), n % 2 == 1);
    }
  }

  lemma FromIndexOfZero()
    ensures FromIndex(0) == 0
  {}

  lemma ZeroAnd(x: Block)
    ensures And(0, x) == 0
  {}

  lemma AppendToZero()
    ensures AppendBit(0, false) == 0
  {}

  // -------------------------------------------------------------------------
  // Injectivity
  // -------------------------------------------------------------------------

  lemma ShiftedTo127()
    ensures ShiftLeft(ALL_ONES, 127) == TOP_BIT
  {
    hide ShiftLeft;
    ShiftedTo124();
    calc {
      ShiftLeft(ALL_ONES, 124 + 3);
      { ShiftLeftAdds(ALL_ONES, 124, 3); }
      ShiftLeft(TOP_NIBBLE, 3);
      { ShiftLeftUnfold3(TOP_NIBBLE); }
      ShiftOne(ShiftOne(ShiftOne(TOP_NIBBLE)));
      TOP_BIT;
    }
  }

  const TOP_NIBBLE: Block := 0xf000_0000_0000_0000_0000_0000_0000_0000
  const TOP_BYTE: Block := 0xff00_0000_0000_0000_0000_0000_0000_0000

  lemma ShiftLeftUnfold3(x: Block)
    ensures ShiftLeft(x, 3) == ShiftOne(ShiftOne(ShiftOne(x)))
  {
    hide ShiftOne;
    assert ShiftLeft(x, 0) == x;
    assert ShiftLeft(x, 1) == ShiftOne(x);
    assert ShiftLeft(x, 2) == ShiftOne(ShiftOne(x));
  }

  lemma ShiftedTo124()
    ensures ShiftLeft(ALL_ONES, 124) == TOP_NIBBLE
  {
    hide ShiftLeft;
    ShiftedTo120();
    calc {
      ShiftLeft(ALL_ONES, 120 + 4);
      { ShiftLeftAdds(ALL_ONES, 120, 4); }
      ShiftLeft(TOP_BYTE, 4);
      { ShiftLeft4(TOP_BYTE); }
      TOP_BYTE << 4;
      TOP_NIBBLE;
    }
  }

  lemma ShiftedTo120()
    ensures ShiftLeft(ALL_ONES, 120) == TOP_BYTE
  {
    hide ShiftLeft;
    EncodingOfOnes(15);
    TopByteBytes();
    hide ToBytes;
    ShiftLeftBytes(ALL_ONES, 15);
    assert ToBytes(ShiftLeft(ALL_ONES, 8 * 15)) == ToBytes(TOP_BYTE);
    EqualBytes(ShiftLeft(ALL_ONES, 8 * 15), TOP_BYTE);
  }

  lemma TopByteBytes()
    ensures ToBytes(TOP_BYTE) == [0xff] + ZERO_BYTES[..15]
  {
    assert ToBytes2(0) == [0, 0];
    assert ToBytes2(0xff00) == [0xff, 0];
    assert ToBytes4(0) == [0, 0, 0, 0];
    assert ToBytes4(0xff00_0000) == [0xff, 0, 0, 0];
    assert ToBytes8(0) == [0, 0, 0, 0, 0, 0, 0, 0];
    assert ToBytes8(0xff00_0000_0000_0000) == [0xff, 0, 0, 0, 0, 0, 0, 0];
    hide ToBytes2, ToBytes4, ToBytes8;
  }

  lemma AppendIsInjective(x: Block, a: bool, y: Block, b: bool)
    requires And(x, TOP_BIT) == 0 && And(y, TOP_BIT) == 0
    requires AppendBit(x, a) == AppendBit(y, b)
    ensures x == y && a == b
  {}

  lemma {:induction false} PowerGrows(a: nat, b: nat)
    requires a <= b
    ensures PowerOfTwo(a) <= PowerOfTwo(b)
    decreases b - a
  {
    if a < b {
      PowerGrows(a + 1, b);
    }
  }

  lemma HalfFits(n: nat, width: nat)
    requires n < PowerOfTwo(width)
    ensures if width == 0 then n == 0 else n / 2 < PowerOfTwo(width - 1)
  {}

  // The top bit is free below 2^127.
  lemma TopBitFree(n: nat)
    requires n < PowerOfTwo(127)
    ensures And(FromIndex(n), TOP_BIT) == 0
  {
    hide And, FromIndex, ShiftLeft, PowerOfTwo;
    IndexFits(n, 127);
    ShiftedTo127();
  }

  lemma IndexStep(a: nat, b: nat)
    requires a / 2 < PowerOfTwo(127) && b / 2 < PowerOfTwo(127) && FromIndex(a) == FromIndex(b)
    ensures FromIndex(a / 2) == FromIndex(b / 2) && (a % 2 == 1 <==> b % 2 == 1)
  {
    hide And, FromIndex, AppendBit, PowerOfTwo;
    FromIndexStep(a);
    FromIndexStep(b);
    TopBitFree(a / 2);
    TopBitFree(b / 2);
    AppendIsInjective(FromIndex(a / 2), a % 2 == 1, FromIndex(b / 2), b % 2 == 1);
  }

  lemma {:induction false} IndexIsInjective(a: nat, b: nat, width: nat)
    requires width <= BLOCK_BITS && a < PowerOfTwo(width) && b < PowerOfTwo(width)
    requires FromIndex(a) == FromIndex(b)
    ensures a == b
    decreases width
  {
    hide FromIndex, PowerOfTwo;
    HalfFits(a, width);
    HalfFits(b, width);
    if width > 0 {
      PowerGrows(width - 1, 127);
      IndexStep(a, b);
      IndexIsInjective(a / 2, b / 2, width - 1);
    }
  }

  // -------------------------------------------------------------------------
  // The bits of an encoded integer
  // -------------------------------------------------------------------------

  lemma ZeroFits(a: Block, b: Block)
    requires And(a, b) == 0
    ensures And(ShiftOne(a), ShiftOne(b)) == 0
  {}

  lemma {:induction false} SingleBitFits(k: nat)
    ensures Fits(ShiftLeft(1, k), k + 1)
  {
    hide And, ShiftOne;
    if k == 0 {
      OneFits();
    } else {
      SingleBitFits(k - 1);
      ZeroFits(ShiftLeft(1, k - 1), ShiftLeft(ALL_ONES, k));
    }
  }

  lemma OneFits()
    ensures Fits(ShiftLeft(1, 0), 1)
  {
    assert ShiftLeft(1, 0) == 1;
    assert ShiftLeft(ALL_ONES, 1) == ShiftOne(ShiftLeft(ALL_ONES, 0)) == ShiftOne(ALL_ONES);
  }

  lemma ShrinkOne(a: Block, b: Block)
    requires And(a, b) == a
    ensures And(ShiftOne(a), ShiftOne(b)) == ShiftOne(a)
  {}

  lemma OnesShrink()
    ensures And(ShiftOne(ALL_ONES), ALL_ONES) == ShiftOne(ALL_ONES)
  {}

  lemma {:induction false} MaskShrinks(width: nat)
    ensures And(ShiftLeft(ALL_ONES, width + 1), ShiftLeft(ALL_ONES, width)) == ShiftLeft(ALL_ONES, width + 1)
  {
    hide And, ShiftOne;
    OnesShrink();
    if width > 0 {
      MaskShrinks(width - 1);
      ShrinkOne(ShiftLeft(ALL_ONES, width), ShiftLeft(ALL_ONES, width - 1));
    } else {
      assert ShiftLeft(ALL_ONES, 0) == ALL_ONES;
    }
  }

  lemma SmallerMask(x: Block, small: Block, large: Block)
    requires And(small, large) == small && And(x, large) == 0
    ensures And(x, small) == 0
  {}

  lemma {:induction false} FitsWider(x: Block, a: nat, b: nat)
    requires Fits(x, a) && a <= b
    ensures Fits(x, b)
  {
    hide And, ShiftLeft;
    if a < b {
      FitsWider(x, a, b - 1);
      MaskShrinks(b - 1);
      SmallerMask(x, ShiftLeft(ALL_ONES, b), ShiftLeft(ALL_ONES, b - 1));
    }
  }

  lemma AppendedBit(x: Block, bit: bool, mask: Block)
    requires And(mask, TOP_BIT) == 0
    ensures And(AppendBit(x, bit), ShiftOne(mask)) != 0 <==> And(x, mask) != 0
  {}

  lemma LastBit(x: Block, bit: bool)
    ensures And(AppendBit(x, bit), 1) != 0 <==> bit
  {}

  // Bit k of the encoding, counted from the last, is bit k of the integer.
  lemma {:induction false} IndexBit(n: nat, k: nat)
    requires k < BLOCK_BITS
    ensures And(FromIndex(n), ShiftLeft(1, k)) != 0 <==> BitSet(n, k)
  {
    hide And, ShiftOne, FromIndex, AppendBit;
    FromIndexStep(n);
    if k == 0 {
      NoShift();
      LastBit(FromIndex(n / 2), n % 2 == 1);
    } else {
      IndexBit(n / 2, k - 1);
      SingleBitFits(k - 1);
      FitsWider(ShiftLeft(1, k - 1), k, 127);
      ShiftedTo127();
      AppendedBit(FromIndex(n / 2), n % 2 == 1, ShiftLeft(1, k - 1));
    }
  }

  lemma NoShift()
    ensures ShiftLeft(1, 0) == 1
  {}
}
