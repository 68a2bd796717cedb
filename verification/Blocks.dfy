/** 128-bit blocks: the byte encoding, the xor and padding operations, and the bit masks
    (crates/aez/src/block.rs). The field multiplications are in Field. */
module Blocks {
  type byte = bv8
  type Block = bv128

  const BLOCK_BYTES: nat := 16
  const BLOCK_BITS: nat := 128
  const ALL_ONES: Block := 0xffff_ffff_ffff_ffff_ffff_ffff_ffff_ffff

  // The string 1 0^127.
  const TOP_BIT: Block := 0x8000_0000_0000_0000_0000_0000_0000_0000

  /** Addition in GF(2^128). */
  function Xor(x: Block, y: Block): Block {
    x ^ y
  }

  lemma XorCommutes(x: Block, y: Block)
    ensures Xor(x, y) == Xor(y, x)
  {}

  lemma XorAssociates(x: Block, y: Block, z: Block)
    ensures Xor(Xor(x, y), z) == Xor(x, Xor(y, z))
  {
    calc {
      Xor(Xor(x, y), z);
      Xor(x ^ y, z);
      (x ^ y) ^ z;
      x ^ (y ^ z);
      Xor(x, y ^ z);
      Xor(x, Xor(y, z));
    }
  }

  lemma XorUnit(x: Block)
    ensures Xor(x, 0) == x && Xor(0, x) == x && Xor(x, x) == 0
  {}

  lemma XorCancels(x: Block, y: Block)
    ensures Xor(Xor(x, y), y) == x
  {
    hide Xor;
    XorAssociates(x, y, y);
    XorUnit(x);
    XorUnit(y);
  }

  lemma XorZero(x: Block, y: Block)
    requires Xor(x, y) == 0
    ensures x == y
  {
    hide Xor;
    XorCancels(x, y);
    XorUnit(y);
  }

  lemma XorSwap(a: Block, b: Block, c: Block)
    ensures Xor(Xor(a, b), c) == Xor(Xor(a, c), b)
  {
    hide Xor;
    XorAssociates(a, b, c);
    XorAssociates(a, c, b);
    XorCommutes(b, c);
  }

  lemma XorMedial(a: Block, b: Block, c: Block, d: Block)
    ensures Xor(Xor(a, b), Xor(c, d)) == Xor(Xor(a, c), Xor(b, d))
  {
    hide Xor;
    XorAssociates(Xor(a, b), c, d);
    XorAssociates(Xor(a, c), b, d);
    XorSwap(a, b, c);
  }

  // -------------------------------------------------------------------------
  // Big-endian encoding, by halving: a word is its high half followed by its low half.
  // -------------------------------------------------------------------------

  function Join16(high: bv8, low: bv8): bv16 { (high as bv16 << 8) | low as bv16 }
  function Join32(high: bv16, low: bv16): bv32 { (high as bv32 << 16) | low as bv32 }
  function Join64(high: bv32, low: bv32): bv64 { (high as bv64 << 32) | low as bv64 }
  function Join128(high: bv64, low: bv64): bv128 { (high as bv128 << 64) | low as bv128 }

  function High16(x: bv16): bv8 { (x >> 8) as bv8 }
  function Low16(x: bv16): bv8 { (x & 0xff) as bv8 }
  function High32(x: bv32): bv16 { (x >> 16) as bv16 }
  function Low32(x: bv32): bv16 { (x & 0xffff) as bv16 }
  function High64(x: bv64): bv32 { (x >> 32) as bv32 }
  function Low64(x: bv64): bv32 { (x & 0xffff_ffff) as bv32 }
  function High128(x: bv128): bv64 { (x >> 64) as bv64 }
  function Low128(x: bv128): bv64 { (x & 0xffff_ffff_ffff_ffff) as bv64 }

  lemma Halves16(x: bv16, high: bv8, low: bv8)
    ensures Join16(High16(x), Low16(x)) == x
    ensures High16(Join16(high, low)) == high && Low16(Join16(high, low)) == low
  {}

  lemma Halves32(x: bv32, high: bv16, low: bv16)
    ensures Join32(High32(x), Low32(x)) == x
    ensures High32(Join32(high, low)) == high && Low32(Join32(high, low)) == low
  {}

  lemma Halves64(x: bv64, high: bv32, low: bv32)
    ensures Join64(High64(x), Low64(x)) == x
    ensures High64(Join64(high, low)) == high && Low64(Join64(high, low)) == low
  {}

  lemma Halves128(x: bv128, high: bv64, low: bv64)
    ensures Join128(High128(x), Low128(x)) == x
    ensures High128(Join128(high, low)) == high && Low128(Join128(high, low)) == low
  {}

  function FromBytes2(bytes: seq<byte>): bv16
    requires |bytes| == 2
  {
    Join16(bytes[0], bytes[1])
  }

  function FromBytes4(bytes: seq<byte>): bv32
    requires |bytes| == 4
  {
    Join32(FromBytes2(bytes[..2]), FromBytes2(bytes[2..]))
  }

  function FromBytes8(bytes: seq<byte>): bv64
    requires |bytes| == 8
  {
    Join64(FromBytes4(bytes[..4]), FromBytes4(bytes[4..]))
  }

  function FromBytes(bytes: seq<byte>): Block
    requires |bytes| == BLOCK_BYTES
  {
    Join128(FromBytes8(bytes[..8]), FromBytes8(bytes[8..]))
  }

  function ToBytes2(x: bv16): (bytes: seq<byte>)
    ensures |bytes| == 2
  {
    [High16(x), Low16(x)]
  }

  function ToBytes4(x: bv32): (bytes: seq<byte>)
    ensures |bytes| == 4
  {
    ToBytes2(High32(x)) + ToBytes2(Low32(x))
  }

  function ToBytes8(x: bv64): (bytes: seq<byte>)
    ensures |bytes| == 8
  {
    ToBytes4(High64(x)) + ToBytes4(Low64(x))
  }

  function ToBytes(x: Block): (bytes: seq<byte>)
    ensures |bytes| == BLOCK_BYTES
  {
    ToBytes8(High128(x)) + ToBytes8(Low128(x))
  }

  lemma RoundTrip2(x: bv16, b: seq<byte>)
    requires |b| == 2
    ensures FromBytes2(ToBytes2(x)) == x
    ensures ToBytes2(FromBytes2(b)) == b
  {
    hide Join16, High16, Low16;
    Halves16(x, b[0], b[1]);
  }

  lemma RoundTrip4(x: bv32, b: seq<byte>)
    requires |b| == 4
    ensures FromBytes4(ToBytes4(x)) == x
    ensures ToBytes4(FromBytes4(b)) == b
  {
    hide FromBytes2, ToBytes2, Join32, High32, Low32;
    Halves32(x, FromBytes2(b[..2]), FromBytes2(b[2..]));
    RoundTrip2(High32(x), b[..2]);
    RoundTrip2(Low32(x), b[2..]);
    assert ToBytes4(x)[..2] == ToBytes2(High32(x)) && ToBytes4(x)[2..] == ToBytes2(Low32(x));
    assert b == b[..2] + b[2..];
  }

  lemma RoundTrip8(x: bv64, b: seq<byte>)
    requires |b| == 8
    ensures FromBytes8(ToBytes8(x)) == x
    ensures ToBytes8(FromBytes8(b)) == b
  {
    hide FromBytes4, ToBytes4, Join64, High64, Low64;
    Halves64(x, FromBytes4(b[..4]), FromBytes4(b[4..]));
    RoundTrip4(High64(x), b[..4]);
    RoundTrip4(Low64(x), b[4..]);
    assert ToBytes8(x)[..4] == ToBytes4(High64(x)) && ToBytes8(x)[4..] == ToBytes4(Low64(x));
    assert b == b[..4] + b[4..];
  }

  lemma RoundTrip(x: Block, b: seq<byte>)
    requires |b| == BLOCK_BYTES
    ensures FromBytes(ToBytes(x)) == x
    ensures ToBytes(FromBytes(b)) == b
  {
    hide FromBytes8, ToBytes8, Join128, High128, Low128;
    Halves128(x, FromBytes8(b[..8]), FromBytes8(b[8..]));
    RoundTrip8(High128(x), b[..8]);
    RoundTrip8(Low128(x), b[8..]);
    assert ToBytes(x)[..8] == ToBytes8(High128(x)) && ToBytes(x)[8..] == ToBytes8(Low128(x));
    assert b == b[..8] + b[8..];
  }

  // Unequal encodings come from unequal blocks, and conversely.
  lemma EqualBytes(x: Block, y: Block)
    requires ToBytes(x) == ToBytes(y)
    ensures x == y
  {
    hide ToBytes, FromBytes;
    RoundTrip(x, ToBytes(x));
    RoundTrip(y, ToBytes(y));
  }

  lemma ToBytesOfZero()
    ensures forall k | 0 <= k < BLOCK_BYTES :: ToBytes(0)[k] == 0
  {
    assert ToBytes2(0) == [0, 0];
    assert ToBytes4(0) == [0, 0, 0, 0];
    assert ToBytes8(0) == [0, 0, 0, 0, 0, 0, 0, 0];
  }

  // -------------------------------------------------------------------------
  // Bitwise operations act byte by byte
  // -------------------------------------------------------------------------

  function XorBytes(s: seq<byte>, t: seq<byte>): (result: seq<byte>)
    requires |s| == |t|
    ensures |result| == |s|
  {
    seq(|s|, k requires 0 <= k < |s| => s[k] ^ t[k])
  }

  function AndBytes(s: seq<byte>, t: seq<byte>): (result: seq<byte>)
    requires |s| == |t|
    ensures |result| == |s|
  {
    seq(|s|, k requires 0 <= k < |s| => s[k] & t[k])
  }

  lemma XorBytesConcat(a: seq<byte>, b: seq<byte>, c: seq<byte>, d: seq<byte>)
    requires |a| == |c| && |b| == |d|
    ensures XorBytes(a + b, c + d) == XorBytes(a, c) + XorBytes(b, d)
  {}

  lemma XorHigh16(x: bv16, y: bv16)
    ensures High16(x ^ y) == High16(x) ^ High16(y)
  {}

  lemma XorLow16(x: bv16, y: bv16)
    ensures Low16(x ^ y) == Low16(x) ^ Low16(y)
  {}

  lemma XorHigh32(x: bv32, y: bv32)
    ensures High32(x ^ y) == High32(x) ^ High32(y)
  {}

  lemma XorLow32(x: bv32, y: bv32)
    ensures Low32(x ^ y) == Low32(x) ^ Low32(y)
  {}

  lemma XorHigh64(x: bv64, y: bv64)
    ensures High64(x ^ y) == High64(x) ^ High64(y)
  {}

  lemma XorLow64(x: bv64, y: bv64)
    ensures Low64(x ^ y) == Low64(x) ^ Low64(y)
  {}

  lemma XorHigh128(x: bv128, y: bv128)
    ensures High128(x ^ y) == High128(x) ^ High128(y)
  {}

  lemma XorLow128(x: bv128, y: bv128)
    ensures Low128(x ^ y) == Low128(x) ^ Low128(y)
  {}

  lemma XorEncoding2(x: bv16, y: bv16)
    ensures ToBytes2(x ^ y) == XorBytes(ToBytes2(x), ToBytes2(y))
  {
    hide High16, Low16;
    XorHigh16(x, y);
    XorLow16(x, y);
  }

  lemma XorEncoding4(x: bv32, y: bv32)
    ensures ToBytes4(x ^ y) == XorBytes(ToBytes4(x), ToBytes4(y))
  {
    hide High32, Low32, ToBytes2, XorBytes;
    XorHigh32(x, y);
    XorLow32(x, y);
    XorEncoding2(High32(x), High32(y));
    XorEncoding2(Low32(x), Low32(y));
    XorBytesConcat(ToBytes2(High32(x)), ToBytes2(Low32(x)), ToBytes2(High32(y)), ToBytes2(Low32(y)));
  }

  lemma XorEncoding8(x: bv64, y: bv64)
    ensures ToBytes8(x ^ y) == XorBytes(ToBytes8(x), ToBytes8(y))
  {
    hide High64, Low64, ToBytes4, XorBytes;
    XorHigh64(x, y);
    XorLow64(x, y);
    XorEncoding4(High64(x), High64(y));
    XorEncoding4(Low64(x), Low64(y));
    XorBytesConcat(ToBytes4(High64(x)), ToBytes4(Low64(x)), ToBytes4(High64(y)), ToBytes4(Low64(y)));
  }

  // Xor of blocks is xor of their encodings.
  lemma XorEncoding(x: Block, y: Block)
    ensures ToBytes(Xor(x, y)) == XorBytes(ToBytes(x), ToBytes(y))
  {
    hide ToBytes, XorBytes;
    XorEncoding16(x, y);
  }

  lemma XorEncoding16(x: Block, y: Block)
    ensures ToBytes(x ^ y) == XorBytes(ToBytes(x), ToBytes(y))
  {
    hide High128, Low128, ToBytes8, XorBytes;
    XorHigh128(x, y);
    XorLow128(x, y);
    XorEncoding8(High128(x), High128(y));
    XorEncoding8(Low128(x), Low128(y));
    XorBytesConcat(ToBytes8(High128(x)), ToBytes8(Low128(x)), ToBytes8(High128(y)), ToBytes8(Low128(y)));
  }

  lemma AndBytesConcat(a: seq<byte>, b: seq<byte>, c: seq<byte>, d: seq<byte>)
    requires |a| == |c| && |b| == |d|
    ensures AndBytes(a + b, c + d) == AndBytes(a, c) + AndBytes(b, d)
  {}

  lemma AndHigh16(x: bv16, y: bv16)
    ensures High16(x & y) == High16(x) & High16(y)
  {}

  lemma AndLow16(x: bv16, y: bv16)
    ensures Low16(x & y) == Low16(x) & Low16(y)
  {}

  lemma AndHigh32(x: bv32, y: bv32)
    ensures High32(x & y) == High32(x) & High32(y)
  {}

  lemma AndLow32(x: bv32, y: bv32)
    ensures Low32(x & y) == Low32(x) & Low32(y)
  {}

  lemma AndHigh64(x: bv64, y: bv64)
    ensures High64(x & y) == High64(x) & High64(y)
  {}

  lemma AndLow64(x: bv64, y: bv64)
    ensures Low64(x & y) == Low64(x) & Low64(y)
  {}

  lemma AndHigh128(x: bv128, y: bv128)
    ensures High128(x & y) == High128(x) & High128(y)
  {}

  lemma AndLow128(x: bv128, y: bv128)
    ensures Low128(x & y) == Low128(x) & Low128(y)
  {}

  lemma AndEncoding2(x: bv16, y: bv16)
    ensures ToBytes2(x & y) == AndBytes(ToBytes2(x), ToBytes2(y))
  {
    hide High16, Low16;
    AndHigh16(x, y);
    AndLow16(x, y);
  }

  lemma AndEncoding4(x: bv32, y: bv32)
    ensures ToBytes4(x & y) == AndBytes(ToBytes4(x), ToBytes4(y))
  {
    hide High32, Low32, ToBytes2, AndBytes;
    AndHigh32(x, y);
    AndLow32(x, y);
    AndEncoding2(High32(x), High32(y));
    AndEncoding2(Low32(x), Low32(y));
    AndBytesConcat(ToBytes2(High32(x)), ToBytes2(Low32(x)), ToBytes2(High32(y)), ToBytes2(Low32(y)));
  }

  lemma AndEncoding8(x: bv64, y: bv64)
    ensures ToBytes8(x & y) == AndBytes(ToBytes8(x), ToBytes8(y))
  {
    hide High64, Low64, ToBytes4, AndBytes;
    AndHigh64(x, y);
    AndLow64(x, y);
    AndEncoding4(High64(x), High64(y));
    AndEncoding4(Low64(x), Low64(y));
    AndBytesConcat(ToBytes4(High64(x)), ToBytes4(Low64(x)), ToBytes4(High64(y)), ToBytes4(Low64(y)));
  }

  lemma AndEncoding(x: Block, y: Block)
    ensures ToBytes(x & y) == AndBytes(ToBytes(x), ToBytes(y))
  {
    hide High128, Low128, ToBytes8, AndBytes;
    AndHigh128(x, y);
    AndLow128(x, y);
    AndEncoding8(High128(x), High128(y));
    AndEncoding8(Low128(x), Low128(y));
    AndBytesConcat(ToBytes8(High128(x)), ToBytes8(Low128(x)), ToBytes8(High128(y)), ToBytes8(Low128(y)));
  }

  // -------------------------------------------------------------------------
  // Shifting left by one byte drops the first byte of the encoding
  // -------------------------------------------------------------------------

  lemma SlideConcat(s: seq<byte>, t: seq<byte>, b: byte)
    requires |s| > 0 && |t| > 0
    ensures (s[1..] + [t[0]]) + (t[1..] + [b]) == (s + t)[1..] + [b]
  {}

  lemma ShiftIn2(x: bv16, b: byte)
    ensures ToBytes2((x << 8) | b as bv16) == ToBytes2(x)[1..] + [b]
  {
    assert High16((x << 8) | b as bv16) == Low16(x);
    assert Low16((x << 8) | b as bv16) == b;
    hide High16, Low16;
  }

  lemma FirstByte2(x: bv16)
    ensures ToBytes2(x)[0] == (x >> 8) as byte
  {
    hide Low16;
  }

  lemma TopByte32(x: bv32, b: byte)
    ensures High32((x << 8) | b as bv32) == (High32(x) << 8) | ((Low32(x) >> 8) as byte as bv16)
    ensures Low32((x << 8) | b as bv32) == (Low32(x) << 8) | b as bv16
  {}

  lemma ShiftIn4(x: bv32, b: byte)
    ensures ToBytes4((x << 8) | b as bv32) == ToBytes4(x)[1..] + [b]
  {
    hide High32, Low32, ToBytes2;
    TopByte32(x, b);
    FirstByte2(Low32(x));
    ShiftIn2(High32(x), (Low32(x) >> 8) as byte);
    ShiftIn2(Low32(x), b);
    SlideConcat(ToBytes2(High32(x)), ToBytes2(Low32(x)), b);
  }

  lemma FirstByte4(x: bv32)
    ensures ToBytes4(x)[0] == (x >> 24) as byte
  {
    FirstByte2(High32(x));
    assert (High32(x) >> 8) as byte == (x >> 24) as byte;
    hide High32, Low32, ToBytes2;
  }

  lemma TopByte64(x: bv64, b: byte)
    ensures High64((x << 8) | b as bv64) == (High64(x) << 8) | ((Low64(x) >> 24) as byte as bv32)
    ensures Low64((x << 8) | b as bv64) == (Low64(x) << 8) | b as bv32
  {}

  lemma ShiftIn8(x: bv64, b: byte)
    ensures ToBytes8((x << 8) | b as bv64) == ToBytes8(x)[1..] + [b]
  {
    hide High64, Low64, ToBytes4;
    TopByte64(x, b);
    FirstByte4(Low64(x));
    ShiftIn4(High64(x), (Low64(x) >> 24) as byte);
    ShiftIn4(Low64(x), b);
    SlideConcat(ToBytes4(High64(x)), ToBytes4(Low64(x)), b);
  }

  lemma FirstByte8(x: bv64)
    ensures ToBytes8(x)[0] == (x >> 56) as byte
  {
    FirstByte4(High64(x));
    assert (High64(x) >> 24) as byte == (x >> 56) as byte;
    hide High64, Low64, ToBytes4;
  }

  lemma TopByte128(x: Block, b: byte)
    ensures High128((x << 8) | b as Block) == (High128(x) << 8) | ((Low128(x) >> 56) as byte as bv64)
    ensures Low128((x << 8) | b as Block) == (Low128(x) << 8) | b as bv64
  {}

  lemma ShiftIn(x: Block, b: byte)
    ensures ToBytes((x << 8) | b as Block) == ToBytes(x)[1..] + [b]
  {
    hide High128, Low128, ToBytes8;
    TopByte128(x, b);
    FirstByte8(Low128(x));
    ShiftIn8(High128(x), (Low128(x) >> 56) as byte);
    ShiftIn8(Low128(x), b);
    SlideConcat(ToBytes8(High128(x)), ToBytes8(Low128(x)), b);
  }

  lemma FirstByte(x: Block)
    ensures ToBytes(x)[0] == (x >> 120) as byte
  {
    FirstByte8(High128(x));
    assert (High128(x) >> 56) as byte == (x >> 120) as byte;
    hide High128, Low128, ToBytes8;
  }

  // -------------------------------------------------------------------------
  // Masks and padding
  // -------------------------------------------------------------------------

  function ShiftOne(x: Block): Block {
    x << 1
  }

  function And(x: Block, y: Block): Block {
    x & y
  }

  function Or(x: Block, y: Block): Block {
    x | y
  }

  /** `count` single-bit left shifts; zero from 128 on. */
  function ShiftLeft(x: Block, count: nat): Block {
    if count == 0 then x else ShiftOne(ShiftLeft(x, count - 1))
  }

  function ShiftOneRight(x: Block): Block {
    x >> 1
  }

  /** `count` single-bit right shifts; zero from 128 on. */
  function ShiftRight(x: Block, count: nat): Block {
    if count == 0 then x else ShiftOneRight(ShiftRight(x, count - 1))
  }

  /** The block whose only set bit is at `position`, 0 being the leading bit; zero from 128 on. */
  function BitAt(position: nat): Block {
    if position < BLOCK_BITS then ShiftRight(TOP_BIT, position) else 0
  }

  /** The block 1^bits 0^(128 - bits); all ones from 128 on. */
  function LeadingOnes(bits: nat): Block {
    var zeros := if bits < BLOCK_BITS then BLOCK_BITS - bits else 0;
    if zeros < BLOCK_BITS then ShiftLeft(ALL_ONES, zeros) else 0
  }

  /** The first `bits` bits of `x`, followed by zeros. */
  function Truncate(x: Block, bits: nat): Block {
    And(x, LeadingOnes(bits))
  }

  /** `x` with the padding bit 1 set after its first `bits` bits. */
  function PadBits(x: Block, bits: nat): Block {
    Or(x, BitAt(bits))
  }

  function AppendBit(x: Block, bit: bool): Block {
    (x << 1) | (if bit then 1 else 0)
  }

  /** The integer `index` modulo 2^128 as a big-endian string. */
  function FromIndex(index: nat): Block {
    if index == 0 then 0 else AppendBit(FromIndex(index / 2), index % 2 == 1)
  }

  /** The first min(16, |prefix|) bytes of `prefix`, zero-extended to a block. */
  function ZeroExtended(prefix: seq<byte>): (bytes: seq<byte>)
    ensures |bytes| == BLOCK_BYTES
  {
    seq(BLOCK_BYTES, k => if 0 <= k < |prefix| then prefix[k] else 0)
  }

  function FromPrefix(prefix: seq<byte>): Block {
    FromBytes(ZeroExtended(prefix))
  }

  /** `partial` followed by one 1 bit and zeros; a full block is unchanged. */
  function Padded(partial: seq<byte>): Block {
    Or(FromPrefix(partial), BitAt(8 * |partial|))
  }

  /** `target` with `source` xored into its first bytes. */
  function XorPrefix(source: seq<byte>, target: seq<byte>): (result: seq<byte>)
    ensures |result| == |target|
  {
    seq(|target|, k requires 0 <= k < |target| => if k < |source| then target[k] ^ source[k] else target[k])
  }

  /** `target` with the encoding of `x` xored into its first min(16, |target|) bytes. */
  function XorInto(x: Block, target: seq<byte>): (result: seq<byte>)
    ensures |result| == |target|
  {
    XorPrefix(ToBytes(x), target)
  }

  lemma XorIntoTwice(x: Block, target: seq<byte>)
    ensures XorInto(x, XorInto(x, target)) == target
  {
    hide ToBytes;
  }
}
