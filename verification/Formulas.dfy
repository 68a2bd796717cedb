/** The notation of AEZ v5, section 3: the xor of a list of blocks, and a string followed by 10*. */
module Formulas {
  import opened Blocks
  import opened Nibbles
  import Padding

  /** The xor of all blocks of a list. */
  function XorAll(blocks: seq<Block>): Block {
    if blocks == [] then 0 else Xor(blocks[0], XorAll(blocks[1..]))
  }

  /** X10*, for a string shorter than a block. */
  function TenStar(text: seq<byte>): Block
    requires |text| < BLOCK_BYTES
  {
    FromBytes(text + [0x80] + ZERO_BYTES[..15 - |text|])
  }

  lemma PaddedIsTenStar(text: seq<byte>)
    requires |text| < BLOCK_BYTES
    ensures Padded(text) == TenStar(text)
  {
    hide Padded, ToBytes, FromBytes;
    Padding.PaddedBytes(text);
    RoundTrip(0, text + [0x80] + ZERO_BYTES[..15 - |text|]);
    EqualBytes(Padded(text), TenStar(text));
  }

  lemma {:induction false} XorAllSnoc(blocks: seq<Block>, last: Block)
    ensures XorAll(blocks + [last]) == Xor(XorAll(blocks), last)
  {
    hide Xor;
    if blocks == [] {
      assert [last][1..] == [];
      XorUnit(last);
    } else {
      assert (blocks + [last])[1..] == blocks[1..] + [last];
      XorAllSnoc(blocks[1..], last);
      XorAssociates(blocks[0], XorAll(blocks[1..]), last);
    }
  }

  // Replacing one block changes the sum by the xor of the old and the new one.
  lemma {:induction false} XorAllUpdate(blocks: seq<Block>, k: nat, block: Block)
    requires k < |blocks|
    ensures XorAll(blocks[k := block]) == Xor(XorAll(blocks), Xor(blocks[k], block))
  {
    hide Xor;
    var rest := XorAll(blocks[1..]);
    if k == 0 {
      assert blocks[0 := block][1..] == blocks[1..];
      Exchange(blocks[0], rest, block);
    } else {
      assert blocks[k := block][1..] == blocks[1..][k - 1 := block];
      XorAllUpdate(blocks[1..], k - 1, block);
      XorAssociates(blocks[0], rest, Xor(blocks[k], block));
    }
  }

  lemma Exchange(x: Block, rest: Block, y: Block)
    ensures Xor(y, rest) == Xor(Xor(x, rest), Xor(x, y))
  {
    hide Xor;
    XorMedial(x, rest, x, y);
    XorUnit(x);
    XorUnit(Xor(rest, y));
    XorCommutes(rest, y);
  }
}
