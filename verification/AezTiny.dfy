/** AEZ-tiny: the enciphering scheme for strings of 1 to 31 bytes, AEZ v5, section 3
    (crates/aez/src/aez_tiny.rs). */
module AezTiny {
  import opened Blocks
  import opened Buffers
  import opened Nibbles
  import opened Tbc
  import opened Directions

  const FIRST_BIT_COLUMN: nat := 3
  const BLOCK_COLUMN: nat := 6
  const SUB_BLOCK_COLUMN: nat := 7

  function RoundCount(length: nat): nat {
    match length
    case 1 => 24
    case 2 => 16
    case _ => if 3 <= length < BLOCK_BYTES then 10 else 8
  }

  datatype Halves = Halves(left: Block, right: Block)

  /** One Feistel network: the key, the tweak digest, nibbles per half, and the column of E. */
  datatype Feistel = Feistel(keys: Subkeys, delta: Block, halfNibbles: nat, column: nat) {
    function RoundFunction(right: Block, index: nat): Block {
      var bits := 4 * halfNibbles;
      Truncate(E(keys, 0, column, Xor(Xor(delta, PadBits(right, bits)), FromIndex(index))), bits)
    }

    function Round(halves: Halves, index: nat): Halves {
      Halves(halves.right, Xor(halves.left, RoundFunction(halves.right, index)))
    }

    function Fold(halves: Halves, indices: seq<nat>): Halves
      decreases |indices|
    {
      if indices == [] then halves else Fold(Round(halves, indices[0]), indices[1..])
    }

    /** The text whose halves are those of `text` after the rounds, written right half first. */
    function Run(text: seq<byte>, indices: seq<nat>): (result: seq<byte>)
      ensures |result| == |text|
    {
      var n := halfNibbles;
      var halves := Fold(Halves(Take(text, 0, n), Take(text, n, n)), indices);
      Put(Put(text, 0, n, ToBytes(halves.right)), n, n, ToBytes(halves.left))
    }

    /** Run, in place. */
    method RunInPlace(text: array<byte>, indices: seq<nat>)
      modifies text
      ensures text[..] == Run(old(text[..]), indices)
    {
      hide Take, Taken, Put, ToBytes, RoundFunction;
      ghost var before := text[..];
      var n := halfNibbles;
      var left := TakeNibbles(text, 0, n);
      var right := TakeNibbles(text, n, n);
      ghost var start := Halves(left, right);
      for k := 0 to |indices|
        invariant Fold(Halves(left, right), indices[k..]) == Fold(start, indices)
      {
        left, right := right, Xor(left, RoundFunction(right, indices[k]));
        assert indices[k..][1..] == indices[k + 1..];
      }
      PutNibbles(text, 0, n, right);
      PutNibbles(text, n, n, left);
    }
  }

  function FeistelOf(keys: Subkeys, delta: Block, length: nat): Feistel {
    Feistel(keys, delta, length, if length < BLOCK_BYTES then SUB_BLOCK_COLUMN else BLOCK_COLUMN)
  }

  /** The correction of the first bit of a text shorter than a block. */
  function FirstBitMask(keys: Subkeys, delta: Block, text: seq<byte>): Block {
    And(E(keys, 0, FIRST_BIT_COLUMN, Xor(delta, Or(FromPrefix(text), TOP_BIT))), TOP_BIT)
  }

  function CorrectFirstBit(keys: Subkeys, delta: Block, text: seq<byte>): (result: seq<byte>)
    ensures |result| == |text|
  {
    XorInto(FirstBitMask(keys, delta, text), text)
  }

  function Range(count: nat): seq<nat> {
    seq(count, k => k)
  }

  function Reverse(s: seq<nat>): (result: seq<nat>)
    ensures |result| == |s|
  {
    seq(|s|, k requires 0 <= k < |s| => s[|s| - 1 - k])
  }

  /** AEZ-tiny on byte strings. */
  function TinyBytes(keys: Subkeys, delta: Block, direction: Direction, text: seq<byte>): (result: seq<byte>)
    ensures |result| == |text|
  {
    var feistel := FeistelOf(keys, delta, |text|);
    var rounds := Range(RoundCount(|text|));
    var subBlock := |text| < BLOCK_BYTES;
    match direction
    case Encipher =>
      var run := feistel.Run(text, rounds);
      if subBlock then CorrectFirstBit(keys, delta, run) else run
    case Decipher =>
      feistel.Run(if subBlock then CorrectFirstBit(keys, delta, text) else text, Reverse(rounds))
  }

  // -------------------------------------------------------------------------
  // The Feistel network, run with its indices reversed, undoes itself after the half swap
  // -------------------------------------------------------------------------

  function Swap(halves: Halves): Halves {
    Halves(halves.right, halves.left)
  }

  lemma RoundOfSwap(feistel: Feistel, halves: Halves, index: nat)
    ensures feistel.Round(Swap(feistel.Round(halves, index)), index) == Swap(halves)
  {
    var mask := feistel.RoundFunction(halves.right, index);
    XorTwice(halves.left, mask);
  }

  lemma XorTwice(x: Block, mask: Block)
    ensures Xor(Xor(x, mask), mask) == x
  {
    hide Xor;
    XorCancels(x, mask);
  }

  lemma {:induction false} FoldSnoc(feistel: Feistel, halves: Halves, indices: seq<nat>, last: nat)
    ensures feistel.Fold(halves, indices + [last]) == feistel.Round(feistel.Fold(halves, indices), last)
    decreases |indices|
  {
    if indices == [] {
      assert feistel.Fold(halves, [last]) == feistel.Fold(feistel.Round(halves, last), []);
    } else {
      assert (indices + [last])[1..] == indices[1..] + [last];
      FoldSnoc(feistel, feistel.Round(halves, indices[0]), indices[1..], last);
    }
  }

  lemma {:induction false} FoldOfSwap(feistel: Feistel, halves: Halves, indices: seq<nat>)
    ensures feistel.Fold(Swap(feistel.Fold(halves, indices)), Reverse(indices)) == Swap(halves)
    decreases |indices|
  {
    if indices != [] {
      var next := feistel.Round(halves, indices[0]);
      var turned := Swap(feistel.Fold(halves, indices));
      FoldOfSwap(feistel, next, indices[1..]);
      assert Reverse(indices) == Reverse(indices[1..]) + [indices[0]];
      FoldSnoc(feistel, turned, Reverse(indices[1..]), indices[0]);
      RoundOfSwap(feistel, halves, indices[0]);
    }
  }

  // The rounds keep both halves zero beyond their nibbles.
  lemma {:induction false} FoldKeepsTails(feistel: Feistel, halves: Halves, indices: seq<nat>)
    requires feistel.halfNibbles <= 32
    requires ZeroTail(halves.left, feistel.halfNibbles) && ZeroTail(halves.right, feistel.halfNibbles)
    ensures var result := feistel.Fold(halves, indices);
            ZeroTail(result.left, feistel.halfNibbles) && ZeroTail(result.right, feistel.halfNibbles)
    decreases |indices|
  {
    hide ZeroTail;
    if indices != [] {
      RoundKeepsTails(feistel, halves, indices[0]);
      FoldKeepsTails(feistel, feistel.Round(halves, indices[0]), indices[1..]);
    }
  }

  lemma RoundKeepsTails(feistel: Feistel, halves: Halves, index: nat)
    requires feistel.halfNibbles <= 32
    requires ZeroTail(halves.left, feistel.halfNibbles) && ZeroTail(halves.right, feistel.halfNibbles)
    ensures var result := feistel.Round(halves, index);
            ZeroTail(result.left, feistel.halfNibbles) && ZeroTail(result.right, feistel.halfNibbles)
  {
    hide ZeroTail, Xor, Truncate, E, PadBits, FromIndex;
    var bits := 4 * feistel.halfNibbles;
    TruncateHasZeroTail(E(feistel.keys, 0, feistel.column,
                          Xor(Xor(feistel.delta, PadBits(halves.right, bits)), FromIndex(index))),
                        feistel.halfNibbles);
    XorHasZeroTail(halves.left, feistel.RoundFunction(halves.right, index), feistel.halfNibbles);
  }

  // Writing two halves into a text and taking them back is exact, and conversely.
  function PutHalves(text: seq<byte>, first: seq<byte>, second: seq<byte>): (result: seq<byte>)
    ensures |result| == |text|
  {
    Put(Put(text, 0, |text|, first), |text|, |text|, second)
  }

  lemma NibbleOfHalves(text: seq<byte>, first: seq<byte>, second: seq<byte>, k: nat)
    requires k < 2 * |text|
    ensures Nibble(PutHalves(text, first, second), k)
         == if k < |text| then Nibble(first, k) else Nibble(second, k - |text|)
  {
    hide Nibble, Put;
    NibbleOfPut(Put(text, 0, |text|, first), |text|, |text|, second, k);
    NibbleOfPut(text, 0, |text|, first, k);
  }

  lemma TakeIs(text: seq<byte>, start: nat, count: nat, block: Block)
    requires count <= 32 && ZeroTail(block, count)
    requires forall k | 0 <= k < count :: Nibble(text, start + k) == Nibble(ToBytes(block), k)
    ensures Take(text, start, count) == block
  {
    hide ToBytes, FromBytes, Nibble, Taken;
    RoundTrip(block, Taken(text, start, count));
    forall k | 0 <= k < 32
      ensures Nibble(Taken(text, start, count), k) == Nibble(ToBytes(block), k)
    {
      NibbleOfTaken(text, start, count, k);
    }
    EqualNibbles(Taken(text, start, count), ToBytes(block));
  }

  lemma TakeOfPut(text: seq<byte>, left: Block, right: Block)
    requires |text| <= 32 && ZeroTail(left, |text|) && ZeroTail(right, |text|)
    ensures var written := PutHalves(text, ToBytes(left), ToBytes(right));
            Take(written, 0, |text|) == left && Take(written, |text|, |text|) == right
  {
    hide ToBytes, Nibble, PutHalves, ZeroTail, Take;
    var n := |text|;
    var written := PutHalves(text, ToBytes(left), ToBytes(right));
    forall k | 0 <= k < n
      ensures Nibble(written, 0 + k) == Nibble(ToBytes(left), k)
      ensures Nibble(written, n + k) == Nibble(ToBytes(right), k)
    {
      NibbleOfHalves(text, ToBytes(left), ToBytes(right), k);
      NibbleOfHalves(text, ToBytes(left), ToBytes(right), n + k);
    }
    TakeIs(written, 0, n, left);
    TakeIs(written, n, n, right);
  }

  lemma PutOfTake(text: seq<byte>, base: seq<byte>)
    requires |base| == |text| <= 32
    ensures PutHalves(base, ToBytes(Take(text, 0, |text|)), ToBytes(Take(text, |text|, |text|))) == text
  {
    hide ToBytes, FromBytes, Nibble, Taken, PutHalves;
    var n := |text|;
    var left, right := Taken(text, 0, n), Taken(text, n, n);
    RoundTrip(0, left);
    RoundTrip(0, right);
    hide Take;
    forall k | 0 <= k < 2 * n
      ensures Nibble(PutHalves(base, left, right), k) == Nibble(text, k)
    {
      NibbleOfHalves(base, left, right, k);
      if k < n {
        NibbleOfTaken(text, 0, n, k);
      } else {
        NibbleOfTaken(text, n, n, k - n);
      }
    }
    EqualNibbles(PutHalves(base, left, right), text);
  }

  lemma RunInverts(feistel: Feistel, text: seq<byte>, indices: seq<nat>)
    requires feistel.halfNibbles == |text| <= 32
    ensures feistel.Run(feistel.Run(text, indices), Reverse(indices)) == text
  {
    var n := |text|;
    var start := Halves(Take(text, 0, n), Take(text, n, n));
    var end := feistel.Fold(start, indices);
    var run := feistel.Run(text, indices);
    assert run == PutHalves(text, ToBytes(end.right), ToBytes(end.left));
    hide Take, Put, ToBytes, ZeroTail;
    TakeHasZeroTail(text, 0, n);
    TakeHasZeroTail(text, n, n);
    FoldKeepsTails(feistel, start, indices);
    TakeOfPut(text, end.right, end.left);
    FoldOfSwap(feistel, start, indices);
    PutOfTake(text, run);
  }

  // -------------------------------------------------------------------------
  // The first-bit correction
  // -------------------------------------------------------------------------

  lemma AndTopBit(x: Block)
    ensures And(x, TOP_BIT) == 0 || And(x, TOP_BIT) == TOP_BIT
  {}

  lemma EncodingOfTopBit()
    ensures ToBytes(TOP_BIT) == [0x80, 0, 0, 0, 0, 0, 0, 0, 0, 0, 0, 0, 0, 0, 0, 0]
  {
    EncodingOfZero();
    assert ToBytes2(0) == [0, 0];
    assert ToBytes2(0x8000) == [0x80, 0];
    assert ToBytes4(0) == [0, 0, 0, 0];
    assert ToBytes4(0x8000_0000) == [0x80, 0, 0, 0];
    assert ToBytes8(0) == [0, 0, 0, 0, 0, 0, 0, 0];
    assert ToBytes8(0x8000_0000_0000_0000) == [0x80, 0, 0, 0, 0, 0, 0, 0];
  }

  lemma FirstBitMaskBytes(mask: Block)
    requires mask == 0 || mask == TOP_BIT
    ensures ToBytes(mask)[0] == 0 || ToBytes(mask)[0] == 0x80
    ensures forall k | 1 <= k < BLOCK_BYTES :: ToBytes(mask)[k] == 0
  {
    EncodingOfTopBit();
    EncodingOfZero();
    hide ToBytes;
  }

  lemma ZeroExtendedXor(source: seq<byte>, text: seq<byte>)
    requires |source| == BLOCK_BYTES && 1 <= |text|
    requires forall k | 1 <= k < BLOCK_BYTES :: source[k] == 0
    ensures ZeroExtended(XorPrefix(source, text)) == XorBytes(ZeroExtended(text), source)
  {}

  lemma PrefixOfXorInto(mask: Block, text: seq<byte>)
    requires mask == 0 || mask == TOP_BIT
    requires 1 <= |text|
    ensures FromPrefix(XorInto(mask, text)) == Xor(FromPrefix(text), mask)
  {
    hide ToBytes, FromBytes, Xor, XorPrefix, XorBytes, ZeroExtended;
    var changed := XorInto(mask, text);
    FirstBitMaskBytes(mask);
    ZeroExtendedXor(ToBytes(mask), text);
    RoundTrip(0, ZeroExtended(text));
    RoundTrip(0, ZeroExtended(changed));
    XorEncoding(FromPrefix(text), mask);
    EqualBytes(FromPrefix(changed), Xor(FromPrefix(text), mask));
  }

  lemma OrAbsorbsTopBit(x: Block)
    ensures Or(Xor(x, TOP_BIT), TOP_BIT) == Or(x, TOP_BIT)
  {
    calc {
      Or(Xor(x, TOP_BIT), TOP_BIT);
      Or(x ^ TOP_BIT, TOP_BIT);
      (x ^ TOP_BIT) | TOP_BIT;
      (x ^ 0x8000_0000_0000_0000_0000_0000_0000_0000) | 0x8000_0000_0000_0000_0000_0000_0000_0000;
      x | 0x8000_0000_0000_0000_0000_0000_0000_0000;
      Or(x, TOP_BIT);
    }
  }

  lemma OrAbsorbs(x: Block, mask: Block)
    requires mask == 0 || mask == TOP_BIT
    ensures Or(Xor(x, mask), TOP_BIT) == Or(x, TOP_BIT)
  {
    hide Xor, Or;
    OrAbsorbsTopBit(x);
    XorUnit(x);
  }

  // The correction is an involution: its mask does not depend on the bit it rewrites.
  lemma CorrectTwice(keys: Subkeys, delta: Block, text: seq<byte>)
    requires 1 <= |text|
    ensures CorrectFirstBit(keys, delta, CorrectFirstBit(keys, delta, text)) == text
  {
    var mask := FirstBitMask(keys, delta, text);
    AndTopBit(E(keys, 0, FIRST_BIT_COLUMN, Xor(delta, Or(FromPrefix(text), TOP_BIT))));
    hide Xor, Or, And, FromPrefix, XorInto, E;
    PrefixOfXorInto(mask, text);
    OrAbsorbs(FromPrefix(text), mask);
    XorIntoTwice(mask, text);
  }

  // The correction rewrites only the first bit of the text.
  lemma CorrectChangesFirstBit(keys: Subkeys, delta: Block, text: seq<byte>)
    requires 1 <= |text|
    ensures var result := CorrectFirstBit(keys, delta, text);
            result[1..] == text[1..] && result[0] & 0x7f == text[0] & 0x7f
  {
    var mask := FirstBitMask(keys, delta, text);
    AndTopBit(E(keys, 0, FIRST_BIT_COLUMN, Xor(delta, Or(FromPrefix(text), TOP_BIT))));
    FirstBitMaskBytes(mask);
    hide FirstBitMask, ToBytes;
    XorPrefixOfFirstBit(ToBytes(mask), text);
  }

  lemma XorPrefixOfFirstBit(source: seq<byte>, text: seq<byte>)
    requires |source| == BLOCK_BYTES && 1 <= |text|
    requires source[0] == 0 || source[0] == 0x80
    requires forall k | 1 <= k < BLOCK_BYTES :: source[k] == 0
    ensures XorPrefix(source, text)[1..] == text[1..]
    ensures XorPrefix(source, text)[0] & 0x7f == text[0] & 0x7f
  {
    KeepsLowBits(text[0], source[0]);
    assert forall k | 1 <= k < |text| :: XorPrefix(source, text)[k] == text[k];
  }

  lemma KeepsLowBits(a: byte, b: byte)
    requires b == 0 || b == 0x80
    ensures (a ^ b) & 0x7f == a & 0x7f
  {}

  lemma ReverseTwice(s: seq<nat>)
    ensures Reverse(Reverse(s)) == s
  {}

  // AEZ-tiny is a permutation of the strings of each length from 1 to 31 bytes.
  lemma TinyInverts(keys: Subkeys, delta: Block, direction: Direction, text: seq<byte>)
    requires 1 <= |text| < 32
    ensures TinyBytes(keys, delta, direction.Opposite(), TinyBytes(keys, delta, direction, text)) == text
  {
    hide CorrectFirstBit, Feistel.Run, Range, Reverse;
    var feistel := FeistelOf(keys, delta, |text|);
    var rounds := Range(RoundCount(|text|));
    match direction
    case Encipher =>
      RunInverts(feistel, text, rounds);
      CorrectTwice(keys, delta, feistel.Run(text, rounds));
    case Decipher =>
      RunInverts(feistel, text, Reverse(rounds));
      RunInverts(feistel, CorrectFirstBit(keys, delta, text), Reverse(rounds));
      ReverseTwice(rounds);
      CorrectTwice(keys, delta, text);
  }

  // -------------------------------------------------------------------------
  // In place
  // -------------------------------------------------------------------------

  method SetNibbleInPlace(text: array<byte>, index: nat, value: byte)
    modifies text
    ensures text[..] == SetNibble(old(text[..]), index, value)
  {
    hide WithNibble;
    if index / 2 < text.Length {
      text[index / 2] := WithNibble(text[index / 2], index % 2 == 0, value);
    }
  }

  method TakeNibbles(source: array<byte>, start: nat, count: nat) returns (block: Block)
    ensures block == Take(source[..], start, count)
  {
    hide SetNibble, Nibble, FromBytes;
    var bytes := new byte[BLOCK_BYTES](_ => 0);
    assert bytes[..] == ZERO_BYTES;
    for k := 0 to count
      invariant bytes[..] == Taken(source[..], start, k)
    {
      SetNibbleInPlace(bytes, k, Nibble(source[..], start + k));
    }
    block := FromBytes(bytes[..]);
  }

  method PutNibbles(target: array<byte>, start: nat, count: nat, block: Block)
    modifies target
    ensures target[..] == Put(old(target[..]), start, count, ToBytes(block))
  {
    hide SetNibble, Nibble, ToBytes;
    var bytes := ToBytes(block);
    for k := 0 to count
      invariant target[..] == Put(old(target[..]), start, k, bytes)
    {
      SetNibbleInPlace(target, start + k, Nibble(bytes, k));
    }
  }

  method CorrectFirstBitInPlace(keys: Subkeys, delta: Block, text: array<byte>)
    modifies text
    ensures text[..] == CorrectFirstBit(keys, delta, old(text[..]))
  {
    hide FirstBitMask, XorInto;
    ghost var before := text[..];
    XorSlice(text, 0, text.Length, FirstBitMask(keys, delta, text[..]));
    assert before[0..text.Length] == before;
  }

  /** AEZ-tiny in place. */
  method Apply(keys: Subkeys, delta: Block, direction: Direction, text: array<byte>)
    modifies text
    ensures text[..] == TinyBytes(keys, delta, direction, old(text[..]))
  {
    hide CorrectFirstBit;
    var subBlock := text.Length < BLOCK_BYTES;
    var feistel := FeistelOf(keys, delta, text.Length);
    var rounds := Range(RoundCount(text.Length));
    match direction
    case Encipher =>
      feistel.RunInPlace(text, rounds);
      if subBlock {
        CorrectFirstBitInPlace(keys, delta, text);
      }
    case Decipher =>
      if subBlock {
        CorrectFirstBitInPlace(keys, delta, text);
      }
      feistel.RunInPlace(text, Reverse(rounds));
  }
}
