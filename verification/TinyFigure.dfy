/** AEZ-tiny as Fig. 3 of AEZ v5 draws it: equations between the nibbles of the input, of the halves after every
    round, and of the output (crates/aez/src/aez_tiny.rs). */
module TinyFigure {
  import opened Blocks
  import opened Nibbles
  import opened Padding
  import opened Tbc
  import opened Directions
  import AezTiny

  /** Nibble k of a block. */
  function N(x: Block, k: nat): byte {
    Nibble(ToBytes(x), k)
  }

  function Sum(a: byte, b: byte): byte {
    a ^ b
  }

  // `half` is nibbles from .. from + n of `text`, followed by zeros.
  ghost predicate Holds(half: Block, text: seq<byte>, from: nat, n: nat) {
    forall k | 0 <= k < 32 :: N(half, k) == if k < n then Nibble(text, from + k) else 0
  }

  // `padded` is the first n nibbles of `half` followed by 10*.
  ghost predicate TenStarAfter(padded: Block, half: Block, n: nat) {
    forall k | 0 <= k < 32 :: N(padded, k) == if k < n then N(half, k) else if k == n then 8 else 0
  }

  /** E^{0,j}(Delta + R10* + [index]), with j = 7 below a block and 6 from a block on. */
  function Image(keys: Subkeys, delta: Block, n: nat, index: nat, padded: Block): Block {
    E(keys, 0, if n < 16 then 7 else 6, Xor(Xor(delta, padded), FromIndex(index)))
  }

  // `next` is L + the first n nibbles of the image.
  ghost predicate IsNext(next: Block, left: Block, image: Block, n: nat) {
    forall k | 0 <= k < 32 :: N(next, k) == if k < n then Sum(N(left, k), N(image, k)) else 0
  }

  // One round: (L, R) to (R, L + the first n nibbles of the image of R10*).
  ghost predicate RoundStep(keys: Subkeys, delta: Block, n: nat, index: nat,
                            left: Block, right: Block, nextLeft: Block, nextRight: Block) {
    && nextLeft == right
    && exists padded :: TenStarAfter(padded, right, n) && IsNext(nextRight, left, Image(keys, delta, n, index, padded), n)
  }

  /** 24 rounds for one byte, 16 for two, 10 below a block and 8 from a block on. */
  function Count(n: nat): nat {
    if n == 1 then 24 else if n == 2 then 16 else if n < 16 then 10 else 8
  }

  // The whole network: rounds counted from 0 when enciphering and down to 0 when deciphering; the output is the
  // last right half before the last left half.
  ghost predicate Network(keys: Subkeys, delta: Block, direction: Direction, text: seq<byte>, out: seq<byte>,
                          lefts: seq<Block>, rights: seq<Block>) {
    && |out| == |text|
    && var n := |text|;
       var count := Count(n);
       && |lefts| == |rights| == count + 1
       && Holds(lefts[0], text, 0, n) && Holds(rights[0], text, n, n)
       && (forall i | 0 <= i < count ::
             RoundStep(keys, delta, n, if direction == Encipher then i else count - 1 - i,
                       lefts[i], rights[i], lefts[i + 1], rights[i + 1]))
       && Holds(rights[count], out, 0, n) && Holds(lefts[count], out, n, n)
  }

  function Mark(b: byte): byte {
    b | 0x80
  }

  function Toggle(b: byte, image: byte): byte {
    b ^ (image & 0x80)
  }

  // The correction: only the first bit changes, by the first bit of E^{0,3}(Delta + (C or 10*)).
  ghost predicate FirstBit(keys: Subkeys, delta: Block, text: seq<byte>, out: seq<byte>) {
    && 1 <= |text| == |out| < 16
    && var marked := FromBytes([Mark(text[0])] + text[1..] + ZERO_BYTES[|text|..]);
       out == [Toggle(text[0], ToBytes(E(keys, 0, 3, Xor(delta, marked)))[0])] + text[1..]
  }

  // The correction, where there is one.
  ghost predicate Corrected(keys: Subkeys, delta: Block, text: seq<byte>, out: seq<byte>) {
    if |text| < 16 then FirstBit(keys, delta, text, out) else out == text
  }

  // The correction follows the network when enciphering and precedes it when deciphering.
  ghost predicate Figure(keys: Subkeys, delta: Block, direction: Direction, text: seq<byte>, out: seq<byte>) {
    if direction == Encipher
    then exists middle, lefts, rights ::
           Network(keys, delta, direction, text, middle, lefts, rights) && Corrected(keys, delta, middle, out)
    else exists middle, lefts, rights ::
           Corrected(keys, delta, text, middle) && Network(keys, delta, direction, middle, out, lefts, rights)
  }

  // -------------------------------------------------------------------------
  // One round
  // -------------------------------------------------------------------------

  lemma SameNibbles(x: Block, y: Block)
    requires forall k | 0 <= k < 32 :: N(x, k) == N(y, k)
    ensures x == y
  {
    hide ToBytes, Nibble;
    forall k | 0 <= k < 32
      ensures Nibble(ToBytes(x), k) == Nibble(ToBytes(y), k)
    {
      assert N(x, k) == N(y, k);
    }
    EqualNibbles(ToBytes(x), ToBytes(y));
    EqualBytes(x, y);
  }

  lemma NibbleOfByteSum(a: byte, b: byte, high: bool)
    ensures NibbleOf(a ^ b, high) == Sum(NibbleOf(a, high), NibbleOf(b, high))
  {}

  lemma NibbleIs(x: Block, k: nat)
    requires k < 32
    ensures N(x, k) == NibbleOf(ToBytes(x)[k / 2], k % 2 == 0)
  {
    hide ToBytes, NibbleOf;
  }

  lemma NibbleOfSum(x: Block, y: Block, k: nat)
    requires k < 32
    ensures N(Xor(x, y), k) == Sum(N(x, k), N(y, k))
  {
    hide ToBytes, Xor, NibbleOf, N, Sum;
    XorBytesAt(x, y, k / 2);
    NibbleOfByteSum(ToBytes(x)[k / 2], ToBytes(y)[k / 2], k % 2 == 0);
    NibbleIs(Xor(x, y), k);
    NibbleIs(x, k);
    NibbleIs(y, k);
  }

  lemma TenStarIs(padded: Block, half: Block, n: nat)
    requires n < 32 && ZeroTail(half, n)
    ensures TenStarAfter(padded, half, n) <==> padded == PadBits(half, 4 * n)
  {
    hide ToBytes, Nibble, PadBits, ZeroTail;
    forall k | 0 <= k < 32
      ensures N(PadBits(half, 4 * n), k) == if k < n then N(half, k) else if k == n then 8 else 0
    {
      NibbleOfPadded(half, n, k);
    }
    if TenStarAfter(padded, half, n) {
      SameNibbles(padded, PadBits(half, 4 * n));
    }
  }

  lemma SumZero()
    ensures Sum(0, 0) == 0
  {}

  // The right half that a round of the network produces, nibble by nibble.
  lemma RoundNibble(left: Block, image: Block, n: nat, k: nat)
    requires n < 32 && k < 32 && ZeroTail(left, n)
    ensures N(Xor(left, Truncate(image, 4 * n)), k) == if k < n then Sum(N(left, k), N(image, k)) else 0
  {
    hide ToBytes, Nibble, Xor, Truncate, Sum;
    NibbleOfSum(left, Truncate(image, 4 * n), k);
    NibbleOfTruncated(image, n, k);
    SumZero();
  }

  lemma NextIs(next: Block, left: Block, image: Block, n: nat)
    requires n < 32 && ZeroTail(left, n)
    ensures IsNext(next, left, image, n) <==> next == Xor(left, Truncate(image, 4 * n))
  {
    hide N, Xor, Truncate, ZeroTail, Sum;
    var expected := Xor(left, Truncate(image, 4 * n));
    forall k | 0 <= k < 32
      ensures N(expected, k) == if k < n then Sum(N(left, k), N(image, k)) else 0
    {
      RoundNibble(left, image, n, k);
    }
    if IsNext(next, left, image, n) {
      SameNibbles(next, expected);
    }
  }

  lemma RoundFunctionIs(keys: Subkeys, delta: Block, n: nat, index: nat, right: Block)
    ensures AezTiny.FeistelOf(keys, delta, n).RoundFunction(right, index)
         == Truncate(Image(keys, delta, n, index, PadBits(right, 4 * n)), 4 * n)
  {
    hide Xor, Truncate, PadBits, E, FromIndex;
  }

  lemma StepIs(keys: Subkeys, delta: Block, n: nat, index: nat,
               left: Block, right: Block, nextLeft: Block, nextRight: Block)
    requires n < 32 && ZeroTail(left, n) && ZeroTail(right, n)
    ensures RoundStep(keys, delta, n, index, left, right, nextLeft, nextRight) <==>
              nextLeft == right
              && nextRight == Xor(left, Truncate(Image(keys, delta, n, index, PadBits(right, 4 * n)), 4 * n))
  {
    hide Xor, Truncate, PadBits, Image, ZeroTail, TenStarAfter, IsNext;
    var bits := 4 * n;
    forall padded
      ensures TenStarAfter(padded, right, n) <==> padded == PadBits(right, bits)
    {
      TenStarIs(padded, right, n);
    }
    NextIs(nextRight, left, Image(keys, delta, n, index, PadBits(right, bits)), n);
  }

  lemma RoundIs(keys: Subkeys, delta: Block, n: nat, index: nat,
                left: Block, right: Block, nextLeft: Block, nextRight: Block)
    requires n < 32 && ZeroTail(left, n) && ZeroTail(right, n)
    ensures RoundStep(keys, delta, n, index, left, right, nextLeft, nextRight)
       <==> AezTiny.FeistelOf(keys, delta, n).Round(AezTiny.Halves(left, right), index)
            == AezTiny.Halves(nextLeft, nextRight)
  {
    hide Xor, Truncate, PadBits, Image, ZeroTail, RoundStep, AezTiny.FeistelOf, AezTiny.Feistel.RoundFunction;
    StepIs(keys, delta, n, index, left, right, nextLeft, nextRight);
    RoundFunctionIs(keys, delta, n, index, right);
  }

  // -------------------------------------------------------------------------
  // The network
  // -------------------------------------------------------------------------

  lemma HoldsIs(half: Block, text: seq<byte>, from: nat, n: nat)
    ensures Holds(half, text, from, n) <==> half == Take(text, from, n)
  {
    hide ToBytes, FromBytes, Nibble, Taken;
    RoundTrip(0, Taken(text, from, n));
    forall k | 0 <= k < 32
      ensures N(Take(text, from, n), k) == if k < n then Nibble(text, from + k) else 0
    {
      NibbleOfTaken(text, from, n, k);
    }
    if Holds(half, text, from, n) {
      SameNibbles(half, Take(text, from, n));
    }
  }

  // Halves that are zero beyond their nibbles are those of an output exactly when they were put into it.
  lemma PutIs(text: seq<byte>, out: seq<byte>, first: Block, second: Block)
    requires |out| == |text| <= 32 && ZeroTail(first, |text|) && ZeroTail(second, |text|)
    ensures Holds(first, out, 0, |text|) && Holds(second, out, |text|, |text|)
       <==> out == AezTiny.PutHalves(text, ToBytes(first), ToBytes(second))
  {
    hide ToBytes, Nibble, AezTiny.PutHalves, ZeroTail, Holds, Take;
    var n := |text|;
    HoldsIs(first, out, 0, n);
    HoldsIs(second, out, n, n);
    AezTiny.TakeOfPut(text, first, second);
    AezTiny.PutOfTake(out, text);
  }

  /** The round indices in the order of their use. */
  function Indices(direction: Direction, count: nat): (indices: seq<nat>)
    ensures |indices| == count
  {
    seq(count, i requires 0 <= i < count => if direction == Encipher then i else count - 1 - i)
  }

  lemma FoldIs(feistel: AezTiny.Feistel, start: AezTiny.Halves, indices: seq<nat>, k: nat)
    requires k < |indices|
    ensures feistel.Fold(start, indices[..k + 1]) == feistel.Round(feistel.Fold(start, indices[..k]), indices[k])
  {
    hide AezTiny.Feistel.Fold, AezTiny.Feistel.Round;
    assert indices[..k + 1] == indices[..k] + [indices[k]];
    AezTiny.FoldSnoc(feistel, start, indices[..k], indices[k]);
  }

  // The halves of the network are those of the fold.
  lemma {:induction false} TraceIs(keys: Subkeys, delta: Block, n: nat, start: AezTiny.Halves, indices: seq<nat>,
                                   lefts: seq<Block>, rights: seq<Block>, k: nat)
    requires n < 32 && ZeroTail(start.left, n) && ZeroTail(start.right, n)
    requires k <= |indices| && |lefts| == |rights| == |indices| + 1
    requires AezTiny.Halves(lefts[0], rights[0]) == start
    requires forall i | 0 <= i < |indices| ::
               RoundStep(keys, delta, n, indices[i], lefts[i], rights[i], lefts[i + 1], rights[i + 1])
    ensures AezTiny.Halves(lefts[k], rights[k]) == AezTiny.FeistelOf(keys, delta, n).Fold(start, indices[..k])
  {
    hide ZeroTail, RoundStep, AezTiny.Feistel.Round;
    var feistel := AezTiny.FeistelOf(keys, delta, n);
    if k > 0 {
      TraceIs(keys, delta, n, start, indices, lefts, rights, k - 1);
      AezTiny.FoldKeepsTails(feistel, start, indices[..k - 1]);
      RoundIs(keys, delta, n, indices[k - 1], lefts[k - 1], rights[k - 1], lefts[k], rights[k]);
      FoldIs(feistel, start, indices, k - 1);
    }
  }

  lemma TakesHaveZeroTails(text: seq<byte>)
    ensures ZeroTail(Take(text, 0, |text|), |text|) && ZeroTail(Take(text, |text|, |text|), |text|)
  {
    hide ZeroTail, Take;
    TakeHasZeroTail(text, 0, |text|);
    TakeHasZeroTail(text, |text|, |text|);
  }

  lemma RunOfNetwork(keys: Subkeys, delta: Block, direction: Direction, text: seq<byte>, out: seq<byte>,
                     lefts: seq<Block>, rights: seq<Block>)
    requires 1 <= |text| < 32 && Network(keys, delta, direction, text, out, lefts, rights)
    ensures out == AezTiny.FeistelOf(keys, delta, |text|).Run(text, Indices(direction, Count(|text|)))
  {
    hide ZeroTail, Holds, RoundStep, Take, Put, ToBytes, AezTiny.Feistel.Fold;
    var n, count := |text|, Count(|text|);
    var feistel, indices := AezTiny.FeistelOf(keys, delta, n), Indices(direction, count);
    var start := AezTiny.Halves(lefts[0], rights[0]);
    HoldsIs(lefts[0], text, 0, n);
    HoldsIs(rights[0], text, n, n);
    TakesHaveZeroTails(text);
    TraceIs(keys, delta, n, start, indices, lefts, rights, count);
    assert indices[..count] == indices;
    AezTiny.FoldKeepsTails(feistel, start, indices);
    PutIs(text, out, rights[count], lefts[count]);
  }

  lemma NetworkOfRun(keys: Subkeys, delta: Block, direction: Direction, text: seq<byte>)
    returns (lefts: seq<Block>, rights: seq<Block>)
    requires 1 <= |text| < 32
    ensures Network(keys, delta, direction, text,
                    AezTiny.FeistelOf(keys, delta, |text|).Run(text, Indices(direction, Count(|text|))), lefts, rights)
  {
    hide ZeroTail, Holds, RoundStep, Take, Put, ToBytes, AezTiny.Feistel.Fold, AezTiny.Feistel.Round;
    var n, count := |text|, Count(|text|);
    var feistel, indices := AezTiny.FeistelOf(keys, delta, n), Indices(direction, count);
    var start := AezTiny.Halves(Take(text, 0, n), Take(text, n, n));
    lefts := seq(count + 1, i requires 0 <= i <= count => feistel.Fold(start, indices[..i]).left);
    rights := seq(count + 1, i requires 0 <= i <= count => feistel.Fold(start, indices[..i]).right);
    TakesHaveZeroTails(text);
    NothingFolded(feistel, start, indices);
    HoldsIs(lefts[0], text, 0, n);
    HoldsIs(rights[0], text, n, n);
    forall i | 0 <= i < count
      ensures RoundStep(keys, delta, n, indices[i], lefts[i], rights[i], lefts[i + 1], rights[i + 1])
    {
      AezTiny.FoldKeepsTails(feistel, start, indices[..i]);
      FoldIs(feistel, start, indices, i);
      RoundIs(keys, delta, n, indices[i], lefts[i], rights[i], lefts[i + 1], rights[i + 1]);
    }
    assert indices[..count] == indices;
    AezTiny.FoldKeepsTails(feistel, start, indices);
    PutIs(text, feistel.Run(text, indices), rights[count], lefts[count]);
  }

  lemma NothingFolded(feistel: AezTiny.Feistel, start: AezTiny.Halves, indices: seq<nat>)
    ensures feistel.Fold(start, indices[..0]) == start
  {}

  // -------------------------------------------------------------------------
  // The correction
  // -------------------------------------------------------------------------

  lemma MarkedByte(text: seq<byte>, p: nat)
    requires 1 <= |text| && p < 16
    ensures ToBytes(Or(FromPrefix(text), TOP_BIT))[p]
         == if p == 0 then Mark(text[0]) else if p < |text| then text[p] else 0
  {
    hide ToBytes, FromBytes, Or;
    RoundTrip(0, ZeroExtended(text));
    OrBytesAt(FromPrefix(text), TOP_BIT, p);
    EncodingOfBits(p);
    OrZero(ZeroExtended(text)[p]);
  }

  lemma PrefixAndZeros(first: byte, text: seq<byte>, p: nat)
    requires 1 <= |text| < 16 && p < 16
    ensures |[first] + text[1..] + ZERO_BYTES[|text|..]| == 16
    ensures ([first] + text[1..] + ZERO_BYTES[|text|..])[p] == if p == 0 then first else if p < |text| then text[p] else 0
  {
    if p >= |text| {
      assert ([first] + text[1..] + ZERO_BYTES[|text|..])[p] == ZERO_BYTES[p];
    }
  }

  lemma MarkedBytes(text: seq<byte>, block: Block)
    requires 1 <= |text| < 16
    requires forall p | 0 <= p < 16 ::
               ToBytes(block)[p] == if p == 0 then Mark(text[0]) else if p < |text| then text[p] else 0
    ensures block == FromBytes([Mark(text[0])] + text[1..] + ZERO_BYTES[|text|..])
  {
    hide ToBytes, FromBytes, Mark;
    var bytes := [Mark(text[0])] + text[1..] + ZERO_BYTES[|text|..];
    forall p | 0 <= p < 16
      ensures bytes[p] == ToBytes(block)[p]
    {
      PrefixAndZeros(Mark(text[0]), text, p);
    }
    RoundTrip(block, bytes);
    assert ToBytes(block) == bytes;
  }

  lemma MarkedIs(text: seq<byte>)
    requires 1 <= |text| < 16
    ensures Or(FromPrefix(text), TOP_BIT) == FromBytes([Mark(text[0])] + text[1..] + ZERO_BYTES[|text|..])
  {
    hide ToBytes, FromBytes, Or, Mark, FromPrefix;
    var block := Or(FromPrefix(text), TOP_BIT);
    forall p | 0 <= p < 16
      ensures ToBytes(block)[p] == if p == 0 then Mark(text[0]) else if p < |text| then text[p] else 0
    {
      MarkedByte(text, p);
    }
    MarkedBytes(text, block);
  }

  lemma MaskBytes(image: Block, p: nat)
    requires p < 16
    ensures ToBytes(And(image, TOP_BIT))[p] == if p == 0 then ToBytes(image)[0] & 0x80 else 0
  {
    hide ToBytes, And;
    AndBytesAt(image, TOP_BIT, p);
    EncodingOfBits(p);
    AndNothing(ToBytes(image)[p]);
  }

  lemma AndNothing(b: byte)
    ensures b & 0 == 0 && b ^ 0 == b
  {}

  lemma ToggledByte(image: Block, text: seq<byte>, p: nat)
    requires p < |text| < 16
    ensures XorInto(And(image, TOP_BIT), text)[p] == if p == 0 then Toggle(text[0], ToBytes(image)[0]) else text[p]
  {
    hide ToBytes, And;
    MaskBytes(image, p);
    AndNothing(text[p]);
  }

  lemma ToggledIs(image: Block, text: seq<byte>)
    requires 1 <= |text| < 16
    ensures XorInto(And(image, TOP_BIT), text) == [Toggle(text[0], ToBytes(image)[0])] + text[1..]
  {
    hide ToBytes, And, XorInto, Toggle;
    forall p | 0 <= p < |text|
      ensures XorInto(And(image, TOP_BIT), text)[p] == if p == 0 then Toggle(text[0], ToBytes(image)[0]) else text[p]
    {
      ToggledByte(image, text, p);
    }
  }

  lemma FirstBitIs(keys: Subkeys, delta: Block, text: seq<byte>, out: seq<byte>)
    requires 1 <= |text| < 16
    ensures FirstBit(keys, delta, text, out) <==> out == AezTiny.CorrectFirstBit(keys, delta, text)
  {
    MarkedIs(text);
    ToggledIs(E(keys, 0, 3, Xor(delta, Or(FromPrefix(text), TOP_BIT))), text);
    hide ToBytes, FromBytes, FromPrefix, Or, And, E, Xor, XorInto, Toggle, Mark;
  }

  // -------------------------------------------------------------------------
  // AEZ-tiny is the figure
  // -------------------------------------------------------------------------

  lemma RoundsAre(n: nat)
    requires 1 <= n < 32
    ensures AezTiny.Range(AezTiny.RoundCount(n)) == Indices(Encipher, Count(n))
    ensures AezTiny.Reverse(AezTiny.Range(AezTiny.RoundCount(n))) == Indices(Decipher, Count(n))
  {}

  lemma CorrectedIs(keys: Subkeys, delta: Block, text: seq<byte>, out: seq<byte>)
    requires 1 <= |text| < 32
    ensures Corrected(keys, delta, text, out)
       <==> out == if |text| < 16 then AezTiny.CorrectFirstBit(keys, delta, text) else text
  {
    hide FirstBit, AezTiny.CorrectFirstBit;
    if |text| < 16 {
      FirstBitIs(keys, delta, text, out);
    }
  }

  // The output of AEZ-tiny is what the figure gives, for every length from 1 to 31, and nothing else is.
  lemma TinyIsFigure(keys: Subkeys, delta: Block, direction: Direction, text: seq<byte>, out: seq<byte>)
    requires 1 <= |text| < 32
    ensures AezTiny.TinyBytes(keys, delta, direction, text) == out <==> Figure(keys, delta, direction, text, out)
  {
    hide Network, Corrected, AezTiny.Feistel.Run, AezTiny.CorrectFirstBit, AezTiny.Range, AezTiny.Reverse, Indices,
         AezTiny.FeistelOf;
    var feistel, indices := AezTiny.FeistelOf(keys, delta, |text|), Indices(direction, Count(|text|));
    RoundsAre(|text|);
    match direction
    case Encipher =>
      var run := feistel.Run(text, indices);
      var lefts, rights := NetworkOfRun(keys, delta, direction, text);
      CorrectedIs(keys, delta, run, out);
      if middle, ls, rs :| Network(keys, delta, direction, text, middle, ls, rs) && Corrected(keys, delta, middle, out) {
        RunOfNetwork(keys, delta, direction, text, middle, ls, rs);
      }
    case Decipher =>
      var corrected := if |text| < 16 then AezTiny.CorrectFirstBit(keys, delta, text) else text;
      var lefts, rights := NetworkOfRun(keys, delta, direction, corrected);
      CorrectedIs(keys, delta, text, corrected);
      if middle, ls, rs :| Corrected(keys, delta, text, middle) && Network(keys, delta, direction, middle, out, ls, rs) {
        CorrectedIs(keys, delta, text, middle);
        RunOfNetwork(keys, delta, direction, middle, out, ls, rs);
      }
  }
}
