/** AEZ-core: the enciphering scheme for strings of at least 32 bytes, AEZ v5, section 3
    (crates/aez/src/aez_core.rs). */
module AezCore {
  import opened Blocks
  import opened Buffers
  import opened Tbc
  import opened Directions

  const PAIR_ROW: nat := 1
  const SPREAD_ROW: nat := 2
  const RESIDUE_U_COLUMN: nat := 4
  const RESIDUE_V_COLUMN: nat := 5
  const CORE_MIN_BYTES: nat := 32

  datatype Pair = Pair(left: Block, right: Block)

  /** A string of at least 32 bytes: its pairs, the residue M_uv, and the last two blocks. */
  datatype Layout = Layout(pairs: seq<Pair>, residue: seq<byte>, x: Block, y: Block)

  // -------------------------------------------------------------------------
  // The scheme on layouts
  // -------------------------------------------------------------------------

  /** Pass 1 on one pair: (M, M') to (W, X). */
  function MixPair(keys: Subkeys, column: nat, pair: Pair): Pair {
    var w := Xor(pair.left, E(keys, PAIR_ROW, column, pair.right));
    Pair(w, Xor(pair.right, E(keys, 0, 0, w)))
  }

  /** The first half of pass 2 on one pair: (W, X) to (Y, Z). */
  function SpreadPair(keys: Subkeys, column: nat, s: Block, pair: Pair): Pair {
    var spread := E(keys, SPREAD_ROW, column, s);
    Pair(Xor(pair.left, spread), Xor(pair.right, spread))
  }

  /** The second half of pass 2 on one pair: (Y, Z) to (C, C'). */
  function FinishPair(keys: Subkeys, column: nat, pair: Pair): Pair {
    var cPrime := Xor(pair.left, E(keys, 0, 0, pair.right));
    Pair(Xor(pair.right, E(keys, PAIR_ROW, column, cPrime)), cPrime)
  }

  function MixAll(keys: Subkeys, pairs: seq<Pair>): (result: seq<Pair>)
    ensures |result| == |pairs|
  {
    seq(|pairs|, k requires 0 <= k < |pairs| => MixPair(keys, k + 1, pairs[k]))
  }

  function SpreadAll(keys: Subkeys, s: Block, pairs: seq<Pair>): (result: seq<Pair>)
    ensures |result| == |pairs|
  {
    seq(|pairs|, k requires 0 <= k < |pairs| => SpreadPair(keys, k + 1, s, pairs[k]))
  }

  function FinishAll(keys: Subkeys, pairs: seq<Pair>): (result: seq<Pair>)
    ensures |result| == |pairs|
  {
    seq(|pairs|, k requires 0 <= k < |pairs| => FinishPair(keys, k + 1, pairs[k]))
  }

  function SumLeft(pairs: seq<Pair>): Block {
    if pairs == [] then 0 else Xor(SumLeft(pairs[..|pairs| - 1]), pairs[|pairs| - 1].left)
  }

  function SumRight(pairs: seq<Pair>): Block {
    if pairs == [] then 0 else Xor(SumRight(pairs[..|pairs| - 1]), pairs[|pairs| - 1].right)
  }

  /** The residue digest, by the three lengths of M_uv. */
  function ResidueDigest(keys: Subkeys, residue: seq<byte>): Block {
    if |residue| == 0 then 0
    else if |residue| < BLOCK_BYTES then E(keys, 0, RESIDUE_U_COLUMN, Padded(residue))
    else Xor(E(keys, 0, RESIDUE_U_COLUMN, FromBytes(residue[..BLOCK_BYTES])),
             E(keys, 0, RESIDUE_V_COLUMN, Padded(residue[BLOCK_BYTES..])))
  }

  /** The residue under the mask drawn from `s`. */
  function ResidueMask(keys: Subkeys, s: Block, residue: seq<byte>): (result: seq<byte>)
    ensures |result| == |residue|
  {
    if |residue| == 0 then residue
    else if |residue| < BLOCK_BYTES then XorInto(EMinusOne(keys, RESIDUE_U_COLUMN, s), residue)
    else XorInto(EMinusOne(keys, RESIDUE_U_COLUMN, s), residue[..BLOCK_BYTES])
         + XorInto(EMinusOne(keys, RESIDUE_V_COLUMN, s), residue[BLOCK_BYTES..])
  }

  /** S_x or C_x: the last block masked by the tweak, the pair sum and the other last block. */
  function Whiten(keys: Subkeys, delta: Block, sum: Block, column: nat, block: Block, other: Block): Block {
    Xor(Xor(Xor(block, delta), sum), E(keys, 0, column, other))
  }

  /** S_x, from the message before pass 2. */
  function SX(keys: Subkeys, delta: Block, direction: Direction, m: Layout): Block {
    var sumX := Xor(SumRight(MixAll(keys, m.pairs)), ResidueDigest(keys, m.residue));
    Whiten(keys, delta, sumX, direction.InnerColumn(), m.x, m.y)
  }

  function SY(keys: Subkeys, direction: Direction, sX: Block, y: Block): Block {
    Xor(y, EMinusOne(keys, direction.InnerColumn(), sX))
  }

  /** Pass 2 and the two last blocks, from the pairs after pass 1 and the masked residue. */
  function Finish(keys: Subkeys, delta: Block, direction: Direction,
                  mixed: seq<Pair>, residue: seq<byte>, sX: Block, sY: Block): (c: Layout)
    ensures |c.pairs| == |mixed| && c.residue == residue
  {
    var spread := SpreadAll(keys, Xor(sX, sY), mixed);
    var sumY := Xor(SumLeft(spread), ResidueDigest(keys, residue));
    var cY := Xor(sX, EMinusOne(keys, direction.OuterColumn(), sY));
    Layout(FinishAll(keys, spread), residue, Whiten(keys, delta, sumY, direction.OuterColumn(), sY, cY), cY)
  }

  function ApplyLayout(keys: Subkeys, delta: Block, direction: Direction, m: Layout): (c: Layout)
    ensures |c.pairs| == |m.pairs| && |c.residue| == |m.residue|
  {
    var sX := SX(keys, delta, direction, m);
    var sY := SY(keys, direction, sX, m.y);
    Finish(keys, delta, direction, MixAll(keys, m.pairs), ResidueMask(keys, Xor(sX, sY), m.residue), sX, sY)
  }

  // -------------------------------------------------------------------------
  // Deciphering undoes enciphering, and conversely
  // -------------------------------------------------------------------------

  function SwapPair(pair: Pair): Pair {
    Pair(pair.right, pair.left)
  }

  // Pass 1 on a finished pair recovers (Z, Y).
  lemma MixOfFinish(keys: Subkeys, column: nat, pair: Pair)
    ensures MixPair(keys, column, FinishPair(keys, column, pair)) == SwapPair(pair)
  {
    hide Xor, E;
    var c := FinishPair(keys, column, pair);
    XorCancels(pair.right, E(keys, PAIR_ROW, column, c.right));
    XorCancels(pair.left, E(keys, 0, 0, pair.right));
  }

  // Finishing the swap of a mixed pair recovers the pair.
  lemma FinishOfMix(keys: Subkeys, column: nat, pair: Pair)
    ensures FinishPair(keys, column, SwapPair(MixPair(keys, column, pair))) == pair
  {
    hide Xor, E;
    var w := MixPair(keys, column, pair).left;
    XorCancels(pair.right, E(keys, 0, 0, w));
    XorCancels(pair.left, E(keys, PAIR_ROW, column, pair.right));
  }

  lemma SpreadOfSwap(keys: Subkeys, column: nat, s: Block, pair: Pair)
    ensures SpreadPair(keys, column, s, SwapPair(SpreadPair(keys, column, s, pair))) == SwapPair(pair)
  {
    hide Xor, E;
    XorCancels(pair.right, E(keys, SPREAD_ROW, column, s));
    XorCancels(pair.left, E(keys, SPREAD_ROW, column, s));
  }

  // Pass 1 on the ciphertext pairs recovers every (Z_i, Y_i), so its sum is the sum of the Y_i.
  lemma MixAllOfFinish(keys: Subkeys, pairs: seq<Pair>)
    ensures MixAll(keys, FinishAll(keys, pairs)) == seq(|pairs|, k requires 0 <= k < |pairs| => SwapPair(pairs[k]))
    ensures SumRight(MixAll(keys, FinishAll(keys, pairs))) == SumLeft(pairs)
  {
    hide MixPair, FinishPair, Xor;
    forall k | 0 <= k < |pairs|
      ensures MixAll(keys, FinishAll(keys, pairs))[k] == SwapPair(pairs[k])
    {
      MixOfFinish(keys, k + 1, pairs[k]);
    }
    SumOfSwapped(MixAll(keys, FinishAll(keys, pairs)), pairs);
  }

  lemma {:induction false} SumOfSwapped(swapped: seq<Pair>, pairs: seq<Pair>)
    requires |swapped| == |pairs| && forall k | 0 <= k < |pairs| :: swapped[k] == SwapPair(pairs[k])
    ensures SumRight(swapped) == SumLeft(pairs)
  {
    hide Xor;
    if pairs != [] {
      SumOfSwapped(swapped[..|pairs| - 1], pairs[..|pairs| - 1]);
    }
  }

  // Both passes on the ciphertext pairs return the message pairs, and the Y_i of that run are the X_i.
  lemma PassesInvert(keys: Subkeys, s: Block, pairs: seq<Pair>)
    ensures var mixed := MixAll(keys, pairs);
            var again := SpreadAll(keys, s, MixAll(keys, FinishAll(keys, SpreadAll(keys, s, mixed))));
            FinishAll(keys, again) == pairs && SumLeft(again) == SumRight(mixed)
  {
    hide MixPair, FinishPair, SpreadPair, Xor;
    var mixed := MixAll(keys, pairs);
    var spread := SpreadAll(keys, s, mixed);
    var again := SpreadAll(keys, s, MixAll(keys, FinishAll(keys, spread)));
    MixAllOfFinish(keys, spread);
    forall k | 0 <= k < |pairs|
      ensures again[k] == SwapPair(mixed[k]) && FinishAll(keys, again)[k] == pairs[k]
    {
      SpreadOfSwap(keys, k + 1, s, mixed[k]);
      FinishOfMix(keys, k + 1, pairs[k]);
    }
    assert FinishAll(keys, again) == pairs;
    SumOfSwapped(mixed, again);
  }

  // The residue mask is an involution.
  lemma MaskTwice(keys: Subkeys, s: Block, residue: seq<byte>)
    ensures ResidueMask(keys, s, ResidueMask(keys, s, residue)) == residue
  {
    hide XorInto, EMinusOne;
    var u, v := EMinusOne(keys, RESIDUE_U_COLUMN, s), EMinusOne(keys, RESIDUE_V_COLUMN, s);
    if |residue| < BLOCK_BYTES {
      XorIntoTwice(u, residue);
    } else {
      var masked := ResidueMask(keys, s, residue);
      assert masked[..BLOCK_BYTES] == XorInto(u, residue[..BLOCK_BYTES]);
      assert masked[BLOCK_BYTES..] == XorInto(v, residue[BLOCK_BYTES..]);
      XorIntoTwice(u, residue[..BLOCK_BYTES]);
      XorIntoTwice(v, residue[BLOCK_BYTES..]);
      assert residue == residue[..BLOCK_BYTES] + residue[BLOCK_BYTES..];
    }
  }

  lemma WhitenTwice(keys: Subkeys, delta: Block, sum: Block, column: nat, block: Block, other: Block)
    ensures Whiten(keys, delta, sum, column, Whiten(keys, delta, sum, column, block, other), other) == block
  {
    hide Xor, E;
    var mask := E(keys, 0, column, other);
    var inner := Xor(Xor(block, delta), sum);
    XorSwap(inner, mask, delta);
    XorSwap(Xor(inner, delta), mask, sum);
    XorCancels(Xor(Xor(inner, delta), sum), mask);
    XorSwap(Xor(block, delta), sum, delta);
    XorCancels(Xor(Xor(block, delta), delta), sum);
    XorCancels(block, delta);
  }

  // The swapped columns exchange the middle: on the result, the run in the other direction finds the S_x and S_y
  // of the first run in each other's place.
  lemma MiddleIsExchanged(keys: Subkeys, delta: Block, direction: Direction, m: Layout)
    ensures var sX := SX(keys, delta, direction, m);
            var sY := SY(keys, direction, sX, m.y);
            var c := ApplyLayout(keys, delta, direction, m);
            && SX(keys, delta, direction.Opposite(), c) == sY
            && SY(keys, direction.Opposite(), sY, c.y) == sX
  {
    hide Xor, E, EMinusOne, Whiten, MixAll, SpreadAll, FinishAll, ResidueDigest, ResidueMask, SumLeft, SumRight;
    var outer := direction.OuterColumn();
    var sX := SX(keys, delta, direction, m);
    var sY := SY(keys, direction, sX, m.y);
    var c := ApplyLayout(keys, delta, direction, m);
    var spread := SpreadAll(keys, Xor(sX, sY), MixAll(keys, m.pairs));
    MixAllOfFinish(keys, spread);
    WhitenTwice(keys, delta, Xor(SumLeft(spread), ResidueDigest(keys, c.residue)), outer, sY, c.y);
    XorCancels(sX, EMinusOne(keys, outer, sY));
  }

  // AEZ-core in one direction undoes AEZ-core in the other, for every tweak digest and round function.
  lemma ApplyInverts(keys: Subkeys, delta: Block, direction: Direction, m: Layout)
    ensures ApplyLayout(keys, delta, direction.Opposite(), ApplyLayout(keys, delta, direction, m)) == m
  {
    hide Xor, E, EMinusOne, Whiten, MixAll, SpreadAll, FinishAll, ResidueDigest, ResidueMask, SumLeft, SumRight;
    var inner := direction.InnerColumn();
    var sumX := Xor(SumRight(MixAll(keys, m.pairs)), ResidueDigest(keys, m.residue));
    var sX := SX(keys, delta, direction, m);
    var sY := SY(keys, direction, sX, m.y);
    var s := Xor(sX, sY);
    MiddleIsExchanged(keys, delta, direction, m);
    XorCommutes(sX, sY);
    MaskTwice(keys, s, m.residue);
    PassesInvert(keys, s, m.pairs);
    XorCancels(m.y, EMinusOne(keys, inner, sX));
    WhitenTwice(keys, delta, sumX, inner, m.x, m.y);
  }

  // -------------------------------------------------------------------------
  // The byte layout
  // -------------------------------------------------------------------------

  function PairAt(bytes: seq<byte>, k: nat): Pair
    requires 32 * k + 32 <= |bytes|
  {
    Pair(BlockAt(bytes, 32 * k), BlockAt(bytes, 32 * k + 16))
  }

  function ReadPairs(bytes: seq<byte>, count: nat): (pairs: seq<Pair>)
    requires 32 * count <= |bytes|
    ensures |pairs| == count
  {
    seq(count, k requires 0 <= k < count => PairAt(bytes, k))
  }

  function PairBytes(pair: Pair): (bytes: seq<byte>)
    ensures |bytes| == 32
  {
    ToBytes(pair.left) + ToBytes(pair.right)
  }

  function JoinPairs(pairs: seq<Pair>): (bytes: seq<byte>)
    ensures |bytes| == 32 * |pairs|
  {
    if pairs == [] then [] else JoinPairs(pairs[..|pairs| - 1]) + PairBytes(pairs[|pairs| - 1])
  }

  /** The number of whole pairs in a string of `length` bytes. */
  function PairCount(length: nat): nat
    requires length >= CORE_MIN_BYTES
  {
    (length - 32) / 32
  }

  function Split(bytes: seq<byte>): (layout: Layout)
    requires |bytes| >= CORE_MIN_BYTES
    ensures |layout.pairs| == PairCount(|bytes|) && |layout.residue| < 32
  {
    var count := PairCount(|bytes|);
    Layout(ReadPairs(bytes, count), bytes[32 * count..|bytes| - 32],
           BlockAt(bytes, |bytes| - 32), BlockAt(bytes, |bytes| - 16))
  }

  function Join(layout: Layout): (bytes: seq<byte>)
    ensures |bytes| == 32 * |layout.pairs| + |layout.residue| + 32
  {
    JoinPairs(layout.pairs) + layout.residue + ToBytes(layout.x) + ToBytes(layout.y)
  }

  lemma PairAtOf(init: seq<byte>, pair: Pair, rest: seq<byte>, k: nat)
    requires |init| == 32 * k
    ensures PairAt(init + PairBytes(pair) + rest, k) == pair
  {
    hide FromBytes, ToBytes;
    var bytes := init + PairBytes(pair) + rest;
    assert bytes[32 * k..32 * k + 16] == ToBytes(pair.left);
    assert bytes[32 * k + 16..32 * k + 32] == ToBytes(pair.right);
    RoundTrip(pair.left, ToBytes(pair.left));
    RoundTrip(pair.right, ToBytes(pair.right));
  }

  lemma PairBytesAt(bytes: seq<byte>, k: nat)
    requires 32 * k + 32 <= |bytes|
    ensures bytes[..32 * k] + PairBytes(PairAt(bytes, k)) == bytes[..32 * k + 32]
  {
    hide FromBytes, ToBytes;
    RoundTrip(0, bytes[32 * k..32 * k + 16]);
    RoundTrip(0, bytes[32 * k + 16..32 * k + 32]);
  }

  lemma {:induction false} ReadOfJoinPairs(pairs: seq<Pair>, rest: seq<byte>)
    ensures ReadPairs(JoinPairs(pairs) + rest, |pairs|) == pairs
  {
    hide PairAt, PairBytes;
    if pairs != [] {
      var n := |pairs| - 1;
      var init, last := JoinPairs(pairs[..n]), pairs[n];
      var bytes := JoinPairs(pairs) + rest;
      assert bytes == init + PairBytes(last) + rest == init + (PairBytes(last) + rest);
      ReadOfJoinPairs(pairs[..n], PairBytes(last) + rest);
      assert forall k | 0 <= k < n :: PairAt(bytes, k) == ReadPairs(bytes, n)[k] == pairs[k];
      PairAtOf(init, last, rest, n);
    }
  }

  lemma {:induction false} JoinOfReadPairs(bytes: seq<byte>, count: nat)
    requires 32 * count <= |bytes|
    ensures JoinPairs(ReadPairs(bytes, count)) == bytes[..32 * count]
  {
    hide PairAt, PairBytes;
    if count > 0 {
      var n := count - 1;
      assert ReadPairs(bytes, count)[..n] == ReadPairs(bytes, n);
      JoinOfReadPairs(bytes, n);
      PairBytesAt(bytes, n);
    }
  }

  lemma SplitOfJoin(layout: Layout)
    requires |layout.residue| < 32
    ensures Split(Join(layout)) == layout
  {
    hide FromBytes, ToBytes, JoinPairs, ReadPairs;
    var bytes, n := Join(layout), |layout.pairs|;
    assert bytes == JoinPairs(layout.pairs) + (layout.residue + ToBytes(layout.x) + ToBytes(layout.y));
    ReadOfJoinPairs(layout.pairs, layout.residue + ToBytes(layout.x) + ToBytes(layout.y));
    assert PairCount(|bytes|) == n;
    assert bytes[32 * n..|bytes| - 32] == layout.residue;
    assert bytes[|bytes| - 32..|bytes| - 16] == ToBytes(layout.x);
    assert bytes[|bytes| - 16..|bytes|] == ToBytes(layout.y);
    RoundTrip(layout.x, ToBytes(layout.x));
    RoundTrip(layout.y, ToBytes(layout.y));
  }

  lemma JoinOfSplit(bytes: seq<byte>)
    requires |bytes| >= CORE_MIN_BYTES
    ensures Join(Split(bytes)) == bytes
  {
    hide FromBytes, ToBytes, JoinPairs, ReadPairs;
    var n := PairCount(|bytes|);
    JoinOfReadPairs(bytes, n);
    RoundTrip(0, bytes[|bytes| - 32..|bytes| - 16]);
    RoundTrip(0, bytes[|bytes| - 16..|bytes|]);
    assert bytes == bytes[..32 * n] + bytes[32 * n..|bytes| - 32]
                    + bytes[|bytes| - 32..|bytes| - 16] + bytes[|bytes| - 16..|bytes|];
  }

  /** AEZ-core on byte strings; shorter strings are left unchanged. */
  function CoreBytes(keys: Subkeys, delta: Block, direction: Direction, text: seq<byte>): (result: seq<byte>)
    ensures |result| == |text|
  {
    if |text| < CORE_MIN_BYTES then text
    else Join(ApplyLayout(keys, delta, direction, Split(text)))
  }

  // AEZ-core is a permutation of the strings of each length.
  lemma CoreInverts(keys: Subkeys, delta: Block, direction: Direction, text: seq<byte>)
    ensures CoreBytes(keys, delta, direction.Opposite(), CoreBytes(keys, delta, direction, text)) == text
  {
    hide Join, Split, ApplyLayout;
    if |text| >= CORE_MIN_BYTES {
      var m := Split(text);
      SplitOfJoin(ApplyLayout(keys, delta, direction, m));
      ApplyInverts(keys, delta, direction, m);
      JoinOfSplit(text);
    }
  }

  // -------------------------------------------------------------------------
  // In place
  // -------------------------------------------------------------------------

  // Writing one pair at the boundary moves the boundary between done and pending past it.
  lemma WritePair(done: seq<byte>, before: seq<byte>, k: nat, patch: seq<byte>)
    requires |done| == 32 * k && 32 * k + 32 <= |before| && |patch| == 32
    ensures Splice(done + before[32 * k..], 32 * k, patch) == done + patch + before[32 * (k + 1)..]
  {}

  lemma PairAtBoundary(done: seq<byte>, before: seq<byte>, k: nat)
    requires |done| == 32 * k && 32 * k + 32 <= |before|
    ensures PairAt(done + before[32 * k..], k) == PairAt(before, k)
  {
    hide FromBytes;
    var bytes := done + before[32 * k..];
    assert bytes[32 * k..32 * k + 16] == before[32 * k..32 * k + 16];
    assert bytes[32 * k + 16..32 * k + 32] == before[32 * k + 16..32 * k + 32];
  }

  lemma JoinStep(pairs: seq<Pair>, k: nat)
    requires k < |pairs|
    ensures JoinPairs(pairs[..k + 1]) == JoinPairs(pairs[..k]) + PairBytes(pairs[k])
    ensures SumLeft(pairs[..k + 1]) == Xor(SumLeft(pairs[..k]), pairs[k].left)
    ensures SumRight(pairs[..k + 1]) == Xor(SumRight(pairs[..k]), pairs[k].right)
  {
    hide Xor, PairBytes;
    assert pairs[..k + 1][..k] == pairs[..k];
  }

  /** Pass 1 on the pair at `k`, at precomputed offsets; returns X. */
  method MixPairInPlace(keys: Subkeys, text: array<byte>, k: nat, e00: Block, e1i: Block, ghost column: nat)
    returns (x: Block)
    requires 32 * k + 32 <= text.Length
    requires e00 == Offset(keys, 0, 0) && e1i == Offset(keys, PAIR_ROW, column)
    modifies text
    ensures var mixed := MixPair(keys, column, PairAt(old(text[..]), k));
            text[..] == Splice(old(text[..]), 32 * k, PairBytes(mixed)) && x == mixed.right
  {
    hide Xor, Offset, Aes4, FromBytes, ToBytes, Splice;
    var m, mPrime := BlockAt(text[..], 32 * k), BlockAt(text[..], 32 * k + 16);
    var w := Xor(m, Aes4At(keys, e1i, mPrime));
    x := Xor(mPrime, Aes4At(keys, e00, w));
    SpliceTwice(text[..], 32 * k, ToBytes(w), ToBytes(x));
    WriteBytes(text, 32 * k, ToBytes(w));
    WriteBytes(text, 32 * k + 16, ToBytes(x));
  }

  /** Pass 2 on the pair at `k`, at precomputed offsets; returns Y. */
  method FinishPairInPlace(keys: Subkeys, text: array<byte>, k: nat, s: Block,
                           e00: Block, e1i: Block, e2i: Block, ghost column: nat)
    returns (y: Block)
    requires 32 * k + 32 <= text.Length
    requires e00 == Offset(keys, 0, 0) && e1i == Offset(keys, PAIR_ROW, column)
    requires e2i == Offset(keys, SPREAD_ROW, column)
    modifies text
    ensures var spread := SpreadPair(keys, column, s, PairAt(old(text[..]), k));
            text[..] == Splice(old(text[..]), 32 * k, PairBytes(FinishPair(keys, column, spread))) && y == spread.left
  {
    hide Xor, Offset, Aes4, FromBytes, ToBytes, Splice;
    var mask := Aes4At(keys, e2i, s);
    y := Xor(BlockAt(text[..], 32 * k), mask);
    var z := Xor(BlockAt(text[..], 32 * k + 16), mask);
    var cPrime := Xor(y, Aes4At(keys, e00, z));
    var c := Xor(z, Aes4At(keys, e1i, cPrime));
    SpliceTwice(text[..], 32 * k, ToBytes(c), ToBytes(cPrime));
    WriteBytes(text, 32 * k, ToBytes(c));
    WriteBytes(text, 32 * k + 16, ToBytes(cPrime));
  }

  /** Pass 1 over the first `count` pairs of `text`; returns the xor of the X_i. */
  method FirstPass(keys: Subkeys, text: array<byte>, count: nat) returns (sum: Block)
    requires 32 * count <= text.Length
    modifies text
    ensures var mixed := MixAll(keys, ReadPairs(old(text[..]), count));
            text[..] == JoinPairs(mixed) + old(text[..])[32 * count..] && sum == SumRight(mixed)
  {
    hide Xor, Offset, StreamedOffset, FirstState, NextState, PairAt, PairBytes, MixPair, Splice;
    ghost var before := text[..];
    ghost var mixed := MixAll(keys, ReadPairs(before, count));
    var e00 := Offset(keys, 0, 0);
    var state := FirstState(keys);
    sum := 0;
    for k := 0 to count
      invariant state == StateAt(keys, k + 1)
      invariant text[..] == JoinPairs(mixed[..k]) + before[32 * k..]
      invariant sum == SumRight(mixed[..k])
    {
      PairAtBoundary(JoinPairs(mixed[..k]), before, k);
      StreamIsClosedForm(keys, PAIR_ROW, k + 1);
      var x := MixPairInPlace(keys, text, k, e00, StreamedOffset(keys, PAIR_ROW, state), k + 1);
      WritePair(JoinPairs(mixed[..k]), before, k, PairBytes(mixed[k]));
      JoinStep(mixed, k);
      sum := Xor(sum, x);
      state := NextState(state);
    }
    assert mixed[..count] == mixed;
  }

  /** Pass 2 over the first `count` pairs of `text` under `s`; returns the xor of the Y_i. */
  method SecondPass(keys: Subkeys, text: array<byte>, count: nat, s: Block) returns (sum: Block)
    requires 32 * count <= text.Length
    modifies text
    ensures var spread := SpreadAll(keys, s, ReadPairs(old(text[..]), count));
            text[..] == JoinPairs(FinishAll(keys, spread)) + old(text[..])[32 * count..] && sum == SumLeft(spread)
  {
    hide Xor, Offset, StreamedOffset, FirstState, NextState, PairAt, PairBytes, SpreadPair, FinishPair, Splice;
    ghost var before := text[..];
    ghost var spread := SpreadAll(keys, s, ReadPairs(before, count));
    ghost var finished := FinishAll(keys, spread);
    var e00 := Offset(keys, 0, 0);
    var state := FirstState(keys);
    sum := 0;
    for k := 0 to count
      invariant state == StateAt(keys, k + 1)
      invariant text[..] == JoinPairs(finished[..k]) + before[32 * k..]
      invariant sum == SumLeft(spread[..k])
    {
      PairAtBoundary(JoinPairs(finished[..k]), before, k);
      StreamIsClosedForm(keys, SPREAD_ROW, k + 1);
      StreamIsClosedForm(keys, PAIR_ROW, k + 1);
      var y := FinishPairInPlace(keys, text, k, s, e00, StreamedOffset(keys, PAIR_ROW, state),
                                 StreamedOffset(keys, SPREAD_ROW, state), k + 1);
      WritePair(JoinPairs(finished[..k]), before, k, PairBytes(finished[k]));
      JoinStep(finished, k);
      JoinStep(spread, k);
      sum := Xor(sum, y);
      state := NextState(state);
    }
    assert finished[..count] == finished && spread[..count] == spread;
  }

  /** Masks the residue held at bytes from .. to. */
  method MaskResidue(keys: Subkeys, s: Block, text: array<byte>, from: nat, to: nat)
    requires from <= to <= text.Length && to - from < 32
    modifies text
    ensures text[..] == Splice(old(text[..]), from, ResidueMask(keys, s, old(text[..])[from..to]))
  {
    hide XorInto, EMinusOne, Splice;
    ghost var before := text[..];
    if from == to {
      SpliceNothing(before, from, []);
    } else if to - from < BLOCK_BYTES {
      XorSlice(text, from, to, EMinusOne(keys, RESIDUE_U_COLUMN, s));
    } else {
      var middle := from + BLOCK_BYTES;
      ghost var u := XorInto(EMinusOne(keys, RESIDUE_U_COLUMN, s), before[from..middle]);
      ghost var v := XorInto(EMinusOne(keys, RESIDUE_V_COLUMN, s), before[middle..to]);
      SplitResidue(before, from, middle, to, u);
      SpliceTwice(before, from, u, v);
      XorSlice(text, from, middle, EMinusOne(keys, RESIDUE_U_COLUMN, s));
      XorSlice(text, middle, to, EMinusOne(keys, RESIDUE_V_COLUMN, s));
    }
  }

  lemma SplitResidue(bytes: seq<byte>, from: nat, middle: nat, to: nat, patch: seq<byte>)
    requires from <= middle <= to <= |bytes| && |patch| == middle - from
    ensures bytes[from..to][..middle - from] == bytes[from..middle]
    ensures bytes[from..to][middle - from..] == bytes[middle..to]
    ensures Splice(bytes, from, patch)[middle..to] == bytes[middle..to]
  {}

  lemma SpliceNothing(bytes: seq<byte>, at: nat, patch: seq<byte>)
    requires at <= |bytes| && patch == []
    ensures Splice(bytes, at, patch) == bytes
  {}

  /** The buffer while it is processed: pairs, residue, and the two last blocks. */
  function Buffer(pairs: seq<Pair>, residue: seq<byte>, tail: seq<byte>): seq<byte> {
    JoinPairs(pairs) + residue + tail
  }

  lemma BufferOf(bytes: seq<byte>)
    requires |bytes| >= CORE_MIN_BYTES
    ensures var m := Split(bytes);
            bytes == Buffer(m.pairs, m.residue, ToBytes(m.x) + ToBytes(m.y))
  {
    hide ToBytes, JoinPairs, Split;
    JoinOfSplit(bytes);
  }

  lemma SplitTail(bytes: seq<byte>)
    requires |bytes| >= CORE_MIN_BYTES
    ensures var m := Split(bytes);
            && m.pairs == ReadPairs(bytes, PairCount(|bytes|)) && |bytes| == 32 * |m.pairs| + |m.residue| + 32
            && m.x == BlockAt(bytes, |bytes| - 32) && m.y == BlockAt(bytes, |bytes| - 16)
  {
    hide ReadPairs, BlockAt;
  }

  /** Everything up to the residue mask; returns (S_x, S_y). */
  method MixInPlace(keys: Subkeys, delta: Block, direction: Direction, text: array<byte>, ghost m: Layout)
    returns (sX: Block, sY: Block)
    requires text.Length >= CORE_MIN_BYTES && m == Split(text[..])
    modifies text
    ensures sX == SX(keys, delta, direction, m) && sY == SY(keys, direction, sX, m.y)
    ensures text[..] == Buffer(MixAll(keys, m.pairs), ResidueMask(keys, Xor(sX, sY), m.residue),
                               ToBytes(m.x) + ToBytes(m.y))
  {
    hide Xor, Whiten, EMinusOne, ToBytes, ResidueDigest, ResidueMask, MixAll, JoinPairs, ReadPairs, SumRight, Splice, BlockAt, Split;
    SplitTail(text[..]);
    ghost var tail := ToBytes(m.x) + ToBytes(m.y);
    BufferOf(text[..]);
    var length := text.Length;
    var count := PairCount(length);
    var from := 32 * count;
    var x, y := BlockAt(text[..], length - 32), BlockAt(text[..], length - 16);
    MiddleOf(JoinPairs(m.pairs), m.residue, tail);
    var sum := FirstPass(keys, text, count);
    ghost var front := JoinPairs(MixAll(keys, m.pairs));
    assert text[..] == front + m.residue + tail;
    MiddleOf(front, m.residue, tail);
    assert text[..][from..length - 32] == m.residue;
    var sumX := Xor(sum, ResidueDigest(keys, text[..][from..length - 32]));
    sX := Whiten(keys, delta, sumX, direction.InnerColumn(), x, y);
    sY := Xor(y, EMinusOne(keys, direction.InnerColumn(), sX));
    SpliceMiddle(front, m.residue, tail, ResidueMask(keys, Xor(sX, sY), m.residue));
    MaskResidue(keys, Xor(sX, sY), text, from, length - 32);
  }

  lemma ReplaceTail(front: seq<byte>, tail: seq<byte>, x: seq<byte>, y: seq<byte>)
    requires |tail| == |x| + |y|
    ensures Splice(front + tail, |front|, x + y) == front + x + y
  {}

  /** Pass 2 and the two last blocks. */
  method FinishInPlace(keys: Subkeys, delta: Block, direction: Direction, text: array<byte>, count: nat,
                       sX: Block, sY: Block, ghost mixed: seq<Pair>, ghost residue: seq<byte>, ghost tail: seq<byte>)
    requires |mixed| == count && |residue| < 32 && |tail| == 32
    requires text[..] == Buffer(mixed, residue, tail)
    modifies text
    ensures text[..] == Join(Finish(keys, delta, direction, mixed, residue, sX, sY))
  {
    hide Xor, Whiten, EMinusOne, ToBytes, ResidueDigest, SpreadAll, FinishAll, JoinPairs, ReadPairs, SumLeft, Splice;
    ghost var c := Finish(keys, delta, direction, mixed, residue, sX, sY);
    var length := text.Length;
    var from := 32 * count;
    assert text[..] == JoinPairs(mixed) + (residue + tail);
    ReadOfJoinPairs(mixed, residue + tail);
    MiddleOf(JoinPairs(mixed), residue, tail);
    var sum := SecondPass(keys, text, count, Xor(sX, sY));
    ghost var front := JoinPairs(c.pairs);
    assert text[..] == front + residue + tail;
    MiddleOf(front, residue, tail);
    assert text[..][from..length - 32] == residue;
    var sumY := Xor(sum, ResidueDigest(keys, text[..][from..length - 32]));
    var cY := Xor(sX, EMinusOne(keys, direction.OuterColumn(), sY));
    var cX := Whiten(keys, delta, sumY, direction.OuterColumn(), sY, cY);
    SpliceTwice(text[..], length - 32, ToBytes(cX), ToBytes(cY));
    ReplaceTail(front + residue, tail, ToBytes(cX), ToBytes(cY));
    WriteBytes(text, length - 32, ToBytes(cX));
    WriteBytes(text, length - 16, ToBytes(cY));
  }

  /** AEZ-core in place. */
  method Apply(keys: Subkeys, delta: Block, direction: Direction, text: array<byte>)
    modifies text
    ensures text[..] == CoreBytes(keys, delta, direction, old(text[..]))
  {
    hide Xor, SX, SY, Finish, Join, ToBytes, ResidueMask, MixAll, Buffer;
    if text.Length < CORE_MIN_BYTES {
      return;
    }
    ghost var m := Split(text[..]);
    var sX, sY := MixInPlace(keys, delta, direction, text, m);
    FinishInPlace(keys, delta, direction, text, PairCount(text.Length), sX, sY, MixAll(keys, m.pairs),
                  ResidueMask(keys, Xor(sX, sY), m.residue), ToBytes(m.x) + ToBytes(m.y));
  }
}
