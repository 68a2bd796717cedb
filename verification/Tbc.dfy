/** The tweakable blockcipher E^{j,i} of AEZ v5, section 3, over an arbitrary round function
    (crates/aez/src/tbc.rs). */
module Tbc {
  import opened Wrappers
  import opened Blocks
  import opened Field

  const KEY_BYTES: nat := 48

  datatype SubkeyName = NameI | NameJ | NameL

  datatype KeyError = ZeroSubkey(name: SubkeyName)

  // One AES round: state and round key to the next state.
  type Round = (Block, Block) -> Block

  /** The subkeys I, J, L and the round function they are used with. */
  datatype Subkeys = Subkeys(i: Block, j: Block, l: Block, round: Round)

  /** The first subkey that is zero, if any. */
  function FirstZeroSubkey(keys: Subkeys): Option<SubkeyName> {
    if keys.i == 0 then Some(NameI)
    else if keys.j == 0 then Some(NameJ)
    else if keys.l == 0 then Some(NameL)
    else None
  }

  /** Splits K = I J L, rejecting a key with a zero subkey. */
  function NewSubkeys(key: seq<byte>, round: Round): Result<Subkeys, KeyError>
    requires |key| == KEY_BYTES
  {
    var keys := Subkeys(FromPrefix(key[..16]), FromPrefix(key[16..32]), FromPrefix(key[32..]), round);
    match FirstZeroSubkey(keys)
    case None => Ok(keys)
    case Some(name) => Err(ZeroSubkey(name))
  }

  /** Applies one round under each key in turn. */
  function Rounds(round: Round, roundKeys: seq<Block>, block: Block): Block
    decreases |roundKeys|
  {
    if roundKeys == [] then block else Rounds(round, roundKeys[1..], round(block, roundKeys[0]))
  }

  /** Four rounds under (J, I, L, 0). */
  function Aes4(keys: Subkeys, block: Block): Block {
    Rounds(keys.round, [keys.j, keys.i, keys.l, 0], block)
  }

  /** Ten rounds under I, J, L in cyclic order. */
  function Aes10(keys: Subkeys, block: Block): Block {
    var cycle := [keys.i, keys.j, keys.l];
    Rounds(keys.round, cycle + cycle + cycle + [keys.i], block)
  }

  /** The least integer that is at least n / 8. */
  function CeilingDiv8(n: nat): nat {
    (n + 7) / 8
  }

  /** The offset j.J + 2^ceil(i/8).I + (i mod 8).L in closed form. */
  function Offset(keys: Subkeys, row: nat, column: nat): Block {
    Xor(Xor(Times(keys.j, row), TimesPowerOfTwo(keys.i, CeilingDiv8(column))), Times(keys.l, column % 8))
  }

  /** E^{j,i} at a precomputed offset. */
  function Aes4At(keys: Subkeys, offset: Block, block: Block): Block {
    Aes4(keys, Xor(block, offset))
  }

  /** E^{j,i} for j >= 0. */
  function E(keys: Subkeys, row: nat, column: nat, block: Block): Block {
    Aes4At(keys, Offset(keys, row, column), block)
  }

  /** E^{-1,i}. */
  function EMinusOne(keys: Subkeys, column: nat, block: Block): Block {
    Aes10(keys, Xor(block, Times(keys.l, column)))
  }

  // The formulas of E, written out.
  lemma EIs(keys: Subkeys, row: nat, column: nat, block: Block)
    ensures var offset := Xor(Xor(Times(keys.j, row), Times(keys.i, PowerOfTwo((column + 7) / 8))),
                              Times(keys.l, column % 8));
            E(keys, row, column, block)
            == keys.round(keys.round(keys.round(keys.round(Xor(block, offset), keys.j), keys.i), keys.l), 0)
  {
    hide Xor, Times, TimesPowerOfTwo, PowerOfTwo, Rounds;
    TimesAgreesWithPower(keys.i, (column + 7) / 8);
    var x0 := Xor(block, Offset(keys, row, column));
    assert [keys.j, keys.i, keys.l, 0] == [keys.j, keys.i, keys.l] + [0];
    ThreeRounds(keys.round, keys.j, keys.i, keys.l, [0], x0);
    LastRound(keys.round, 0, keys.round(keys.round(keys.round(x0, keys.j), keys.i), keys.l));
  }

  lemma RoundsCons(round: Round, key: Block, rest: seq<Block>, block: Block)
    ensures Rounds(round, [key] + rest, block) == Rounds(round, rest, round(block, key))
  {
    assert ([key] + rest)[1..] == rest;
  }

  lemma NoRounds(round: Round, block: Block)
    ensures Rounds(round, [], block) == block
  {}

  lemma ThreeRounds(round: Round, a: Block, b: Block, c: Block, rest: seq<Block>, block: Block)
    ensures Rounds(round, [a, b, c] + rest, block) == Rounds(round, rest, round(round(round(block, a), b), c))
  {
    hide Rounds;
    assert [a, b, c] + rest == [a] + ([b] + ([c] + rest));
    RoundsCons(round, a, [b] + ([c] + rest), block);
    RoundsCons(round, b, [c] + rest, round(block, a));
    RoundsCons(round, c, rest, round(round(block, a), b));
  }

  lemma LastRound(round: Round, key: Block, block: Block)
    ensures Rounds(round, [key], block) == round(block, key)
  {
    hide Rounds;
    assert [key] == [key] + [];
    RoundsCons(round, key, [], block);
    NoRounds(round, round(block, key));
  }

  lemma EMinusOneIs(keys: Subkeys, column: nat, block: Block)
    ensures var x0 := Xor(block, Times(keys.l, column));
            var x3 := keys.round(keys.round(keys.round(x0, keys.i), keys.j), keys.l);
            var x6 := keys.round(keys.round(keys.round(x3, keys.i), keys.j), keys.l);
            var x9 := keys.round(keys.round(keys.round(x6, keys.i), keys.j), keys.l);
            EMinusOne(keys, column, block) == keys.round(x9, keys.i)
  {
    hide Xor, Times, Rounds;
    var i, j, l := keys.i, keys.j, keys.l;
    var cycle := [i, j, l];
    var x0 := Xor(block, Times(l, column));
    var x3 := keys.round(keys.round(keys.round(x0, i), j), l);
    var x6 := keys.round(keys.round(keys.round(x3, i), j), l);
    assert cycle + cycle + cycle + [i] == cycle + (cycle + (cycle + [i]));
    ThreeRounds(keys.round, i, j, l, cycle + (cycle + [i]), x0);
    ThreeRounds(keys.round, i, j, l, cycle + [i], x3);
    ThreeRounds(keys.round, i, j, l, [i], x6);
    LastRound(keys.round, i, keys.round(keys.round(keys.round(x6, i), j), l));
  }

  // -------------------------------------------------------------------------
  // The incremental offset stream
  // -------------------------------------------------------------------------

  const TWO_TO_THE_64: nat := 0x1_0000_0000_0000_0000

  /** The state of the stream: a wrapping 64-bit index and 2^ceil(i/8).I. */
  datatype OffsetState = OffsetState(index: nat, power: Block)

  function FirstState(keys: Subkeys): OffsetState {
    OffsetState(1, Double(keys.i))
  }

  function NextState(state: OffsetState): OffsetState {
    OffsetState((state.index + 1) % TWO_TO_THE_64,
                if state.index % 8 == 0 then Double(state.power) else state.power)
  }

  function StreamedOffset(keys: Subkeys, row: nat, state: OffsetState): Block {
    Xor(Xor(Times(keys.j, row), state.power), Times(keys.l, state.index % 8))
  }

  /** The state that produces the `position`-th element, counting from 1. */
  function StateAt(keys: Subkeys, position: nat): OffsetState
    requires position >= 1
  {
    if position == 1 then FirstState(keys) else NextState(StateAt(keys, position - 1))
  }

  lemma {:induction false} StateInvariant(keys: Subkeys, position: nat)
    requires position >= 1
    ensures StateAt(keys, position).index == position % TWO_TO_THE_64
    ensures StateAt(keys, position).power == TimesPowerOfTwo(keys.i, CeilingDiv8(position))
  {
    hide Double;
    if position == 1 {
      PowerStep(keys.i, 0);
    } else {
      StateInvariant(keys, position - 1);
      PowerStep(keys.i, CeilingDiv8(position - 1));
      CeilingStep(position - 1);
      WrapStep(position - 1);
    }
  }

  lemma CeilingStep(n: nat)
    ensures CeilingDiv8(n + 1) == CeilingDiv8(n) + (if n % 8 == 0 then 1 else 0)
  {}

  lemma Remainder(q: nat, r: nat)
    requires r < TWO_TO_THE_64
    ensures (q * TWO_TO_THE_64 + r) % TWO_TO_THE_64 == r
  {}

  lemma RemainderMod8(q: nat, r: nat)
    ensures (8 * q + r) % 8 == r % 8
  {}

  // 2^64 is a multiple of 8, so the wrapping index keeps its residue.
  lemma WrapStep(n: nat)
    ensures (n % TWO_TO_THE_64 + 1) % TWO_TO_THE_64 == (n + 1) % TWO_TO_THE_64
    ensures n % TWO_TO_THE_64 % 8 == n % 8
  {
    var q, r := n / TWO_TO_THE_64, n % TWO_TO_THE_64;
    assert n == q * TWO_TO_THE_64 + r;
    if r + 1 < TWO_TO_THE_64 {
      Remainder(q, r + 1);
    } else {
      Remainder(q + 1, 0);
    }
    RemainderMod8(q * 0x2000_0000_0000_0000, r);
  }

  // The stream refines the closed form at every position, even past the wrap of its index.
  lemma StreamIsClosedForm(keys: Subkeys, row: nat, position: nat)
    requires position >= 1
    ensures StreamedOffset(keys, row, StateAt(keys, position)) == Offset(keys, row, position)
  {
    hide Xor, Times, TimesPowerOfTwo, Double;
    StateInvariant(keys, position);
    WrapStep(position);
  }

  // -------------------------------------------------------------------------
  // What the key check establishes
  // -------------------------------------------------------------------------

  // A key is accepted exactly when none of its thirds is zero; a rejection names the first zero one.
  lemma KeyAccepted(key: seq<byte>, round: Round)
    requires |key| == KEY_BYTES
    ensures var zero := seq(BLOCK_BYTES, _ => 0 as byte);
            match NewSubkeys(key, round)
            case Ok(keys) =>
              && ToBytes(keys.i) == key[..16] != zero
              && ToBytes(keys.j) == key[16..32] != zero
              && ToBytes(keys.l) == key[32..] != zero
            case Err(ZeroSubkey(name)) =>
              && (name == NameI <==> key[..16] == zero)
              && (name == NameJ <==> key[..16] != zero && key[16..32] == zero)
              && (name == NameL <==> key[..16] != zero && key[16..32] != zero && key[32..] == zero)
  {
    hide ToBytes, FromBytes;
    ZeroPrefix(key[..16]);
    ZeroPrefix(key[16..32]);
    ZeroPrefix(key[32..]);
    hide FromPrefix;
  }

  lemma ZeroPrefix(bytes: seq<byte>)
    requires |bytes| == BLOCK_BYTES
    ensures ToBytes(FromPrefix(bytes)) == bytes
    ensures FromPrefix(bytes) == 0 <==> bytes == seq(BLOCK_BYTES, _ => 0 as byte)
  {
    var zero := seq(BLOCK_BYTES, _ => 0 as byte);
    assert ZeroExtended(bytes) == bytes;
    ToBytesOfZero();
    hide ToBytes, FromBytes;
    RoundTrip(0, bytes);
    RoundTrip(0, zero);
    assert ToBytes(0) == zero;
  }

  // Under an accepted key no power-of-two part of an offset vanishes, and the eight offsets of a
  // group of any row are pairwise distinct.
  lemma PowerPartNonzero(key: seq<byte>, round: Round, column: nat)
    requires |key| == KEY_BYTES && NewSubkeys(key, round).Ok?
    ensures TimesPowerOfTwo(NewSubkeys(key, round).value.i, CeilingDiv8(column)) != 0
  {
    hide FromPrefix;
    PowerNonzero(NewSubkeys(key, round).value.i, CeilingDiv8(column));
  }

  lemma OffsetsDistinctInGroup(key: seq<byte>, round: Round, row: nat, group: nat, a: nat, b: nat)
    requires |key| == KEY_BYTES && NewSubkeys(key, round).Ok?
    requires 8 * group + 1 <= a < b <= 8 * group + 8
    ensures var keys := NewSubkeys(key, round).value;
            Offset(keys, row, a) != Offset(keys, row, b)
  {
    hide FromPrefix, Xor, Times, TimesPowerOfTwo;
    var keys := NewSubkeys(key, round).value;
    assert keys.l != 0;
    assert CeilingDiv8(a) == group + 1 && CeilingDiv8(b) == group + 1;
    assert a % 8 != b % 8;
    var common := Xor(Times(keys.j, row), TimesPowerOfTwo(keys.i, group + 1));
    SmallMultiplesDistinct(keys.l, a % 8, b % 8);
    if Offset(keys, row, a) == Offset(keys, row, b) {
      XorInjective(common, Times(keys.l, a % 8), Times(keys.l, b % 8));
    }
  }

  lemma XorInjective(common: Block, x: Block, y: Block)
    requires Xor(common, x) == Xor(common, y)
    ensures x == y
  {
    hide Xor;
    XorCommutes(common, x);
    XorCommutes(common, y);
    XorCancels(x, common);
    XorCancels(y, common);
  }
}
