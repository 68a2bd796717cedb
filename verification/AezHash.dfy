/** AEZ-hash and AEZ-prf: the tweak digest, and the keystream of the empty message
    (crates/aez/src/hash.rs). */
module AezHash {
  import opened Blocks
  import opened Buffers
  import opened Tbc

  const FIRST_COMPONENT_ROW: nat := 3
  const PRF_COLUMN: nat := 3

  /** The xor over l = 1 .. count of E^{j,l} of the l-th block of `component`. */
  function BodyDigest(keys: Subkeys, row: nat, component: seq<byte>, count: nat): Block
    requires 16 * count <= |component|
  {
    if count == 0 then 0
    else Xor(BodyDigest(keys, row, component, count - 1), E(keys, row, count, BlockAt(component, 16 * (count - 1))))
  }

  /** H_j of one component: its whole blocks, and a padded tail unless it is a positive number of blocks. */
  function ComponentDigest(keys: Subkeys, row: nat, component: seq<byte>): Block {
    var count := |component| / BLOCK_BYTES;
    var body := BodyDigest(keys, row, component, count);
    if 16 * count < |component| || count == 0
    then Xor(body, E(keys, row, 0, Padded(component[16 * count..])))
    else body
  }

  /** The tweak digest: the xor of H_{i+2} of the i-th component, counting from 1. */
  function Hash(keys: Subkeys, components: seq<seq<byte>>): Block {
    if components == [] then 0
    else
      var last := |components| - 1;
      Xor(Hash(keys, components[..last]), ComponentDigest(keys, last + FIRST_COMPONENT_ROW, components[last]))
  }

  method ComputeComponentDigest(keys: Subkeys, row: nat, component: seq<byte>) returns (digest: Block)
    ensures digest == ComponentDigest(keys, row, component)
  {
    hide Xor, Offset, StreamedOffset, FirstState, NextState, Aes4, BlockAt, Padded;
    var count := |component| / BLOCK_BYTES;
    var state := FirstState(keys);
    digest := 0;
    for k := 0 to count
      invariant state == StateAt(keys, k + 1)
      invariant digest == BodyDigest(keys, row, component, k)
    {
      StreamIsClosedForm(keys, row, k + 1);
      digest := Xor(digest, Aes4At(keys, StreamedOffset(keys, row, state), BlockAt(component, 16 * k)));
      state := NextState(state);
    }
    if 16 * count < |component| || count == 0 {
      digest := Xor(digest, E(keys, row, 0, Padded(component[16 * count..])));
    }
  }

  method ComputeHash(keys: Subkeys, components: seq<seq<byte>>) returns (delta: Block)
    ensures delta == Hash(keys, components)
  {
    hide Xor, ComponentDigest;
    delta := 0;
    var row := FIRST_COMPONENT_ROW;
    for k := 0 to |components|
      invariant row == k + FIRST_COMPONENT_ROW
      invariant delta == Hash(keys, components[..k])
    {
      var digest := ComputeComponentDigest(keys, row, components[k]);
      delta := Xor(delta, digest);
      row := row + 1;
      assert components[..k + 1][..k] == components[..k];
    }
    assert components[..|components|] == components;
  }

  /** Block `counter` of the keystream. */
  function KeystreamBlock(keys: Subkeys, delta: Block, counter: nat): Block {
    EMinusOne(keys, PRF_COLUMN, Xor(delta, FromIndex(counter)))
  }

  /** `buffer` xored with the keystream. */
  function XorPrf(keys: Subkeys, delta: Block, buffer: seq<byte>): (result: seq<byte>)
    ensures |result| == |buffer|
  {
    seq(|buffer|, p requires 0 <= p < |buffer| =>
      buffer[p] ^ ToBytes(KeystreamBlock(keys, delta, p / BLOCK_BYTES))[p % BLOCK_BYTES])
  }

  lemma XorPrfTwice(keys: Subkeys, delta: Block, buffer: seq<byte>)
    ensures XorPrf(keys, delta, XorPrf(keys, delta, buffer)) == buffer
  {
    hide ToBytes, KeystreamBlock;
  }

  lemma PositionInChunk(counter: nat, k: nat)
    requires k < BLOCK_BYTES
    ensures (16 * counter + k) / BLOCK_BYTES == counter && (16 * counter + k) % BLOCK_BYTES == k
  {}

  lemma ChunkOf(keys: Subkeys, delta: Block, before: seq<byte>, from: nat, to: nat, counter: nat)
    requires from == 16 * counter && from < to <= |before| && to <= from + 16
    ensures XorInto(KeystreamBlock(keys, delta, counter), before[from..to]) == XorPrf(keys, delta, before)[from..to]
  {
    hide ToBytes, KeystreamBlock;
    var chunk, goal := XorInto(KeystreamBlock(keys, delta, counter), before[from..to]), XorPrf(keys, delta, before);
    forall k | 0 <= k < to - from
      ensures chunk[k] == goal[from..to][k]
    {
      PositionInChunk(counter, k);
      assert goal[from..to][k] == goal[16 * counter + k];
      assert before[from..to][k] == before[16 * counter + k];
    }
  }

  // One more chunk of the keystream.
  lemma ChunkStep(before: seq<byte>, goal: seq<byte>, from: nat, to: nat)
    requires from <= to <= |before| == |goal|
    ensures (goal[..from] + before[from..])[from..to] == before[from..to]
    ensures Splice(goal[..from] + before[from..], from, goal[from..to]) == goal[..to] + before[to..]
  {}

  method XorPrfInPlace(keys: Subkeys, delta: Block, buffer: array<byte>)
    modifies buffer
    ensures buffer[..] == XorPrf(keys, delta, old(buffer[..]))
  {
    hide XorPrf, KeystreamBlock, XorInto, Splice;
    ghost var before := buffer[..];
    var from, counter := 0, 0;
    while from < buffer.Length
      invariant from <= buffer.Length && (from < buffer.Length ==> from == 16 * counter)
      invariant buffer[..] == XorPrf(keys, delta, before)[..from] + before[from..]
    {
      var to := if from + BLOCK_BYTES < buffer.Length then from + BLOCK_BYTES else buffer.Length;
      ChunkStep(before, XorPrf(keys, delta, before), from, to);
      ChunkOf(keys, delta, before, from, to, counter);
      XorSlice(buffer, from, to, KeystreamBlock(keys, delta, counter));
      from, counter := to, counter + 1;
    }
  }
}
