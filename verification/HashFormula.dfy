/** What AEZ-hash and AEZ-prf compute, in the formulas of AEZ v5, section 3 (crates/aez/src/hash.rs). */
module HashFormula {
  import opened Blocks
  import opened Buffers
  import opened Formulas
  import opened Tbc
  import AezHash

  /** E^{j,l} of the first `count` blocks X_l of a string, l counting from 1. */
  function BlockTerms(keys: Subkeys, row: nat, text: seq<byte>, count: nat): (terms: seq<Block>)
    requires 16 * count <= |text|
    ensures |terms| == count
  {
    seq(count, l requires 0 <= l < count => E(keys, row, l + 1, FromBytes(text[16 * l..16 * l + 16])))
  }

  /** H_j of a string: the xor over its whole blocks, and of the tail X10* under E^{j,0} when the string is empty
      or ends in a partial block. */
  function H(keys: Subkeys, row: nat, text: seq<byte>): Block {
    var body := XorAll(BlockTerms(keys, row, text, |text| / 16));
    if text != [] && |text| % 16 == 0 then body
    else Xor(body, E(keys, row, 0, TenStar(text[|text| / 16 * 16..])))
  }

  lemma {:induction false} BodyIsXorAll(keys: Subkeys, row: nat, text: seq<byte>, count: nat)
    requires 16 * count <= |text|
    ensures AezHash.BodyDigest(keys, row, text, count) == XorAll(BlockTerms(keys, row, text, count))
  {
    hide Xor, E, FromBytes;
    if count > 0 {
      BodyIsXorAll(keys, row, text, count - 1);
      var init := BlockTerms(keys, row, text, count - 1);
      var last := E(keys, row, count, FromBytes(text[16 * (count - 1)..16 * (count - 1) + 16]));
      assert BlockTerms(keys, row, text, count) == init + [last];
      XorAllSnoc(init, last);
    }
  }

  lemma ComponentIsH(keys: Subkeys, row: nat, text: seq<byte>)
    ensures AezHash.ComponentDigest(keys, row, text) == H(keys, row, text)
  {
    hide Xor, E, Padded, TenStar, AezHash.BodyDigest, BlockTerms, XorAll;
    var count := |text| / 16;
    BodyIsXorAll(keys, row, text, count);
    PaddedIsTenStar(text[16 * count..]);
    TailStart(|text|);
  }

  lemma TailStart(length: nat)
    ensures length / 16 * 16 == 16 * (length / 16) <= length
    ensures (16 * (length / 16) < length || length / 16 == 0) <==> !(length > 0 && length % 16 == 0)
  {}

  /** H_{i+2} of the i-th component, counting from 1. */
  function ComponentTerms(keys: Subkeys, components: seq<seq<byte>>): (terms: seq<Block>)
    ensures |terms| == |components|
  {
    seq(|components|, k requires 0 <= k < |components| => H(keys, (k + 1) + 2, components[k]))
  }

  // The tweak digest is the xor of H_{i+2} of the i-th component over the whole vector.
  lemma {:induction false} HashIs(keys: Subkeys, components: seq<seq<byte>>)
    ensures AezHash.Hash(keys, components) == XorAll(ComponentTerms(keys, components))
  {
    hide Xor, H, AezHash.ComponentDigest;
    if components != [] {
      var last := |components| - 1;
      HashIs(keys, components[..last]);
      ComponentIsH(keys, last + 3, components[last]);
      var init := ComponentTerms(keys, components[..last]);
      assert ComponentTerms(keys, components) == init + [H(keys, last + 3, components[last])];
      XorAllSnoc(init, H(keys, last + 3, components[last]));
    }
  }

  // Replacing the i-th component exchanges its term and no other.
  lemma HashOfReplaced(keys: Subkeys, components: seq<seq<byte>>, i: nat, text: seq<byte>)
    requires 1 <= i <= |components|
    ensures AezHash.Hash(keys, components[i - 1 := text])
         == Xor(AezHash.Hash(keys, components), Xor(H(keys, i + 2, components[i - 1]), H(keys, i + 2, text)))
  {
    hide Xor, H, AezHash.Hash, XorAll;
    var terms := ComponentTerms(keys, components);
    HashIs(keys, components);
    HashIs(keys, components[i - 1 := text]);
    assert ComponentTerms(keys, components[i - 1 := text]) == terms[i - 1 := H(keys, i + 2, text)];
    XorAllUpdate(terms, i - 1, H(keys, i + 2, text));
  }

  lemma HashOfAppended(keys: Subkeys, components: seq<seq<byte>>, text: seq<byte>)
    ensures AezHash.Hash(keys, []) == 0
    ensures AezHash.Hash(keys, components + [text])
         == Xor(AezHash.Hash(keys, components), H(keys, |components| + 3, text))
  {
    HashIs(keys, []);
    hide Xor, H, AezHash.Hash;
    HashIs(keys, components);
    HashIs(keys, components + [text]);
    assert ComponentTerms(keys, components + [text])
        == ComponentTerms(keys, components) + [H(keys, |components| + 3, text)];
    XorAllSnoc(ComponentTerms(keys, components), H(keys, |components| + 3, text));
  }

  // The keystream: byte p is xored with byte p mod 16 of E^{-1,3}(Delta + [p / 16]).
  lemma KeystreamIs(keys: Subkeys, delta: Block, buffer: seq<byte>, p: nat)
    requires p < |buffer|
    ensures AezHash.XorPrf(keys, delta, buffer)[p]
         == buffer[p] ^ ToBytes(EMinusOne(keys, 3, Xor(delta, FromIndex(p / 16))))[p % 16]
  {
    hide ToBytes, EMinusOne, Xor, FromIndex;
  }
}
