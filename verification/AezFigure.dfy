/** What encryption computes, in the formulas and figures of AEZ v5, section 3 (crates/aez/src/lib.rs). */
module AezFigure {
  import opened Wrappers
  import opened Blocks
  import opened Formulas
  import opened Tbc
  import opened Directions
  import opened Aez
  import AezHash
  import AezTiny
  import AezCore
  import Cipher
  import HashFormula
  import TinyFigure
  import CoreFigure

  /** The digest of ([8t], N, A_1, ..., A_n): component i, counting from 1, under H_{i+2}. */
  function Delta(keys: Subkeys, tweak: Tweak, expansion: nat): Block {
    XorAll(HashFormula.ComponentTerms(keys, [ToBytes(FromIndex(8 * expansion))] + tweak))
  }

  // y is x under the keystream E^{-1,3}(Delta + [0]) E^{-1,3}(Delta + [1]) ...
  ghost predicate Streamed(keys: Subkeys, delta: Block, x: seq<byte>, y: seq<byte>) {
    && |y| == |x|
    && forall p | 0 <= p < |x| :: y[p] == x[p] ^ ToBytes(EMinusOne(keys, 3, Xor(delta, FromIndex(p / 16))))[p % 16]
  }

  // y is x under the wide-block cipher: nothing, AEZ-tiny below 32 bytes, AEZ-core from 32 on.
  ghost predicate Ciphered(keys: Subkeys, delta: Block, direction: Direction, x: seq<byte>, y: seq<byte>) {
    if |x| == 0 then y == x
    else if |x| < 32 then TinyFigure.Figure(keys, delta, direction, x, y)
    else |y| == |x| && exists t :: CoreFigure.Figure(keys, delta, direction, x, y, t)
  }

  lemma DeltaIs(keys: Subkeys, tweak: Tweak, expansion: nat)
    ensures AezHash.Hash(keys, Components(tweak, expansion)) == Delta(keys, tweak, expansion)
  {
    hide AezHash.Hash, HashFormula.ComponentTerms, XorAll, ToBytes, FromIndex;
    HashFormula.HashIs(keys, Components(tweak, expansion));
  }

  lemma StreamedIs(keys: Subkeys, delta: Block, x: seq<byte>, y: seq<byte>)
    ensures AezHash.XorPrf(keys, delta, x) == y <==> Streamed(keys, delta, x, y)
  {
    hide ToBytes, EMinusOne, Xor, FromIndex, AezHash.XorPrf;
    var result := AezHash.XorPrf(keys, delta, x);
    forall p | 0 <= p < |x|
      ensures result[p] == x[p] ^ ToBytes(EMinusOne(keys, 3, Xor(delta, FromIndex(p / 16))))[p % 16]
    {
      HashFormula.KeystreamIs(keys, delta, x, p);
    }
  }

  lemma CipheredIs(keys: Subkeys, delta: Block, direction: Direction, x: seq<byte>, y: seq<byte>)
    ensures Cipher.CipherBytes(keys, delta, direction, x) == y <==> Ciphered(keys, delta, direction, x, y)
  {
    hide AezTiny.TinyBytes, AezCore.CoreBytes, TinyFigure.Figure, CoreFigure.Figure;
    if 0 < |x| < 32 {
      TinyFigure.TinyIsFigure(keys, delta, direction, x, y);
    } else if |x| >= 32 {
      CoreFigure.CoreIsFigure(keys, delta, direction, x, y);
    }
  }

  // The ciphertext of a message: the keystream for the empty one, the cipher of the message and zeros otherwise.
  lemma EncryptIs(keys: Subkeys, tweak: Tweak, expansion: nat, message: seq<byte>, slot: seq<byte>, ciphertext: seq<byte>)
    requires |slot| == expansion
    ensures var zeros := seq(expansion, _ => 0 as byte);
            Encrypt(keys, tweak, expansion, message + slot) == Ok(ciphertext) <==>
              if message == [] then Streamed(keys, Delta(keys, tweak, expansion), zeros, ciphertext)
              else Ciphered(keys, Delta(keys, tweak, expansion), Encipher, message + zeros, ciphertext)
  {
    hide AezHash.Hash, AezHash.XorPrf, Cipher.CipherBytes, Components, Delta, Streamed, Ciphered;
    var zeros := seq(expansion, _ => 0 as byte);
    var delta := Delta(keys, tweak, expansion);
    assert (message + slot)[..|message|] == message && Zeros(expansion) == zeros;
    assert message == [] ==> message + zeros == zeros;
    DeltaIs(keys, tweak, expansion);
    StreamedIs(keys, delta, zeros, ciphertext);
    CipheredIs(keys, delta, Encipher, message + zeros, ciphertext);
  }

  // Encryption fails exactly on a buffer shorter than the expansion. So does decryption, and otherwise exactly on
  // what no message encrypts to.
  lemma FailuresAre(keys: Subkeys, tweak: Tweak, expansion: nat, buffer: seq<byte>)
    ensures Encrypt(keys, tweak, expansion, buffer).Err? <==> |buffer| < expansion
    ensures |buffer| < expansion ==>
              && Encrypt(keys, tweak, expansion, buffer) == Err(ExpansionExceedsBuffer(|buffer|, expansion))
              && Decrypt(keys, tweak, expansion, buffer) == Err(Truncated(ExpansionExceedsBuffer(|buffer|, expansion)))
    ensures |buffer| >= expansion ==>
              (Decrypt(keys, tweak, expansion, buffer) == Err(Inauthentic)
               <==> forall message :: Encrypt(keys, tweak, expansion, message + Zeros(expansion)) != Ok(buffer))
  {
    hide Transform;
    forall message
      ensures Decrypt(keys, tweak, expansion, buffer) == Ok(message)
         <==> Encrypt(keys, tweak, expansion, message + Zeros(expansion)) == Ok(buffer)
    {
      DecryptIsTidy(keys, tweak, expansion, message, Zeros(expansion), buffer);
    }
    if |buffer| >= expansion && Decrypt(keys, tweak, expansion, buffer).Ok? {
      assert Encrypt(keys, tweak, expansion, Decrypt(keys, tweak, expansion, buffer).value + Zeros(expansion)) == Ok(buffer);
    }
  }
}
