/** AEZ v5 under one key: authenticated encryption with an arbitrary expansion, in place on the
    caller's buffer (crates/aez/src/lib.rs). */
module Aez {
  import opened Wrappers
  import opened Blocks
  import opened Tbc
  import opened Directions
  import Cipher
  import AezHash

  // (N, A_1, ..., A_t): a nonce followed by associated data.
  type Tweak = seq<seq<byte>>

  datatype ExpansionExceedsBuffer = ExpansionExceedsBuffer(length: nat, expansion: nat)

  datatype DecryptError = Truncated(reason: ExpansionExceedsBuffer) | Inauthentic

  function Zeros(count: nat): (bytes: seq<byte>)
    ensures |bytes| == count
  {
    seq(count, _ => 0)
  }

  /** The vector that is hashed: the expansion in bits, then the tweak. */
  function Components(tweak: Tweak, expansion: nat): seq<seq<byte>> {
    [ToBytes(FromIndex(8 * expansion))] + tweak
  }

  /** AEZ-prf when the message is empty, the wide-block cipher otherwise. */
  function Transform(keys: Subkeys, tweak: Tweak, expansion: nat, direction: Direction, buffer: seq<byte>)
    : (result: seq<byte>)
    ensures |result| == |buffer|
  {
    var delta := AezHash.Hash(keys, Components(tweak, expansion));
    if |buffer| == expansion then AezHash.XorPrf(keys, delta, buffer)
    else Cipher.CipherBytes(keys, delta, direction, buffer)
  }

  /** The ciphertext of the message in front of the last `expansion` bytes of `buffer`. */
  function Encrypt(keys: Subkeys, tweak: Tweak, expansion: nat, buffer: seq<byte>)
    : Result<seq<byte>, ExpansionExceedsBuffer>
  {
    if |buffer| < expansion then Err(ExpansionExceedsBuffer(|buffer|, expansion))
    else Ok(Transform(keys, tweak, expansion, Encipher, buffer[..|buffer| - expansion] + Zeros(expansion)))
  }

  /** The message of `buffer`, if its authenticator is zero. */
  function Decrypt(keys: Subkeys, tweak: Tweak, expansion: nat, buffer: seq<byte>)
    : Result<seq<byte>, DecryptError>
  {
    if |buffer| < expansion then Err(Truncated(ExpansionExceedsBuffer(|buffer|, expansion)))
    else
      var plain := Transform(keys, tweak, expansion, Decipher, buffer);
      var message := |buffer| - expansion;
      if plain[message..] == Zeros(expansion) then Ok(plain[..message]) else Err(Inauthentic)
  }

  // -------------------------------------------------------------------------
  // Laws
  // -------------------------------------------------------------------------

  // The two directions undo each other on each of the three paths.
  lemma TransformInverts(keys: Subkeys, tweak: Tweak, expansion: nat, direction: Direction, buffer: seq<byte>)
    ensures Transform(keys, tweak, expansion, direction.Opposite(),
                      Transform(keys, tweak, expansion, direction, buffer)) == buffer
  {
    hide AezHash.Hash, AezHash.XorPrf, Cipher.CipherBytes, Components;
    var delta := AezHash.Hash(keys, Components(tweak, expansion));
    AezHash.XorPrfTwice(keys, delta, buffer);
    Cipher.CipherInverts(keys, delta, direction, buffer);
  }

  // Decryption is tidy: it returns a message exactly for the ciphertext that encryption produces from
  // it, whatever the slot behind the message held.
  lemma DecryptIsTidy(keys: Subkeys, tweak: Tweak, expansion: nat,
                      message: seq<byte>, slot: seq<byte>, ciphertext: seq<byte>)
    requires |slot| == expansion
    ensures Decrypt(keys, tweak, expansion, ciphertext) == Ok(message)
       <==> Encrypt(keys, tweak, expansion, message + slot) == Ok(ciphertext)
  {
    hide Transform;
    var padded := message + Zeros(expansion);
    assert (message + slot)[..|message|] == message;
    if Decrypt(keys, tweak, expansion, ciphertext) == Ok(message) {
      var plain := Transform(keys, tweak, expansion, Decipher, ciphertext);
      assert plain == plain[..|message|] + plain[|message|..] == padded;
      TransformInverts(keys, tweak, expansion, Decipher, ciphertext);
    }
    if Encrypt(keys, tweak, expansion, message + slot) == Ok(ciphertext) {
      TransformInverts(keys, tweak, expansion, Encipher, padded);
      assert padded[|message|..] == Zeros(expansion) && padded[..|message|] == message;
    }
  }

  // Decryption inverts encryption for every tweak, expansion, message and slot content.
  lemma DecryptInvertsEncrypt(keys: Subkeys, tweak: Tweak, expansion: nat, message: seq<byte>, slot: seq<byte>)
    requires |slot| == expansion
    ensures var encrypted := Encrypt(keys, tweak, expansion, message + slot);
            encrypted.Ok? && Decrypt(keys, tweak, expansion, encrypted.value) == Ok(message)
  {
    hide Transform;
    DecryptIsTidy(keys, tweak, expansion, message, slot,
                  Encrypt(keys, tweak, expansion, message + slot).value);
  }

  // Distinct messages have distinct ciphertexts under one key, tweak and expansion.
  lemma EncryptIsInjective(keys: Subkeys, tweak: Tweak, expansion: nat, a: seq<byte>, b: seq<byte>, slot: seq<byte>)
    requires |slot| == expansion
    requires Encrypt(keys, tweak, expansion, a + slot) == Encrypt(keys, tweak, expansion, b + slot)
    ensures a == b
  {
    hide Encrypt, Decrypt;
    DecryptInvertsEncrypt(keys, tweak, expansion, a, slot);
    DecryptInvertsEncrypt(keys, tweak, expansion, b, slot);
  }

  /** The permutation under one key and tweak. */
  function EncipherBytes(keys: Subkeys, tweak: Tweak, buffer: seq<byte>): (result: seq<byte>)
    ensures |result| == |buffer|
  {
    Transform(keys, tweak, 0, Encipher, buffer)
  }

  function DecipherBytes(keys: Subkeys, tweak: Tweak, buffer: seq<byte>): (result: seq<byte>)
    ensures |result| == |buffer|
  {
    Transform(keys, tweak, 0, Decipher, buffer)
  }

  lemma EncipherDecipher(keys: Subkeys, tweak: Tweak, buffer: seq<byte>)
    ensures DecipherBytes(keys, tweak, EncipherBytes(keys, tweak, buffer)) == buffer
    ensures EncipherBytes(keys, tweak, DecipherBytes(keys, tweak, buffer)) == buffer
  {
    hide Transform;
    TransformInverts(keys, tweak, 0, Encipher, buffer);
    TransformInverts(keys, tweak, 0, Decipher, buffer);
  }

  // At expansion zero a nonempty buffer always decrypts, to its image under the inverse permutation.
  lemma NothingToAuthenticate(keys: Subkeys, tweak: Tweak, buffer: seq<byte>)
    ensures Decrypt(keys, tweak, 0, buffer) == Ok(DecipherBytes(keys, tweak, buffer))
    ensures Encrypt(keys, tweak, 0, buffer) == Ok(EncipherBytes(keys, tweak, buffer))
  {
    hide Transform;
    var plain := Transform(keys, tweak, 0, Decipher, buffer);
    assert plain[|buffer|..] == Zeros(0) && plain[..|buffer|] == plain;
    assert buffer[..|buffer|] + Zeros(0) == buffer;
  }

  // -------------------------------------------------------------------------
  // The onion carry: a value sealed for the consumer and enciphered once per relay
  // -------------------------------------------------------------------------

  /** Enciphers under each relay of the path, the last relay first. */
  function WrapForPath(path: seq<Subkeys>, tweak: Tweak, slot: seq<byte>): seq<byte> {
    if path == [] then slot else EncipherBytes(path[0], tweak, WrapForPath(path[1..], tweak, slot))
  }

  /** The relays decipher in path order. */
  function Carry(path: seq<Subkeys>, tweak: Tweak, slot: seq<byte>): (result: seq<byte>)
    ensures |result| == |slot|
  {
    if path == [] then slot else Carry(path[1..], tweak, DecipherBytes(path[0], tweak, slot))
  }

  lemma {:induction false} CarryUnwraps(path: seq<Subkeys>, tweak: Tweak, slot: seq<byte>)
    ensures Carry(path, tweak, WrapForPath(path, tweak, slot)) == slot
  {
    hide EncipherBytes, DecipherBytes;
    if path != [] {
      EncipherDecipher(path[0], tweak, WrapForPath(path[1..], tweak, slot));
      CarryUnwraps(path[1..], tweak, slot);
    }
  }

  lemma OnionCarryComposes(consumer: Subkeys, path: seq<Subkeys>, tweak: Tweak, expansion: nat,
                           value: seq<byte>, slot: seq<byte>)
    requires |slot| == expansion
    ensures var sealed := Encrypt(consumer, tweak, expansion, value + slot);
            && sealed.Ok?
            && Decrypt(consumer, tweak, expansion, Carry(path, tweak, WrapForPath(path, tweak, sealed.value)))
               == Ok(value)
  {
    hide Encrypt, Decrypt;
    DecryptInvertsEncrypt(consumer, tweak, expansion, value, slot);
    CarryUnwraps(path, tweak, Encrypt(consumer, tweak, expansion, value + slot).value);
  }

  // -------------------------------------------------------------------------
  // In place
  // -------------------------------------------------------------------------

  method TransformInPlace(keys: Subkeys, tweak: Tweak, expansion: nat, direction: Direction, buffer: array<byte>)
    modifies buffer
    ensures buffer[..] == Transform(keys, tweak, expansion, direction, old(buffer[..]))
  {
    hide AezHash.Hash, AezHash.XorPrf, Cipher.CipherBytes, Components;
    var delta := AezHash.ComputeHash(keys, Components(tweak, expansion));
    if buffer.Length == expansion {
      AezHash.XorPrfInPlace(keys, delta, buffer);
    } else {
      Cipher.Apply(keys, delta, direction, buffer);
    }
  }

  /** Zeroes the last `count` bytes, from the end. */
  method ZeroTail(buffer: array<byte>, count: nat)
    requires count <= buffer.Length
    modifies buffer
    ensures buffer[..] == old(buffer[..buffer.Length - count]) + Zeros(count)
  {
    for k := 0 to count
      invariant buffer[..] == old(buffer[..buffer.Length - k]) + Zeros(k)
    {
      buffer[buffer.Length - 1 - k] := 0;
    }
  }

  /** Encryption in place. A buffer shorter than the expansion is untouched. */
  method EncryptInPlace(keys: Subkeys, tweak: Tweak, expansion: nat, buffer: array<byte>)
    returns (result: Result<(), ExpansionExceedsBuffer>)
    modifies buffer
    ensures match Encrypt(keys, tweak, expansion, old(buffer[..]))
            case Ok(ciphertext) => result == Ok(()) && buffer[..] == ciphertext
            case Err(error) => result == Err(error) && buffer[..] == old(buffer[..])
  {
    hide Transform, Zeros;
    if buffer.Length < expansion {
      return Err(ExpansionExceedsBuffer(buffer.Length, expansion));
    }
    ZeroTail(buffer, expansion);
    TransformInPlace(keys, tweak, expansion, Encipher, buffer);
    result := Ok(());
  }

  /** Whether the last `count` bytes are zero, by their union. */
  method TailIsZero(buffer: array<byte>, count: nat) returns (zero: bool)
    requires count <= buffer.Length
    ensures zero <==> buffer[buffer.Length - count..] == Zeros(count)
  {
    var union: byte := 0;
    for k := 0 to count
      invariant union == 0 <==> forall p | buffer.Length - k <= p < buffer.Length :: buffer[p] == 0
    {
      var next := buffer[buffer.Length - 1 - k];
      OrIsZero(union, next);
      union := union | next;
    }
    zero := union == 0;
    assert forall p | buffer.Length - count <= p < buffer.Length ::
        buffer[p] == buffer[buffer.Length - count..][p - (buffer.Length - count)];
  }

  lemma OrIsZero(a: byte, b: byte)
    ensures a | b == 0 <==> a == 0 && b == 0
  {}

  /** Decryption in place; returns the length of the plaintext, which is the prefix of the buffer of that length.
      A truncated buffer is untouched, and one that fails authentication is zeroed. */
  method DecryptInPlace(keys: Subkeys, tweak: Tweak, expansion: nat, buffer: array<byte>)
    returns (result: Result<nat, DecryptError>)
    modifies buffer
    ensures match Decrypt(keys, tweak, expansion, old(buffer[..]))
            case Ok(message) => result == Ok(|message|) && buffer[..] == message + Zeros(expansion)
            case Err(Truncated(reason)) => result == Err(Truncated(reason)) && buffer[..] == old(buffer[..])
            case Err(Inauthentic) => result == Err(Inauthentic) && buffer[..] == Zeros(buffer.Length)
  {
    hide Transform;
    if buffer.Length < expansion {
      return Err(Truncated(ExpansionExceedsBuffer(buffer.Length, expansion)));
    }
    TransformInPlace(keys, tweak, expansion, Decipher, buffer);
    var authentic := TailIsZero(buffer, expansion);
    ghost var plain := buffer[..];
    assert plain == plain[..buffer.Length - expansion] + plain[buffer.Length - expansion..];
    if !authentic {
      ZeroTail(buffer, buffer.Length);
      return Err(Inauthentic);
    }
    result := Ok(buffer.Length - expansion);
  }

  method EncipherInPlace(keys: Subkeys, tweak: Tweak, buffer: array<byte>)
    modifies buffer
    ensures buffer[..] == EncipherBytes(keys, tweak, old(buffer[..]))
  {
    hide Transform;
    TransformInPlace(keys, tweak, 0, Encipher, buffer);
  }

  method DecipherInPlace(keys: Subkeys, tweak: Tweak, buffer: array<byte>)
    modifies buffer
    ensures buffer[..] == DecipherBytes(keys, tweak, old(buffer[..]))
  {
    hide Transform;
    TransformInPlace(keys, tweak, 0, Decipher, buffer);
  }
}
