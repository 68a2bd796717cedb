/** The tweakable wide-block permutation, dispatched by length (crates/aez/src/cipher.rs). */
module Cipher {
  import opened Blocks
  import opened Tbc
  import opened Directions
  import AezCore
  import AezTiny

  function CipherBytes(keys: Subkeys, delta: Block, direction: Direction, text: seq<byte>): (result: seq<byte>)
    ensures |result| == |text|
  {
    if |text| == 0 then text
    else if |text| < AezCore.CORE_MIN_BYTES then AezTiny.TinyBytes(keys, delta, direction, text)
    else AezCore.CoreBytes(keys, delta, direction, text)
  }

  // Deciphering and enciphering undo each other, in both orders, on every length.
  lemma CipherInverts(keys: Subkeys, delta: Block, direction: Direction, text: seq<byte>)
    ensures CipherBytes(keys, delta, direction.Opposite(), CipherBytes(keys, delta, direction, text)) == text
  {
    hide AezTiny.TinyBytes, AezCore.CoreBytes;
    if 0 < |text| < AezCore.CORE_MIN_BYTES {
      AezTiny.TinyInverts(keys, delta, direction, text);
    } else if |text| > 0 {
      AezCore.CoreInverts(keys, delta, direction, text);
    }
  }

  method Apply(keys: Subkeys, delta: Block, direction: Direction, text: array<byte>)
    modifies text
    ensures text[..] == CipherBytes(keys, delta, direction, old(text[..]))
  {
    hide AezTiny.TinyBytes, AezCore.CoreBytes;
    if text.Length == 0 {
    } else if text.Length < AezCore.CORE_MIN_BYTES {
      AezTiny.Apply(keys, delta, direction, text);
    } else {
      AezCore.Apply(keys, delta, direction, text);
    }
  }
}
