/** The two directions of the wide-block cipher (crates/aez/src/cipher.rs). */
module Directions {
  datatype Direction = Encipher | Decipher {
    /** 1 + d: the column used before the middle Feistel step. */
    function InnerColumn(): nat {
      match this
      case Encipher => 1
      case Decipher => 2
    }

    /** 2 - d: the column used after the middle Feistel step. */
    function OuterColumn(): nat {
      match this
      case Encipher => 2
      case Decipher => 1
    }

    function Opposite(): Direction {
      match this
      case Encipher => Decipher
      case Decipher => Encipher
    }
  }
}
