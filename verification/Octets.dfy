/** Bytes, and the 16-bit words made of two of them. */
module Octets {

  newtype octet = x: int | 0 <= x < 256

  type word = x: nat | x < 0x1_0000

  /** The word with its two octets exchanged. */
  function Swap(x: word): word {
    x % 256 * 256 + x / 256
  }

  lemma TwoOctets(h: nat, l: nat)
    requires h < 256 && l < 256
    ensures (h * 256 + l) / 256 == h && (h * 256 + l) % 256 == l
  {
  }

  lemma SwapTwice(x: word)
    ensures Swap(Swap(x)) == x
  {
    TwoOctets(x % 256, x / 256);
  }
}
