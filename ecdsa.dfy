/** The part of `ecdsa_recover` that is the engine's own arithmetic. */
module Ecdsa {
  import opened Types

  /** The recovery byte of a 65-byte signature: the Bitcoin/Ethereum convention adds 27 to
      the recovery id, so every byte above 26 has 27 taken off; smaller bytes are kept. */
  function NormalizeRecoveryByte(v: u8): (id: u8)
    ensures v <= 26 ==> id == v
    ensures v > 26 ==> id + 27 == v
  {
    if v > 26 then v - 27 else v
  }

  /** The 27-based and the 0-based conventions give the same recovery id: 27 and 0 both
      give 0, 28 and 1 both give 1, and so on for the four ids secp256k1 accepts. */
  lemma RecoveryConventionsAgree(id: u8)
    requires id < 4
    ensures NormalizeRecoveryByte(id) == id
    ensures NormalizeRecoveryByte(id + 27) == id
  {
  }

  /** A normalised byte is at most 228, and it falls in secp256k1's 0..3 exactly for the
      bytes 0..3 and 27..30. */
  lemma NormalizedRange(v: u8)
    ensures NormalizeRecoveryByte(v) <= 228
    ensures NormalizeRecoveryByte(v) < 4 <==> v < 4 || 27 <= v < 31
  {
  }
}
