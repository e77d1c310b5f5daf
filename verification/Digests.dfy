/**
 Keccak-256 digests, as free constructors: distinct preimages have distinct digests.
 `Raw` stands for a 32-byte word nobody knows a preimage of.
 */
module Digests {
  import opened Bytes

  type Address = nat

  const ZERO_ADDRESS: Address := 0

  /** An account that can send a transaction. */
  type Account = a: Address | a != ZERO_ADDRESS witness 1

  datatype Digest =
    | Raw(word: nat)
    | OfText(text: Text)
    | OfCommitment(name: Text, owner: Address, pubKey: Text, secret: Text)
    | OfRecordKey(typeHash: Digest, selectorHash: Digest)
    | OfChannel(client: Address, resolver: Address, nonce: nat)
}
