/**
 What the algorithms see of keys: hash values, as any function of the seed drawn and the key.
 */
module Hashing {
  import opened Words

  /** What `hash_vector` returns. */
  datatype HashVector = HashVector(h0: Uint32, h1: Uint32, h2: Uint32)

  /** `hash_state_new` followed by `hash_vector` */
  type HashFamily<!Key> = (nat, Key) -> HashVector

  /** What two calls of `hash` return. */
  datatype HashPair = HashPair(h1: Uint32, h2: Uint32)

  /** Two calls of `hash_state_new` followed by `hash` */
  type HashPairs<!Key> = (nat, Key) -> HashPair
}
