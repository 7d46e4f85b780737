/**
 * Folded invariants.  `forall k {:trigger Seal(k)} :: Seal(k) ==> P` is P, but the verifier looks
 * inside only where a proof mentions Seal.
 */
module Folding {
  ghost predicate Seal(k: nat) {
    true
  }
}
