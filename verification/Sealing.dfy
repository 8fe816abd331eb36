/** Predicates whose definition the verifier is to leave alone: they say what they say for every number that is
    looked at, and nothing is looked at unless a proof asks for it. */
module Sealing {
  ghost predicate Look(n: nat) {
    true
  }
}
