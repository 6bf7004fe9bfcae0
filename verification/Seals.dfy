/** Depth for predicates that proofs open by hand: a predicate recurses through its seal to its meaning, so that the
    verifier sees the meaning only where a lemma spells it out. */
module Seals {

  datatype Seal = Open | Shut(inner: Seal)

  const SEALED: Seal := Shut(Shut(Shut(Open)))
}
