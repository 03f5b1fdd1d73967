/** What several of the models use. */
module Common {

  type byte = x: int | 0 <= x < 256

  datatype Option<+T> = None | Some(value: T)

  /** Proofs carry some predicates folded: written as `forall k :: Unfold(k) ==> P` they say no more
      than `P`, but the verifier looks inside only where `Unfold` is mentioned. */
  predicate Unfold(k: nat) { true }
}
