module Hiding {
  /** A predicate stated under `forall x :: Unfold(tag, x) ==> ...` is opened only where
      its lemma is called: it keeps what it says out of other proofs. */
  ghost predicate Unfold<T>(tag: T, x: int) { true }
}
