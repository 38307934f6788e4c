/** Optional values, results that can fail, and the marker folded predicates are opened by. */
module Wrappers {
  datatype Option<+T> = None | Some(value: T)

  datatype Result<+R, +E> = Success(value: R) | Failure(error: E)

  /**
   A predicate written `forall n {:trigger Shown(n)} :: Shown(n) ==> P` is handed
   along without the verifier looking inside it, until `Shown` is mentioned.
   */
  ghost predicate Shown(n: nat) { true }
}
