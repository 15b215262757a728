/** What several modules use: results that may be missing or may be an error, and a seal for large definitions. */
module Wrappers {
  datatype Option<+T> = None | Some(value: T)

  datatype Result<+T, +E> = Success(value: T) | Failure(error: E)

  /**
   Some number. A ghost predicate that says much at once is sealed where proofs only pass it on: `Sealed(k, ..)` is
   `if k == 0 then Says(..) else Sealed(k - 1, ..)`. As nothing is known of this number, `Sealed(SEAL, ..)` stands for
   itself in a proof, and the verifier does not open it at every call. A lemma by induction on `k` shows that it says
   what `Says` says; the proof calls it where the contents matter.
   */
  const SEAL: nat
}
