/**
 Facts behind a trigger.  A hypothesis `forall k {:trigger Unlocked(k)} :: Unlocked(k) ==> x == F()` keeps `F` out of
 every proof that does not assert `Unlocked`: such proofs treat `x` as abstract.
 */
module Guard {
  ghost predicate Unlocked(k: int) { true }
}
