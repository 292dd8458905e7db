/** What the proofs assume of SHA-256. An injective hash into texts of a fixed length does not exist, so
    collision-freedom is assumed only of the two inputs at hand. */
module Hashing {

  /** The hash does not take these two inputs for one another. */
  ghost predicate NoCollision<T>(sha256: T -> string, x: T, y: T) {
    sha256(x) == sha256(y) ==> x == y
  }
}
