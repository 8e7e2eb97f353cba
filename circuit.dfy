/** What the core takes from the proof system it runs in: field elements
    used as digests, proofs whose verification the system performs, and
    the assertion failures that abort a circuit. */
module Circuit {

  /** A field element. The digest value 0 is the "absent" sentinel of the
      inside/outside commitments; the field modulus is not modelled. */
  type Field = nat

  const Absent: Field := 0

  /** A recursive proof, seen through its public output. `verifies` is the
      external verifier's verdict; every operation that calls `.verify()`
      on a proof requires it. */
  datatype Proof<T> = Proof(publicOutput: T, verifies: bool)

  /** The failed assertions that abort an operation of the core. */
  datatype Error =
    | MismatchedCoordinates   // geoPointCommitment / coordinatesCommitment differ
    | RedundantCombination    // combine on pairwise-equal inside and outside fields
    | InvalidTimeExpansion    // expandTimeStampInterval bounds check fails
    | IntervalMismatch        // timed AND/OR on different interval hashes
    | OracleHashMismatch      // point hash differs from the oracle-signed hash

  datatype Result<T> = Success(value: T) | Failure(error: Error)
}
