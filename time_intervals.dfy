/** The time-interval operations of contracts/src/logic/Methods.ts:
    attaching a sourced interval to a containment commitment, replacing
    the interval by one inside it, and AND/OR of timed commitments whose
    interval hashes agree. TimeStampInterval.hash() is uninterpreted: a
    parameter. */
module TimeIntervals {
  import opened Circuit
  import opened Commitments

  /** Start and end timestamps (o1js UInt64; the 64-bit bound is not
      modelled). */
  datatype TimeStampInterval = TimeStampInterval(start: nat, end: nat)

  datatype GeoPointWithTimeStampIntervalInPolygonCommitment = GeoPointWithTimeStampIntervalInPolygonCommitment(
    geoPointInPolygonCommitment: GeoPointInPolygonCommitment,
    timestamp: TimeStampInterval)

  /** The instant t lies in the interval, bounds included. */
  predicate Within(t: int, interval: TimeStampInterval) {
    interval.start <= t <= interval.end
  }

  /** proofAttachSourcedTimestampinterval: verify both proofs and pair
      their outputs. */
  function ProofAttachSourcedTimestampInterval(
    geoPointInPolygonProof: Proof<GeoPointInPolygonCommitment>,
    timestampIntervalProof: Proof<TimeStampInterval>)
    : (r: GeoPointWithTimeStampIntervalInPolygonCommitment)
    requires geoPointInPolygonProof.verifies && timestampIntervalProof.verifies
    ensures r.geoPointInPolygonCommitment == geoPointInPolygonProof.publicOutput
    ensures r.timestamp == timestampIntervalProof.publicOutput
  {
    GeoPointWithTimeStampIntervalInPolygonCommitment(
      geoPointInPolygonProof.publicOutput, timestampIntervalProof.publicOutput)
  }

  /** expandTimeStampInterval: succeeds only when the new interval lies
      inside the old one (old start <= new start, old end >= new end), and
      then replaces the interval, keeping the containment commitment. */
  function ExpandTimeStampInterval(
    commitment: GeoPointWithTimeStampIntervalInPolygonCommitment, newTimeStampInterval: TimeStampInterval)
    : (r: Result<GeoPointWithTimeStampIntervalInPolygonCommitment>)
    ensures r.Success? <==>
      commitment.timestamp.start <= newTimeStampInterval.start && commitment.timestamp.end >= newTimeStampInterval.end
    ensures r.Failure? ==> r.error == InvalidTimeExpansion
    ensures r.Success? ==>
      && r.value.geoPointInPolygonCommitment == commitment.geoPointInPolygonCommitment
      && r.value.timestamp == newTimeStampInterval
  {
    if !(commitment.timestamp.start <= newTimeStampInterval.start) then Failure(InvalidTimeExpansion)
    else if !(commitment.timestamp.end >= newTimeStampInterval.end) then Failure(InvalidTimeExpansion)
    else Success(GeoPointWithTimeStampIntervalInPolygonCommitment(
      commitment.geoPointInPolygonCommitment, newTimeStampInterval))
  }

  /** expandTimeStampIntervalRecursive: verify, then expand the output. */
  function ExpandTimeStampIntervalRecursive(
    proof: Proof<GeoPointWithTimeStampIntervalInPolygonCommitment>, newTimeStampInterval: TimeStampInterval)
    : (r: Result<GeoPointWithTimeStampIntervalInPolygonCommitment>)
    requires proof.verifies
    ensures r == ExpandTimeStampInterval(proof.publicOutput, newTimeStampInterval)
  {
    ExpandTimeStampInterval(proof.publicOutput, newTimeStampInterval)
  }

  /** Expanding to the interval already held is the identity. */
  lemma ExpandToSameIntervalIsIdentity(commitment: GeoPointWithTimeStampIntervalInPolygonCommitment)
    ensures ExpandTimeStampInterval(commitment, commitment.timestamp) == Success(commitment)
  {
  }

  /** Despite its name, a successful expansion never widens: every instant
      of the new interval was in the old one. */
  lemma ExpandOnlyNarrows(commitment: GeoPointWithTimeStampIntervalInPolygonCommitment, newTimeStampInterval: TimeStampInterval)
    requires ExpandTimeStampInterval(commitment, newTimeStampInterval).Success?
    ensures forall t :: Within(t, newTimeStampInterval) ==> Within(t, commitment.timestamp)
  {
  }

  /** A strictly wider interval is rejected. */
  lemma ExpandRejectsWidening(commitment: GeoPointWithTimeStampIntervalInPolygonCommitment, newTimeStampInterval: TimeStampInterval)
    requires newTimeStampInterval.start < commitment.timestamp.start || newTimeStampInterval.end > commitment.timestamp.end
    ensures ExpandTimeStampInterval(commitment, newTimeStampInterval) == Failure(InvalidTimeExpansion)
  {
  }

  /** Two successive expansions are one expansion to the last interval. */
  lemma {:induction false} ExpandComposes(
    commitment: GeoPointWithTimeStampIntervalInPolygonCommitment, first: TimeStampInterval, second: TimeStampInterval)
    requires ExpandTimeStampInterval(commitment, first).Success?
    requires ExpandTimeStampInterval(ExpandTimeStampInterval(commitment, first).value, second).Success?
    ensures ExpandTimeStampInterval(commitment, second)
      == ExpandTimeStampInterval(ExpandTimeStampInterval(commitment, first).value, second)
  {
  }

  /** geoPointWithTimeStampInPolygonAND: the interval hashes must agree
      (checked first), then ANDLiteral on the commitments; the first
      interval is kept. */
  function GeoPointWithTimeStampInPolygonAnd(
    firstProof: Proof<GeoPointWithTimeStampIntervalInPolygonCommitment>,
    secondProof: Proof<GeoPointWithTimeStampIntervalInPolygonCommitment>,
    poseidon: Poseidon, intervalHash: TimeStampInterval -> Field)
    : (r: Result<GeoPointWithTimeStampIntervalInPolygonCommitment>)
    requires firstProof.verifies && secondProof.verifies
    ensures var first, second := firstProof.publicOutput, secondProof.publicOutput;
      && (intervalHash(first.timestamp) != intervalHash(second.timestamp) ==> r == Failure(IntervalMismatch))
      && (intervalHash(first.timestamp) == intervalHash(second.timestamp) ==>
            r.Success? == AndLiteral(first.geoPointInPolygonCommitment, second.geoPointInPolygonCommitment, poseidon).Success?)
      && (intervalHash(first.timestamp) == intervalHash(second.timestamp) && r.Failure? ==>
            r == Failure(MismatchedCoordinates))
      && (r.Success? ==>
            && r.value.geoPointInPolygonCommitment
               == AndLiteral(first.geoPointInPolygonCommitment, second.geoPointInPolygonCommitment, poseidon).value
            && r.value.timestamp == first.timestamp)
  {
    var first, second := firstProof.publicOutput, secondProof.publicOutput;
    if intervalHash(first.timestamp) != intervalHash(second.timestamp) then Failure(IntervalMismatch)
    else
      match AndLiteral(first.geoPointInPolygonCommitment, second.geoPointInPolygonCommitment, poseidon)
      case Failure(e) => Failure(e)
      case Success(c) => Success(GeoPointWithTimeStampIntervalInPolygonCommitment(c, first.timestamp))
  }

  /** geoPointWithTimeStampInPolygonOR: as the AND, with ORLiteral. */
  function GeoPointWithTimeStampInPolygonOr(
    firstProof: Proof<GeoPointWithTimeStampIntervalInPolygonCommitment>,
    secondProof: Proof<GeoPointWithTimeStampIntervalInPolygonCommitment>,
    poseidon: Poseidon, intervalHash: TimeStampInterval -> Field)
    : (r: Result<GeoPointWithTimeStampIntervalInPolygonCommitment>)
    requires firstProof.verifies && secondProof.verifies
    ensures var first, second := firstProof.publicOutput, secondProof.publicOutput;
      && (intervalHash(first.timestamp) != intervalHash(second.timestamp) ==> r == Failure(IntervalMismatch))
      && (intervalHash(first.timestamp) == intervalHash(second.timestamp) ==>
            r.Success? == OrLiteral(first.geoPointInPolygonCommitment, second.geoPointInPolygonCommitment, poseidon).Success?)
      && (intervalHash(first.timestamp) == intervalHash(second.timestamp) && r.Failure? ==>
            r == Failure(MismatchedCoordinates))
      && (r.Success? ==>
            && r.value.geoPointInPolygonCommitment
               == OrLiteral(first.geoPointInPolygonCommitment, second.geoPointInPolygonCommitment, poseidon).value
            && r.value.timestamp == first.timestamp)
  {
    var first, second := firstProof.publicOutput, secondProof.publicOutput;
    if intervalHash(first.timestamp) != intervalHash(second.timestamp) then Failure(IntervalMismatch)
    else
      match OrLiteral(first.geoPointInPolygonCommitment, second.geoPointInPolygonCommitment, poseidon)
      case Failure(e) => Failure(e)
      case Success(c) => Success(GeoPointWithTimeStampIntervalInPolygonCommitment(c, first.timestamp))
  }

  /** Timed AND/OR succeed exactly when the interval hashes agree and the
      commitments are about the same point; the result carries the first
      interval and the AND (resp. OR) of the two truth values. */
  lemma TimedAndOrOutcome(
    firstProof: Proof<GeoPointWithTimeStampIntervalInPolygonCommitment>,
    secondProof: Proof<GeoPointWithTimeStampIntervalInPolygonCommitment>,
    poseidon: Poseidon, intervalHash: TimeStampInterval -> Field)
    requires firstProof.verifies && secondProof.verifies
    ensures var first, second := firstProof.publicOutput, secondProof.publicOutput;
      var and := GeoPointWithTimeStampInPolygonAnd(firstProof, secondProof, poseidon, intervalHash);
      var or := GeoPointWithTimeStampInPolygonOr(firstProof, secondProof, poseidon, intervalHash);
      && (and.Success? <==>
            (&& intervalHash(first.timestamp) == intervalHash(second.timestamp)
             && first.geoPointInPolygonCommitment.geoPointCommitment == second.geoPointInPolygonCommitment.geoPointCommitment))
      && or.Success? == and.Success?
      && (and.Success? ==>
            && and.value.timestamp == first.timestamp && or.value.timestamp == first.timestamp
            && (and.value.geoPointInPolygonCommitment.isInPolygon <==>
                  first.geoPointInPolygonCommitment.isInPolygon && second.geoPointInPolygonCommitment.isInPolygon)
            && (or.value.geoPointInPolygonCommitment.isInPolygon <==>
                  first.geoPointInPolygonCommitment.isInPolygon || second.geoPointInPolygonCommitment.isInPolygon))
  {
  }

  /** Bringing two timed commitments about the same point to a common
      sub-interval with expandTimeStampInterval makes their timed AND
      succeed, with that interval. */
  lemma {:induction false} ExpandThenAndSucceeds(
    t1: GeoPointWithTimeStampIntervalInPolygonCommitment, t2: GeoPointWithTimeStampIntervalInPolygonCommitment,
    common: TimeStampInterval, poseidon: Poseidon, intervalHash: TimeStampInterval -> Field)
    requires t1.geoPointInPolygonCommitment.geoPointCommitment == t2.geoPointInPolygonCommitment.geoPointCommitment
    requires forall t :: Within(t, common) ==> Within(t, t1.timestamp) && Within(t, t2.timestamp)
    requires common.start <= common.end
    ensures ExpandTimeStampInterval(t1, common).Success? && ExpandTimeStampInterval(t2, common).Success?
    ensures var r := GeoPointWithTimeStampInPolygonAnd(
        Proof(ExpandTimeStampInterval(t1, common).value, true),
        Proof(ExpandTimeStampInterval(t2, common).value, true), poseidon, intervalHash);
      r.Success? && r.value.timestamp == common
  {
    assert Within(common.start, common) && Within(common.end, common);
  }
}
