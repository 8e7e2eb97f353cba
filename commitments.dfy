/** The commitment algebra of contracts/src/logic/Methods.ts: producing a
    containment commitment, AND/OR over commitments about the same point,
    lifting into inside/outside form, and `combine` over inside/outside
    commitments with 0 as the "absent" sentinel. Poseidon and the `.hash()`
    of points and polygons are uninterpreted: they are parameters. */
module Commitments {
  import opened Circuit
  import opened Containment

  /** Poseidon.hash over a list of field elements. */
  type Poseidon = seq<Field> -> Field

  datatype GeoPointInPolygonCommitment = GeoPointInPolygonCommitment(
    polygonCommitment: Field,
    geoPointCommitment: Field,
    isInPolygon: bool)

  datatype GeoPointInOutPolygonCommitment = GeoPointInOutPolygonCommitment(
    insidePolygonCommitment: Field,
    outsidePolygonCommitment: Field,
    coordinatesCommitment: Field)

  /** proveGeoPointIn3PointPolygon: commits to the polygon and the point by
      their hashes and records the containment result. The point's scale
      factor is not checked against the polygon's. */
  method ProveGeoPointIn3PointPolygon(
    point: GeoPoint, polygon: ThreePointPolygon, onEdge: OnEdgeTest,
    polygonHash: ThreePointPolygon -> Field, pointHash: GeoPoint -> Field)
    returns (c: GeoPointInPolygonCommitment)
    ensures c.polygonCommitment == polygonHash(polygon)
    ensures c.geoPointCommitment == pointHash(point)
    ensures c.isInPolygon <==> Contains(point, polygon, onEdge)
  {
    var isInPolygon := IsPointIn3PointPolygon(point, polygon, onEdge);
    c := GeoPointInPolygonCommitment(polygonHash(polygon), pointHash(point), isInPolygon);
  }

  /** proveProvidedGeoPointIn3PointPolygon: verify the source proof, then
      prove containment of the point it outputs. */
  method ProveProvidedGeoPointIn3PointPolygon(
    sourcedGeoPointProof: Proof<GeoPoint>, polygon: ThreePointPolygon, onEdge: OnEdgeTest,
    polygonHash: ThreePointPolygon -> Field, pointHash: GeoPoint -> Field)
    returns (c: GeoPointInPolygonCommitment)
    requires sourcedGeoPointProof.verifies
    ensures c.polygonCommitment == polygonHash(polygon)
    ensures c.geoPointCommitment == pointHash(sourcedGeoPointProof.publicOutput)
    ensures c.isInPolygon <==> Contains(sourcedGeoPointProof.publicOutput, polygon, onEdge)
  {
    c := ProveGeoPointIn3PointPolygon(sourcedGeoPointProof.publicOutput, polygon, onEdge, polygonHash, pointHash);
  }

  /** ANDLiteral: both commitments must be about the same point; equal
      polygon commitments are allowed. */
  function AndLiteral(first: GeoPointInPolygonCommitment, second: GeoPointInPolygonCommitment, poseidon: Poseidon)
    : (r: Result<GeoPointInPolygonCommitment>)
    ensures r.Success? <==> first.geoPointCommitment == second.geoPointCommitment
    ensures r.Failure? ==> r.error == MismatchedCoordinates
    ensures r.Success? ==>
      && r.value.polygonCommitment == poseidon([first.polygonCommitment, second.polygonCommitment])
      && r.value.geoPointCommitment == first.geoPointCommitment
      && (r.value.isInPolygon <==> first.isInPolygon && second.isInPolygon)
  {
    if first.geoPointCommitment != second.geoPointCommitment then Failure(MismatchedCoordinates)
    else
      Success(GeoPointInPolygonCommitment(
        poseidon([first.polygonCommitment, second.polygonCommitment]),
        first.geoPointCommitment,
        first.isInPolygon && second.isInPolygon))
  }

  /** ORLiteral: as AndLiteral, with the disjunction of the results. */
  function OrLiteral(first: GeoPointInPolygonCommitment, second: GeoPointInPolygonCommitment, poseidon: Poseidon)
    : (r: Result<GeoPointInPolygonCommitment>)
    ensures r.Success? <==> first.geoPointCommitment == second.geoPointCommitment
    ensures r.Failure? ==> r.error == MismatchedCoordinates
    ensures r.Success? ==>
      && r.value.polygonCommitment == poseidon([first.polygonCommitment, second.polygonCommitment])
      && r.value.geoPointCommitment == first.geoPointCommitment
      && (r.value.isInPolygon <==> first.isInPolygon || second.isInPolygon)
  {
    if first.geoPointCommitment != second.geoPointCommitment then Failure(MismatchedCoordinates)
    else
      Success(GeoPointInPolygonCommitment(
        poseidon([first.polygonCommitment, second.polygonCommitment]),
        first.geoPointCommitment,
        first.isInPolygon || second.isInPolygon))
  }

  /** AND: verify both proofs, then AndLiteral on their outputs. */
  function And(proof1: Proof<GeoPointInPolygonCommitment>, proof2: Proof<GeoPointInPolygonCommitment>, poseidon: Poseidon)
    : (r: Result<GeoPointInPolygonCommitment>)
    requires proof1.verifies && proof2.verifies
    ensures r == AndLiteral(proof1.publicOutput, proof2.publicOutput, poseidon)
  {
    AndLiteral(proof1.publicOutput, proof2.publicOutput, poseidon)
  }

  /** OR: verify both proofs, then OrLiteral on their outputs. */
  function Or(proof1: Proof<GeoPointInPolygonCommitment>, proof2: Proof<GeoPointInPolygonCommitment>, poseidon: Poseidon)
    : (r: Result<GeoPointInPolygonCommitment>)
    requires proof1.verifies && proof2.verifies
    ensures r == OrLiteral(proof1.publicOutput, proof2.publicOutput, poseidon)
  {
    OrLiteral(proof1.publicOutput, proof2.publicOutput, poseidon)
  }

  /** AND and OR accept the same pairs and commit to the same polygon
      digest; only the boolean differs, and AND's implies OR's. */
  lemma AndOrAgreeExceptTruth(first: GeoPointInPolygonCommitment, second: GeoPointInPolygonCommitment, poseidon: Poseidon)
    ensures AndLiteral(first, second, poseidon).Success? == OrLiteral(first, second, poseidon).Success?
    ensures AndLiteral(first, second, poseidon).Success? ==>
      && AndLiteral(first, second, poseidon).value.polygonCommitment == OrLiteral(first, second, poseidon).value.polygonCommitment
      && (AndLiteral(first, second, poseidon).value.isInPolygon ==> OrLiteral(first, second, poseidon).value.isInPolygon)
  {
  }

  /** The truth values are symmetric in the operands; the polygon digests
      are the two orders of the hash, so they may differ. */
  lemma AndOrTruthSymmetric(first: GeoPointInPolygonCommitment, second: GeoPointInPolygonCommitment, poseidon: Poseidon)
    ensures AndLiteral(first, second, poseidon).Success? == AndLiteral(second, first, poseidon).Success?
    ensures AndLiteral(first, second, poseidon).Success? ==>
      && AndLiteral(first, second, poseidon).value.isInPolygon == AndLiteral(second, first, poseidon).value.isInPolygon
      && OrLiteral(first, second, poseidon).value.isInPolygon == OrLiteral(second, first, poseidon).value.isInPolygon
      && AndLiteral(second, first, poseidon).value.polygonCommitment == poseidon([second.polygonCommitment, first.polygonCommitment])
  {
  }

  /** A commitment combined with itself keeps its truth value: the
      polygon-inequality check of the doc comments is not performed. */
  lemma AndOrSelfKeepTruth(c: GeoPointInPolygonCommitment, poseidon: Poseidon)
    ensures AndLiteral(c, c, poseidon).Success? && OrLiteral(c, c, poseidon).Success?
    ensures AndLiteral(c, c, poseidon).value.isInPolygon == c.isInPolygon
    ensures OrLiteral(c, c, poseidon).value.isInPolygon == c.isInPolygon
  {
  }

  /** Same point, inside polygon A, outside polygon B: AND says outside,
      OR says inside. */
  lemma AndOrInsideOutsideScenario(a: GeoPointInPolygonCommitment, b: GeoPointInPolygonCommitment, poseidon: Poseidon)
    requires a.geoPointCommitment == b.geoPointCommitment
    requires a.isInPolygon && !b.isInPolygon
    ensures AndLiteral(a, b, poseidon) == Success(GeoPointInPolygonCommitment(
      poseidon([a.polygonCommitment, b.polygonCommitment]), a.geoPointCommitment, false))
    ensures OrLiteral(a, b, poseidon) == Success(GeoPointInPolygonCommitment(
      poseidon([a.polygonCommitment, b.polygonCommitment]), a.geoPointCommitment, true))
  {
  }

  /** The lifting of fromCoordinatesInPolygonProof: the polygon commitment
      goes to the inside field when the point is in the polygon and to the
      outside field otherwise; the other field is the sentinel. */
  function LiftToInOut(c: GeoPointInPolygonCommitment): (r: GeoPointInOutPolygonCommitment)
    ensures r.coordinatesCommitment == c.geoPointCommitment
    ensures c.isInPolygon ==> r.insidePolygonCommitment == c.polygonCommitment && r.outsidePolygonCommitment == Absent
    ensures !c.isInPolygon ==> r.outsidePolygonCommitment == c.polygonCommitment && r.insidePolygonCommitment == Absent
  {
    var insideCommitment := if c.isInPolygon then c.polygonCommitment else Absent;
    var outsideCommitment := if c.isInPolygon then Absent else c.polygonCommitment;
    GeoPointInOutPolygonCommitment(insideCommitment, outsideCommitment, c.geoPointCommitment)
  }

  /** fromCoordinatesInPolygonProof: verify, then lift the output. */
  function FromCoordinatesInPolygonProof(proof: Proof<GeoPointInPolygonCommitment>): (r: GeoPointInOutPolygonCommitment)
    requires proof.verifies
    ensures r == LiftToInOut(proof.publicOutput)
  {
    LiftToInOut(proof.publicOutput)
  }

  /** Reading a lifted commitment back: inside if the inside field is
      present. */
  function Unlift(io: GeoPointInOutPolygonCommitment): GeoPointInPolygonCommitment {
    var isIn := io.insidePolygonCommitment != Absent;
    GeoPointInPolygonCommitment(
      if isIn then io.insidePolygonCommitment else io.outsidePolygonCommitment,
      io.coordinatesCommitment,
      isIn)
  }

  /** Lifting loses nothing unless the polygon digest is the sentinel
      itself. */
  lemma LiftRoundTrip(c: GeoPointInPolygonCommitment)
    ensures Unlift(LiftToInOut(c)) == c <==> c.polygonCommitment != Absent || !c.isInPolygon
  {
  }

  /** The sentinel table for one field: the hash of both if both are
      present, the present one if only one is, the sentinel if neither. */
  function SentinelMerge(a: Field, b: Field, poseidon: Poseidon): (r: Field)
    ensures a == Absent ==> r == b
    ensures b == Absent ==> r == a
    ensures a != Absent && b != Absent ==> r == poseidon([a, b])
  {
    if a != Absent && b == Absent then a
    else if a == Absent && b != Absent then b
    else if a == Absent && b == Absent then Absent
    else poseidon([a, b])
  }

  /** combine as written, in closed form: the coordinate and redundancy
      checks, then the outside field selected with proof2's INSIDE flag in
      its second case, and the inside field overwritten by the outside
      result unless both inside fields are absent. */
  function CombineSpec(o1: GeoPointInOutPolygonCommitment, o2: GeoPointInOutPolygonCommitment, poseidon: Poseidon)
    : (r: Result<GeoPointInOutPolygonCommitment>)
    // accepted exactly when about the same point and not redundant
    ensures r.Success? <==>
      && o1.coordinatesCommitment == o2.coordinatesCommitment
      && (o1.insidePolygonCommitment != o2.insidePolygonCommitment
          || o1.outsidePolygonCommitment != o2.outsidePolygonCommitment)
    // a coordinate mismatch is reported before redundancy
    ensures r.Failure? ==>
      r.error == if o1.coordinatesCommitment != o2.coordinatesCommitment then MismatchedCoordinates
                 else RedundantCombination
    // the inside field is absent or mirrors the outside field
    ensures r.Success? ==>
      && r.value.coordinatesCommitment == o1.coordinatesCommitment
      && (o1.insidePolygonCommitment == Absent && o2.insidePolygonCommitment == Absent ==>
            r.value.insidePolygonCommitment == Absent)
      && (o1.insidePolygonCommitment != Absent || o2.insidePolygonCommitment != Absent ==>
            r.value.insidePolygonCommitment == r.value.outsidePolygonCommitment)
  {
    if o1.coordinatesCommitment != o2.coordinatesCommitment then Failure(MismatchedCoordinates)
    else if o1.insidePolygonCommitment == o2.insidePolygonCommitment
         && o1.outsidePolygonCommitment == o2.outsidePolygonCommitment then Failure(RedundantCombination)
    else
      var outside :=
        if o1.outsidePolygonCommitment != Absent && o2.outsidePolygonCommitment == Absent then o1.outsidePolygonCommitment
        else if o1.outsidePolygonCommitment == Absent && o2.insidePolygonCommitment != Absent then o2.outsidePolygonCommitment
        else poseidon([o1.outsidePolygonCommitment, o2.outsidePolygonCommitment]);
      var inside :=
        if o1.insidePolygonCommitment == Absent && o2.insidePolygonCommitment == Absent then Absent else outside;
      Success(GeoPointInOutPolygonCommitment(inside, outside, o1.coordinatesCommitment))
  }

  /** combine: verify both proofs, check the coordinates and redundancy,
      then build the two fields by successive selections. */
  method Combine(proof1: Proof<GeoPointInOutPolygonCommitment>, proof2: Proof<GeoPointInOutPolygonCommitment>, poseidon: Poseidon)
    returns (r: Result<GeoPointInOutPolygonCommitment>)
    requires proof1.verifies && proof2.verifies
    ensures r == CombineSpec(proof1.publicOutput, proof2.publicOutput, poseidon)
  {
    var out1, out2 := proof1.publicOutput, proof2.publicOutput;
    if out1.coordinatesCommitment != out2.coordinatesCommitment {
      return Failure(MismatchedCoordinates);
    }
    var isInsidePolygonCommitmentEqual := out1.insidePolygonCommitment == out2.insidePolygonCommitment;
    var isOutsidePolygonCommitmentEqual := out1.outsidePolygonCommitment == out2.outsidePolygonCommitment;
    if isInsidePolygonCommitmentEqual && isOutsidePolygonCommitmentEqual {
      return Failure(RedundantCombination);
    }

    var isInsidePresent1 := out1.insidePolygonCommitment != Absent;
    var isInsidePresent2 := out2.insidePolygonCommitment != Absent;
    var isOutsidePresent1 := out1.outsidePolygonCommitment != Absent;
    var isOutsidePresent2 := out2.outsidePolygonCommitment != Absent;

    var newInsideBothPresent := poseidon([out1.insidePolygonCommitment, out2.insidePolygonCommitment]);
    var newInside := if isInsidePresent1 && !isInsidePresent2 then out1.insidePolygonCommitment else newInsideBothPresent;
    newInside := if !isInsidePresent1 && isInsidePresent2 then out2.insidePolygonCommitment else newInside;
    newInside := if !isInsidePresent1 && !isInsidePresent2 then Absent else newInside;
    // up to here the inside field follows the sentinel table
    assert newInside == SentinelMerge(out1.insidePolygonCommitment, out2.insidePolygonCommitment, poseidon);

    var newOutsideBothPresent := poseidon([out1.outsidePolygonCommitment, out2.outsidePolygonCommitment]);
    var newOutside := if isOutsidePresent1 && !isOutsidePresent2 then out1.outsidePolygonCommitment else newOutsideBothPresent;
    // as written: tests proof2's inside flag where its outside flag is meant
    newOutside := if !isOutsidePresent1 && isInsidePresent2 then out2.outsidePolygonCommitment else newOutside;
    // as written: assigns the outside result to the inside field
    newInside := if !isInsidePresent1 && !isInsidePresent2 then Absent else newOutside;

    r := Success(GeoPointInOutPolygonCommitment(newInside, newOutside, out1.coordinatesCommitment));
  }

  /** Combining a commitment with itself always aborts. */
  lemma CombineSelfAborts(o: GeoPointInOutPolygonCommitment, poseidon: Poseidon)
    ensures CombineSpec(o, o, poseidon) == Failure(RedundantCombination)
  {
  }

  /** Combining a lifted "inside A" with a lifted "outside B" about the
      same point: as written both fields become poseidon([0, B]), so the
      inside claim A is lost. */
  lemma {:induction false} CombineLosesInsideClaim(a: GeoPointInPolygonCommitment, b: GeoPointInPolygonCommitment, poseidon: Poseidon)
    requires a.geoPointCommitment == b.geoPointCommitment
    requires a.isInPolygon && !b.isInPolygon
    requires a.polygonCommitment != Absent && b.polygonCommitment != Absent
    ensures var h := poseidon([Absent, b.polygonCommitment]);
      CombineSpec(LiftToInOut(a), LiftToInOut(b), poseidon)
        == Success(GeoPointInOutPolygonCommitment(h, h, a.geoPointCommitment))
  {
    var o1, o2 := LiftToInOut(a), LiftToInOut(b);
    assert o1.insidePolygonCommitment != o2.insidePolygonCommitment;
  }

  /** Two lifted inside claims A and C about the same point: as written
      both fields become the sentinel, so both inside claims are lost. */
  lemma {:induction false} CombineDropsBothInsideClaims(a: GeoPointInPolygonCommitment, c: GeoPointInPolygonCommitment, poseidon: Poseidon)
    requires a.geoPointCommitment == c.geoPointCommitment
    requires a.isInPolygon && c.isInPolygon
    requires a.polygonCommitment != Absent && c.polygonCommitment != Absent
    requires a.polygonCommitment != c.polygonCommitment
    ensures CombineSpec(LiftToInOut(a), LiftToInOut(c), poseidon)
      == Success(GeoPointInOutPolygonCommitment(Absent, Absent, a.geoPointCommitment))
  {
    var o1, o2 := LiftToInOut(a), LiftToInOut(c);
    assert o1.insidePolygonCommitment != o2.insidePolygonCommitment;
  }

  /** A lifted "outside B" combined with a lifted "inside A" (the reverse
      order of CombineLosesInsideClaim): as written both fields become B,
      so the outside polygon is reported as an inside one and A is lost. */
  lemma {:induction false} CombineReportsOutsideAsInside(b: GeoPointInPolygonCommitment, a: GeoPointInPolygonCommitment, poseidon: Poseidon)
    requires a.geoPointCommitment == b.geoPointCommitment
    requires a.isInPolygon && !b.isInPolygon
    requires a.polygonCommitment != Absent && b.polygonCommitment != Absent
    ensures CombineSpec(LiftToInOut(b), LiftToInOut(a), poseidon)
      == Success(GeoPointInOutPolygonCommitment(b.polygonCommitment, b.polygonCommitment, a.geoPointCommitment))
  {
    var o1, o2 := LiftToInOut(b), LiftToInOut(a);
    assert o1.insidePolygonCommitment != o2.insidePolygonCommitment;
  }

  /** combine as its comment describes it: the sentinel table applied to
      the inside fields and to the outside fields, after the same checks. */
  function CombineIntended(o1: GeoPointInOutPolygonCommitment, o2: GeoPointInOutPolygonCommitment, poseidon: Poseidon)
    : (r: Result<GeoPointInOutPolygonCommitment>)
    ensures r.Success? == CombineSpec(o1, o2, poseidon).Success?
  {
    if o1.coordinatesCommitment != o2.coordinatesCommitment then Failure(MismatchedCoordinates)
    else if o1.insidePolygonCommitment == o2.insidePolygonCommitment
         && o1.outsidePolygonCommitment == o2.outsidePolygonCommitment then Failure(RedundantCombination)
    else
      Success(GeoPointInOutPolygonCommitment(
        SentinelMerge(o1.insidePolygonCommitment, o2.insidePolygonCommitment, poseidon),
        SentinelMerge(o1.outsidePolygonCommitment, o2.outsidePolygonCommitment, poseidon),
        o1.coordinatesCommitment))
  }

  /** With the intended table, combining the lifts of "inside A" and
      "outside B" keeps both claims verbatim, in either order. */
  lemma {:induction false} CombineIntendedKeepsBothClaims(a: GeoPointInPolygonCommitment, b: GeoPointInPolygonCommitment, poseidon: Poseidon)
    requires a.geoPointCommitment == b.geoPointCommitment
    requires a.isInPolygon && !b.isInPolygon
    requires a.polygonCommitment != Absent && b.polygonCommitment != Absent
    ensures CombineIntended(LiftToInOut(a), LiftToInOut(b), poseidon)
      == Success(GeoPointInOutPolygonCommitment(a.polygonCommitment, b.polygonCommitment, a.geoPointCommitment))
    ensures CombineIntended(LiftToInOut(b), LiftToInOut(a), poseidon)
      == Success(GeoPointInOutPolygonCommitment(a.polygonCommitment, b.polygonCommitment, a.geoPointCommitment))
  {
    var o1, o2 := LiftToInOut(a), LiftToInOut(b);
    assert o1.insidePolygonCommitment != o2.insidePolygonCommitment;
  }

  /** With the intended table, a field absent on one side takes the other
      side's value, so each field only ever accumulates claims. */
  lemma CombineIntendedPassesThroughAbsent(o1: GeoPointInOutPolygonCommitment, o2: GeoPointInOutPolygonCommitment, poseidon: Poseidon)
    requires CombineIntended(o1, o2, poseidon).Success?
    ensures var r := CombineIntended(o1, o2, poseidon).value;
      && (o1.insidePolygonCommitment == Absent ==> r.insidePolygonCommitment == o2.insidePolygonCommitment)
      && (o2.insidePolygonCommitment == Absent ==> r.insidePolygonCommitment == o1.insidePolygonCommitment)
      && (o1.outsidePolygonCommitment == Absent ==> r.outsidePolygonCommitment == o2.outsidePolygonCommitment)
      && (o2.outsidePolygonCommitment == Absent ==> r.outsidePolygonCommitment == o1.outsidePolygonCommitment)
  {
  }

  /** The oracle's public output: the hash of the point it signed. */
  datatype OracleAuthenticatedGeoPointCommitment = OracleAuthenticatedGeoPointCommitment(geoPointHash: Field)

  /** exactGeoPointFromOracle: verify the oracle proof, then accept the
      claimed point only if its hash is the one the oracle signed. */
  function ExactGeoPointFromOracle(
    oracleProof: Proof<OracleAuthenticatedGeoPointCommitment>, geoPoint: GeoPoint, pointHash: GeoPoint -> Field)
    : (r: Result<GeoPoint>)
    requires oracleProof.verifies
    ensures r.Success? <==> pointHash(geoPoint) == oracleProof.publicOutput.geoPointHash
    ensures r.Success? ==> r.value == geoPoint
    ensures r.Failure? ==> r.error == OracleHashMismatch
  {
    if pointHash(geoPoint) != oracleProof.publicOutput.geoPointHash then Failure(OracleHashMismatch)
    else Success(geoPoint)
  }
}
