# zkLocus location core, modelled in Dafny

This project models the provable core of zkLocus. zkLocus decides whether a
geographic point lies inside a triangle, using branch-free sign-magnitude
arithmetic that runs inside an o1js circuit. It also combines the resulting
containment commitments with AND, OR, inside/outside merging and time
intervals. The modelled source is `contracts/src/math/Provable.ts` (the
`Int64` comparators) and `contracts/src/logic/Methods.ts` (the ray-casting
test and the commitment algebra).

Modules:

- `Circuit` (circuit.dfy) holds what the proof system provides. Field elements serve as digests, with 0 as the "absent" sentinel. A `Proof<T>` is a public output plus the verifier's verdict. `Result<T>` carries the assertion failures that abort a circuit.
- `SignedInt` (int64.dfy) models o1js `Int64` as a magnitude and a sign, with `Value` the integer it stands for. It also models the o1js operations the test uses. `sub` and `add` return the canonical form, where zero is positive. `mul` and `div` multiply the signs, and `div` truncates toward zero.
- `Provable` (provable.dfy) holds `provableIsInt64XGreaterThanY`, `provableIsInt64XEqualToInt64Y` and `provableIsInt64XLessThanY`, written as in the source.
- `Containment` (containment.dfy) holds `isPointIn3PointPolygon`. It is a method with the source's `i`/`j` loop, proved equal to the even-odd rule `CrossingCount` over the edges (v1,v3), (v2,v1), (v3,v2), with points on an edge counted as inside. `ContainsIntended` takes the crossing parity on the point's coordinate values; it differs from the test as written only at a -0 longitude (see Findings).
- `Commitments` (commitments.dfy) holds `proveGeoPointIn3PointPolygon`, `ANDLiteral`/`ORLiteral` and their proof wrappers, `fromCoordinatesInPolygonProof`, `combine` and `exactGeoPointFromOracle`. `combine` is a method with the source's step-by-step selections, proved equal to the closed form `CombineSpec`.
- `TimeIntervals` (time_intervals.dfy) holds attaching an interval, `expandTimeStampInterval`, and the timed AND/OR.

External primitives are function-valued parameters, so every result holds for any choice of them. These are Poseidon, the `.hash()` of points, polygons and intervals, and `isPointOnEdgeProvable`. A call to `.verify()` becomes the precondition `proof.verifies`.

Where the documentation and the code disagree, the model follows the code:

- `expandTimeStampInterval` accepts only a sub-interval of the current one. Its comment says "super set".
- AND/OR do not check that the polygon commitments differ. Their doc comments say they do.
- `combine` rejects any pair whose inside and outside fields are pairwise equal, including all-absent pairs.
- `combine` computes its returned fields differently from the table in its comment (see Findings).
- `greaterThan(+0, -0)` is true, so `greaterThan(x, y) == lessThan(y, x)` fails at that one pair. `Provable.LessThanIsConverseOfGreaterThan` pins the exception down.

## Model

| member | source | states |
|---|---|---|
| SignedInt.Sub | contracts/src/logic/Methods.ts:60-61 | `sub` gives the difference of the values, in canonical form |
| SignedInt.Add | contracts/src/logic/Methods.ts:84 | `add` gives the sum of the values, in canonical form |
| SignedInt.Mul | contracts/src/logic/Methods.ts:65-71 | magnitude product with the sign product has the product of the values as its value |
| SignedInt.TruncDiv | contracts/src/logic/Methods.ts:83 | the quotient's magnitude is floor(\|n\| / \|d\|) and a nonzero quotient has the sign of n*d, i.e. truncation toward zero |
| SignedInt.TruncDivAgainstEuclidean | contracts/src/logic/Methods.ts:83 | truncating division agrees with Euclidean division on non-negative operands and is odd in the dividend |
| SignedInt.Div | contracts/src/logic/Methods.ts:83 | magnitude quotient with the sign product has value TruncDiv of the values; the divisor must be nonzero |
| SignedInt.FromValue | contracts/src/logic/Methods.ts:84 | the canonical representation has the given value and is never -0 |
| Provable.GreaterThan | contracts/src/math/Provable.ts:7-40 | greaterThan(x, y) iff value(x) > value(y), or x = +0 and y = -0: the documented "x > y" with exactly one exception |
| Provable.IsEqual | contracts/src/math/Provable.ts:42-50 | the equality comparator holds iff the representations are equal and nonzero, so every pair of zeros is reported unequal |
| Provable.LessThan | contracts/src/math/Provable.ts:59-64 | lessThan(x, y) iff value(x) < value(y), for every pair including zeros of either sign |
| Provable.GreaterThanIrreflexive | contracts/src/math/Provable.ts:21-38 | greaterThan(x, x) is false for every x |
| Provable.GreaterThanOnDifferentSigns | contracts/src/math/Provable.ts:34-38 | with different signs, greaterThan is exactly "x has the positive sign" |
| Provable.GreaterThanOnEqualSigns | contracts/src/math/Provable.ts:24-31 | with equal signs, the larger magnitude wins for positive signs and the smaller for negative |
| Provable.GreaterThanMatchesValues | contracts/src/math/Provable.ts:3-39 | when y is not -0, greaterThan is the documented "x > y" on values |
| Provable.GreaterThanPositiveOverNegativeZero | contracts/src/math/Provable.ts:34-38 | greaterThan(+0, -0) holds though the values are equal |
| Provable.LessThanExcludesGreaterThan | contracts/src/math/Provable.ts:59-63 | lessThan and greaterThan never both hold; lessThan(x, x) is false |
| Provable.LessThanIsConverseOfGreaterThan | contracts/src/math/Provable.ts:52-63 | lessThan(x, y) == greaterThan(y, x) except exactly at (x, y) = (-0, +0) |
| Provable.CanonicalComparisons | contracts/src/math/Provable.ts:52-63 | on operands that are not -0, lessThan(x, y) iff greaterThan(y, x) iff value(x) < value(y) |
| Provable.IsEqualRejectsZeros | contracts/src/math/Provable.ts:43-47 | the equality comparator is false on (+0, +0) and (+0, -0) |
| Provable.IsEqualIntendedMatchesValues | contracts/src/math/Provable.ts:42-48 | with the both-zero case selecting true, the comparator is equality of values |
| Containment.Intersection | contracts/src/logic/Methods.ts:60-84 | for a non-horizontal edge the intersection latitude is TruncDiv((xj-xi)*(y-yi), yj-yi) + xi, and it is never -0 |
| Containment.EdgeCrosses | contracts/src/logic/Methods.ts:41-95 | an edge toggles the parity iff it straddles the point's longitude by the comparator, is not horizontal, and the point's latitude is below the intersection latitude by value |
| Containment.CrossingCount | contracts/src/logic/Methods.ts:34-95 | the number of crossing edges among the first k loop iterations is at most k |
| Containment.Contains | contracts/src/logic/Methods.ts:27-107 | a point on an edge is inside; any other point is inside iff one or three of the triangle's edges are crossed |
| Containment.IsPointIn3PointPolygon | contracts/src/logic/Methods.ts:15-110 | a point on an edge is inside; otherwise inside iff an odd number of the triangle's edges are crossed by the ray, with the horizontal-edge guard and truncating division of the loop |
| Containment.EdgesInLoopOrder | contracts/src/logic/Methods.ts:34-38 | the crossing count is the sum over the edges (v1,v3), (v2,v1), (v3,v2) in that order |
| Containment.HorizontalEdgeNeverCrosses | contracts/src/logic/Methods.ts:78-88 | an edge whose endpoint longitudes are equal never toggles `inside` |
| Containment.EdgeCrossesMatchesValues | contracts/src/logic/Methods.ts:41-95 | when the point's longitude is not -0, an edge counts iff exactly one endpoint longitude exceeds the point's and its latitude is below the truncated intersection |
| Containment.IntersectionBetweenEndpoints | contracts/src/logic/Methods.ts:60-84 | a straddling edge's intersection latitude lies between its endpoint latitudes |
| Containment.NoCrossingAboveEndpoints | contracts/src/logic/Methods.ts:86-95 | a point at or above both endpoint latitudes never crosses the edge (point longitude not -0) |
| Containment.CrossingBelowEndpoints | contracts/src/logic/Methods.ts:86-95 | a point below both endpoint latitudes crosses the edge iff the edge straddles its longitude (point longitude not -0) |
| Containment.NotContainedNorthOfVertices | contracts/src/logic/Methods.ts:15-110 | a point at or above every vertex latitude is inside only if it is on an edge (point longitude not -0) |
| Containment.NotContainedSouthOfVertices | contracts/src/logic/Methods.ts:15-110 | a point below every vertex latitude is inside only if it is on an edge (point longitude not -0) |
| Containment.NotContainedEastOfVertices | contracts/src/logic/Methods.ts:15-110 | a point at or beyond every vertex longitude is inside only if it is on an edge (point longitude not -0) |
| Containment.NotContainedWestOfVertices | contracts/src/logic/Methods.ts:15-110 | a point below every vertex longitude is inside only if it is on an edge |
| Containment.NegativeZeroPointReportedInside | contracts/src/logic/Methods.ts:41-95 | in the triangle (10,+0), (20,-0), (15,-5) the point (0,-0) is south and east of every vertex (so on no edge), yet exactly one edge is crossed and it is reported inside; the point (0,+0) crosses no edge |
| Containment.ContainsIntendedAgreesOffNegativeZero | contracts/src/logic/Methods.ts:41-95 | containment taken on the point's coordinate values agrees with the test as written for every point whose longitude is not -0 |
| Containment.ContainsIntendedExcludesSouthAndEast | contracts/src/logic/Methods.ts:15-110 | with containment taken on coordinate values, a point south of every vertex or east of every vertex is inside only if it is on an edge, -0 longitude included |
| Containment.ScenarioInteriorPointInside | contracts/src/logic/Methods.ts:15-110 | in the triangle (0,0), (10,0), (0,10), the point (1,1) is inside |
| Containment.ScenarioVertexInside | contracts/src/logic/Methods.ts:15-110 | the vertex (0,0) of that triangle is inside by the crossing parity alone |
| Containment.ScenarioEdgePointInside | contracts/src/logic/Methods.ts:15-110 | the edge point (5,0) of that triangle is inside by the crossing parity alone |
| Containment.ScenarioTriangleOutside | contracts/src/logic/Methods.ts:15-110 | (-1,-1) is outside that triangle unless the on-edge test claims it |
| Commitments.ProveGeoPointIn3PointPolygon | contracts/src/logic/Methods.ts:112-139 | the commitment holds polygon.hash(), point.hash() and the containment result |
| Commitments.ProveProvidedGeoPointIn3PointPolygon | contracts/src/logic/Methods.ts:156-172 | after verification, the same commitment for the point the source proof outputs |
| Commitments.AndLiteral | contracts/src/logic/Methods.ts:174-212 | aborts unless the point commitments are equal; the result is hash([pc1, pc2]) with the conjunction; equal polygon commitments are accepted |
| Commitments.OrLiteral | contracts/src/logic/Methods.ts:267-303 | aborts unless the point commitments are equal; the result is hash([pc1, pc2]) with the disjunction |
| Commitments.And | contracts/src/logic/Methods.ts:224-265 | after verification, AndLiteral on the two public outputs |
| Commitments.Or | contracts/src/logic/Methods.ts:315-328 | after verification, OrLiteral on the two public outputs |
| Commitments.AndOrAgreeExceptTruth | contracts/src/logic/Methods.ts:174-303 | AND and OR accept the same pairs and give the same polygon digest; AND's truth implies OR's |
| Commitments.AndOrTruthSymmetric | contracts/src/logic/Methods.ts:192-199 | the truth values do not depend on operand order; the polygon digest is the hash in operand order |
| Commitments.AndOrSelfKeepTruth | contracts/src/logic/Methods.ts:182-186 | AND and OR of a commitment with itself succeed and keep its truth value |
| Commitments.AndOrInsideOutsideScenario | contracts/src/logic/Methods.ts:228-232 | for "inside A" and "not inside B" about one point, AND gives false and OR gives true |
| Commitments.LiftToInOut | contracts/src/logic/Methods.ts:466-482 | the polygon commitment goes to inside when isInPolygon and to outside otherwise; the other field is 0; the coordinates pass through |
| Commitments.FromCoordinatesInPolygonProof | contracts/src/logic/Methods.ts:461-483 | after verification, the lift of the public output |
| Commitments.LiftRoundTrip | contracts/src/logic/Methods.ts:467-481 | reading a lifted commitment back gives the original iff it is not an inside claim whose digest is itself 0 |
| Commitments.SentinelMerge | contracts/src/logic/Methods.ts:388-425 | the sentinel table: either side if the other is 0, the hash of both if both are present |
| Commitments.CombineSpec | contracts/src/logic/Methods.ts:330-459 | combine succeeds iff the coordinates agree and the inside or outside fields differ; a coordinate mismatch is reported before redundancy; on success the coordinates pass through and the inside field is 0 when both inside inputs are 0 and otherwise equals the returned outside field |
| Commitments.Combine | contracts/src/logic/Methods.ts:330-459 | the step-by-step selections compute exactly the closed form CombineSpec: coordinate check, redundancy check, then the field selections as written |
| Commitments.CombineSelfAborts | contracts/src/logic/Methods.ts:345-365 | combine(c, c) always aborts as redundant |
| Commitments.CombineLosesInsideClaim | contracts/src/logic/Methods.ts:432-452 | combining lifted "inside A" and "outside B" yields hash([0, B]) in both fields, so A is lost |
| Commitments.CombineDropsBothInsideClaims | contracts/src/logic/Methods.ts:432-452 | combining lifted "inside A" and "inside C" (A ≠ C) yields 0 in both fields, so both inside claims are lost |
| Commitments.CombineReportsOutsideAsInside | contracts/src/logic/Methods.ts:432-452 | combining lifted "outside B" and "inside A", in that order, yields B in both fields, so an outside polygon is reported as inside and A is lost |
| Commitments.CombineIntended | contracts/src/logic/Methods.ts:388-392 | the corrected combine accepts exactly the pairs combine accepts |
| Commitments.CombineIntendedKeepsBothClaims | contracts/src/logic/Methods.ts:388-392 | with the intended table, lifted "inside A" and "outside B" combine to (A, B) in either order |
| Commitments.CombineIntendedPassesThroughAbsent | contracts/src/logic/Methods.ts:388-392 | with the intended table, a field absent on one side takes the other side's value |
| Commitments.ExactGeoPointFromOracle | contracts/src/logic/Methods.ts:607-618 | returns the claimed point iff its hash equals the oracle-signed hash, and aborts otherwise |
| TimeIntervals.ProofAttachSourcedTimestampInterval | contracts/src/logic/Methods.ts:497-508 | after verification, pairs the containment commitment with the sourced interval unchanged |
| TimeIntervals.ExpandTimeStampInterval | contracts/src/logic/Methods.ts:569-578 | succeeds iff old.start <= new.start and old.end >= new.end; it then replaces the interval and keeps the commitment |
| TimeIntervals.ExpandTimeStampIntervalRecursive | contracts/src/logic/Methods.ts:587-593 | after verification, ExpandTimeStampInterval on the public output |
| TimeIntervals.ExpandToSameIntervalIsIdentity | contracts/src/logic/Methods.ts:569-578 | re-applying the interval already held returns the commitment unchanged |
| TimeIntervals.ExpandOnlyNarrows | contracts/src/logic/Methods.ts:563-571 | after a successful "expansion" every instant of the new interval was in the old one |
| TimeIntervals.ExpandRejectsWidening | contracts/src/logic/Methods.ts:570-571 | a strictly wider interval is rejected |
| TimeIntervals.ExpandComposes | contracts/src/logic/Methods.ts:569-578 | two successive expansions equal one expansion to the last interval |
| TimeIntervals.GeoPointWithTimeStampInPolygonAnd | contracts/src/logic/Methods.ts:518-539 | aborts with an interval mismatch unless the interval hashes match; then succeeds exactly when ANDLiteral does, aborts with a coordinate mismatch otherwise, and keeps the first interval |
| TimeIntervals.GeoPointWithTimeStampInPolygonOr | contracts/src/logic/Methods.ts:541-561 | aborts with an interval mismatch unless the interval hashes match; then succeeds exactly when ORLiteral does, aborts with a coordinate mismatch otherwise, and keeps the first interval |
| TimeIntervals.TimedAndOrOutcome | contracts/src/logic/Methods.ts:518-561 | timed AND/OR succeed iff the hashes match and the point commitments agree; they give the first interval and the conjunction or disjunction |
| TimeIntervals.ExpandThenAndSucceeds | contracts/src/logic/Methods.ts:510-539 | bringing two commitments about one point to a common sub-interval makes their timed AND succeed with that interval |

## Left out

- Proof verification (`.verify()`, `SelfProof`, recursion) belongs to the external proof system. It is the precondition `verifies`.
- Poseidon and the `.hash()` of points, polygons and intervals are uninterpreted parameters. Collision resistance is not assumed, so equal interval hashes do not imply equal intervals.
- `isPointOnEdgeProvable` is an uninterpreted parameter; `contracts/src/logic/Geography.ts` is not part of this model. So "a vertex is inside" is proved only where the crossing parity gives it, and "on an edge ⇒ inside" only relative to that test.
- `Int64Prover` (`contracts/src/math/Provers.js`) is not part of this model. It is taken to be the `Provable.ts` comparators, and its `provableIsInt64XEqualToZero` is read as value = 0.
- The o1js library source of `Int64` `sub`, `add`, `mul` and `div` is not part of this model. `SignedInt.Sub`, `Add`, `Mul` and `Div` assume its behaviour: `sub` and `add` go through the field and return +0 for zero; `mul` and `div` multiply the signs; `div` floors the magnitudes and asserts a nonzero divisor.
- The 64-bit bounds of `UInt64` magnitudes and timestamps are not modelled, and neither are the overflow aborts of `mul`/`add`/`sub` or the field modulus. Integers are unbounded.
- The magnitude and sign products at `Methods.ts:65-66` feed only logging and are not modelled separately.
- `Provable.log`, `Provable.asProver`, `console.log` and the `async`/`Promise` wrappers are left out. They have no effect on results.
- The identity functions `proofGeoPointInPolygonCommitmentFromOutput`, `geoPointFromLiteral` and `timeStampIntervalFromLiteral` are left out. They return their argument.
- The scale factor of a point is not compared with the polygon's, as in the source (its TODO at `Methods.ts:116-122`).
- The deployment test and the two sample contracts are on-chain plumbing and are left out.
- Containment.EdgeCrossesMatchesValues: stated only for a point longitude other than -0, because `greaterThan(+0, -0)` can make an edge straddle in the comparator but not in values.
- Containment.NoCrossingAboveEndpoints: stated only for a point longitude other than -0, for the same reason.
- Containment.CrossingBelowEndpoints: stated only for a point longitude other than -0. At -0, an edge between a +0 and a lower vertex straddles in the comparator but not in values.
- Containment.NotContainedNorthOfVertices: stated only for a point longitude other than -0; the case of a -0 longitude is not covered.
- Containment.NotContainedSouthOfVertices: stated only for a point longitude other than -0. It fails at -0, as Containment.NegativeZeroPointReportedInside shows (see Findings).
- Containment.NotContainedEastOfVertices: stated only for a point longitude other than -0. It fails at -0, as Containment.NegativeZeroPointReportedInside shows (see Findings).

## Findings

| source | as written | input that shows it | evidently intended | confidence | as-written member | corrected member |
|---|---|---|---|---|---|---|
| contracts/src/logic/Methods.ts:439-452 | the outside field's second case tests proof2's inside flag, and the final selection writes the outside result into the inside field | proof1 = lift of "inside A", proof2 = lift of "outside B", same point, A and B nonzero: both fields become hash([0, B]). In the other order both become B, and for two inside claims both become 0 | inside = A and outside = B, per the table at lines 388-392 | high (not executed) | Commitments.CombineLosesInsideClaim | Commitments.CombineIntendedKeepsBothClaims |
| contracts/src/math/Provable.ts:43-47 | when both operands are zero the comparator selects false | (+0, +0) is reported unequal | true: equality of values, with zero equal to itself in either sign | medium (not executed) | Provable.IsEqualRejectsZeros | Provable.IsEqualIntendedMatchesValues |
| contracts/src/logic/Methods.ts:41-42 | the straddle test uses greaterThan, which reports a +0 vertex longitude above a -0 point longitude although the values are equal | triangle (10,+0), (20,-0), (15,-5) and point (0,-0): south and east of every vertex, yet reported inside; (0,+0) is reported outside | containment depends only on the coordinate values, not on the sign of a zero | medium (not executed) | Containment.NegativeZeroPointReportedInside | Containment.ContainsIntendedExcludesSouthAndEast |
