/** The ray-casting point-in-triangle test of contracts/src/logic/Methods.ts
    (isPointIn3PointPolygon): the even-odd rule over the three edges, built
    from the comparators of Provable and o1js Int64 arithmetic, with a
    guard for horizontal edges and points on an edge counted as inside.
    Latitude is the x axis and longitude the y axis, as in the source. */
module Containment {
  import opened SignedInt
  import opened Provable

  /** A point with fixed-point coordinates; `factor` is its scale, which
      the test does not read. */
  datatype GeoPoint = GeoPoint(latitude: Int64, longitude: Int64, factor: nat)

  datatype ThreePointPolygon = ThreePointPolygon(vertice1: GeoPoint, vertice2: GeoPoint, vertice3: GeoPoint)

  function Vertices(polygon: ThreePointPolygon): (vs: seq<GeoPoint>)
    ensures |vs| == 3
  {
    [polygon.vertice1, polygon.vertice2, polygon.vertice3]
  }

  /** isPointOnEdgeProvable(point, a, b): its source is not part of this
      model, so the test takes it as a parameter of this type. */
  type OnEdgeTest = (GeoPoint, GeoPoint, GeoPoint) -> bool

  /** The point lies on one of the edges (v1, v2), (v2, v3), (v3, v1). */
  predicate OnBoundary(point: GeoPoint, polygon: ThreePointPolygon, onEdge: OnEdgeTest) {
    || onEdge(point, polygon.vertice1, polygon.vertice2)
    || onEdge(point, polygon.vertice2, polygon.vertice3)
    || onEdge(point, polygon.vertice3, polygon.vertice1)
  }

  /** Exactly one endpoint longitude is (by the comparator) greater than
      the point's longitude. */
  predicate Straddles(point: GeoPoint, vi: GeoPoint, vj: GeoPoint) {
    GreaterThan(vi.longitude, point.longitude) != GreaterThan(vj.longitude, point.longitude)
  }

  predicate IsHorizontal(vi: GeoPoint, vj: GeoPoint) {
    Value(vi.longitude) == Value(vj.longitude)
  }

  /** The latitude at which the edge (vi, vj) meets the point's longitude,
      (xj - xi) * (y - yi) / (yj - yi) + xi with truncating division; a
      horizontal edge divides by 1 instead of 0. */
  function Intersection(point: GeoPoint, vi: GeoPoint, vj: GeoPoint): (r: Int64)
    ensures !IsNegativeZero(r)
    ensures !IsHorizontal(vi, vj) ==>
      Value(r) == TruncDiv((Value(vj.latitude) - Value(vi.latitude)) * (Value(point.longitude) - Value(vi.longitude)),
                           Value(vj.longitude) - Value(vi.longitude))
                  + Value(vi.latitude)
  {
    var numerator := Mul(Sub(vj.latitude, vi.latitude), Sub(point.longitude, vi.longitude));
    var denominator := Sub(vj.longitude, vi.longitude);
    var divisor := if Value(denominator) == 0 then One else denominator;
    Add(Div(numerator, divisor), vi.latitude)
  }

  /** One edge toggles the parity: it straddles the point's longitude, is
      not horizontal, and the point's latitude is below the intersection. */
  predicate EdgeCrosses(point: GeoPoint, vi: GeoPoint, vj: GeoPoint): (r: bool)
    ensures r <==>
      && Straddles(point, vi, vj)
      && !IsHorizontal(vi, vj)
      && Value(point.latitude) < Value(Intersection(point, vi, vj))
  {
    && Straddles(point, vi, vj)
    && !IsHorizontal(vi, vj)
    && LessThan(point.latitude, Intersection(point, vi, vj))
  }

  /** The loop's j: the vertex before i, wrapping around. */
  function Previous(i: nat, n: nat): (j: nat)
    requires i < n
    ensures j < n
  {
    if i == 0 then n - 1 else i - 1
  }

  /** Number of crossing edges (vs[m], vs[m - 1]) among the first k vertices. */
  function CrossingCount(point: GeoPoint, vs: seq<GeoPoint>, k: nat): (r: nat)
    requires k <= |vs|
    ensures r <= k
  {
    if k == 0 then 0
    else CrossingCount(point, vs, k - 1)
         + (if EdgeCrosses(point, vs[k - 1], vs[Previous(k - 1, |vs|)]) then 1 else 0)
  }

  /** The edge test in the loop's own terms, operation by operation. */
  lemma EdgeStep(point: GeoPoint, vi: GeoPoint, vj: GeoPoint)
    ensures EdgeCrosses(point, vi, vj) <==>
      && GreaterThan(vi.longitude, point.longitude) != GreaterThan(vj.longitude, point.longitude)
      && Value(Sub(vj.longitude, vi.longitude)) != 0
      && LessThan(point.latitude,
                  Add(Div(Mul(Sub(vj.latitude, vi.latitude), Sub(point.longitude, vi.longitude)),
                          Sub(vj.longitude, vi.longitude)),
                      vi.latitude))
  {
  }

  /** One more vertex toggles the parity exactly when its edge crosses. */
  lemma ParityStep(point: GeoPoint, vs: seq<GeoPoint>, k: nat)
    requires k < |vs|
    ensures (CrossingCount(point, vs, k + 1) % 2 == 1)
      <==> ((CrossingCount(point, vs, k) % 2 == 1) != EdgeCrosses(point, vs[k], vs[Previous(k, |vs|)]))
  {
    var crosses := EdgeCrosses(point, vs[k], vs[Previous(k, |vs|)]);
    assert CrossingCount(point, vs, k + 1) == CrossingCount(point, vs, k) + (if crosses then 1 else 0);
    ParityToggle(CrossingCount(point, vs, k), crosses);
  }

  lemma ParityToggle(c: nat, b: bool)
    ensures ((c + (if b then 1 else 0)) % 2 == 1) <==> ((c % 2 == 1) != b)
  {
  }

  /** The even-odd rule with boundary points counted as inside. */
  predicate Contains(point: GeoPoint, polygon: ThreePointPolygon, onEdge: OnEdgeTest): (r: bool)
    ensures OnBoundary(point, polygon, onEdge) ==> r
    ensures !OnBoundary(point, polygon, onEdge) ==>
      (r <==> CrossingCount(point, Vertices(polygon), 3) in {1, 3})
  {
    OnBoundary(point, polygon, onEdge) || CrossingCount(point, Vertices(polygon), 3) % 2 == 1
  }

  /** isPointIn3PointPolygon: the i/j loop over the vertices toggling
      `inside`, then the on-edge override. */
  method IsPointIn3PointPolygon(point: GeoPoint, polygon: ThreePointPolygon, onEdge: OnEdgeTest)
    returns (inside: bool)
    ensures OnBoundary(point, polygon, onEdge) ==> inside
    ensures !OnBoundary(point, polygon, onEdge) ==>
      (inside <==> CrossingCount(point, Vertices(polygon), 3) % 2 == 1)
  {
    var x, y := point.latitude, point.longitude;
    var vertices := Vertices(polygon);
    inside := false;

    var isPointOnEdge1 := onEdge(point, polygon.vertice1, polygon.vertice2);
    var isPointOnEdge2 := onEdge(point, polygon.vertice2, polygon.vertice3);
    var isPointOnEdge3 := onEdge(point, polygon.vertice3, polygon.vertice1);
    var isPointLocatedOnEdge := isPointOnEdge1 || isPointOnEdge2 || isPointOnEdge3;

    var i, j := 0, |vertices| - 1;
    while i < |vertices|
      invariant 0 <= i <= |vertices|
      invariant i < |vertices| ==> j == Previous(i, |vertices|)
      invariant inside <==> CrossingCount(point, vertices, i) % 2 == 1
    {
      var xi, yi := vertices[i].latitude, vertices[i].longitude;
      var xj, yj := vertices[j].latitude, vertices[j].longitude;

      var condition1 := GreaterThan(yi, y);
      var condition2 := GreaterThan(yj, y);
      var jointCondition1 := !(condition1 == condition2);

      var leftOperand := Sub(xj, xi);
      var rightOperand := Sub(y, yi);
      var numerator := Mul(leftOperand, rightOperand);
      var denominator := Sub(yj, yi);

      // horizontal edge: divide by one instead of zero
      var isHorizontalEdge := Value(denominator) == 0;
      denominator := if isHorizontalEdge then One else denominator;

      var resultBeforeAddition := Div(numerator, denominator);
      var result := Add(resultBeforeAddition, xi);

      var jointCondition2 := LessThan(x, result);
      // horizontal edge: never a crossing
      jointCondition2 := if isHorizontalEdge then false else jointCondition2;

      var isIntersect := jointCondition1 && jointCondition2;
      EdgeStep(point, vertices[i], vertices[j]);
      ParityStep(point, vertices, i);
      inside := if isIntersect then !inside else inside;
      j := i;
      i := i + 1;
    }

    // a point on an edge is inside
    inside := if isPointLocatedOnEdge then true else inside;
  }

  /** The three edges are visited as (v1, v3), (v2, v1), (v3, v2). */
  lemma {:induction false} EdgesInLoopOrder(point: GeoPoint, polygon: ThreePointPolygon)
    ensures CrossingCount(point, Vertices(polygon), 3) ==
      (if EdgeCrosses(point, polygon.vertice1, polygon.vertice3) then 1 else 0)
      + (if EdgeCrosses(point, polygon.vertice2, polygon.vertice1) then 1 else 0)
      + (if EdgeCrosses(point, polygon.vertice3, polygon.vertice2) then 1 else 0)
  {
    var vs := Vertices(polygon);
    assert CrossingCount(point, vs, 1) == if EdgeCrosses(point, vs[0], vs[2]) then 1 else 0;
    assert CrossingCount(point, vs, 2) == CrossingCount(point, vs, 1) + if EdgeCrosses(point, vs[1], vs[0]) then 1 else 0;
  }

  /** A horizontal edge never toggles the parity, whatever the point. */
  lemma HorizontalEdgeNeverCrosses(point: GeoPoint, vi: GeoPoint, vj: GeoPoint)
    requires Value(vi.longitude) == Value(vj.longitude)
    ensures !EdgeCrosses(point, vi, vj)
  {
  }

  /** The crossing test on plain integers: exactly one endpoint is above
      the point's longitude and the point's latitude is below the
      truncated intersection latitude. */
  predicate EdgeCrossesByValue(point: GeoPoint, vi: GeoPoint, vj: GeoPoint) {
    var x, y := Value(point.latitude), Value(point.longitude);
    var xi, yi := Value(vi.latitude), Value(vi.longitude);
    var xj, yj := Value(vj.latitude), Value(vj.longitude);
    && (yi > y) != (yj > y)
    && x < TruncDiv((xj - xi) * (y - yi), yj - yi) + xi
  }

  /** Unless the point's longitude is -0, the sign-magnitude test is the
      integer test. */
  lemma EdgeCrossesMatchesValues(point: GeoPoint, vi: GeoPoint, vj: GeoPoint)
    requires !IsNegativeZero(point.longitude)
    ensures EdgeCrosses(point, vi, vj) <==> EdgeCrossesByValue(point, vi, vj)
  {
    GreaterThanMatchesValues(vi.longitude, point.longitude);
    GreaterThanMatchesValues(vj.longitude, point.longitude);
  }

  function Min(a: int, b: int): int { if a <= b then a else b }
  function Max(a: int, b: int): int { if a <= b then b else a }

  lemma AbsOfProduct(a: int, b: int)
    ensures Abs(a * b) == Abs(a) * Abs(b)
    ensures a * b < 0 <==> a != 0 && b != 0 && (a < 0) != (b < 0)
  {
    if a < 0 && b < 0 { assert a * b == (-a) * (-b); }
    else if a < 0 { assert a * b == -((-a) * b); }
    else if b < 0 { assert a * b == -(a * (-b)); }
  }

  lemma MulMonotone(k: nat, m: nat, n: nat)
    requires m <= n
    ensures k * m <= k * n
  {
  }

  lemma MulStrictlyMonotone(p: nat, q: nat, d: nat)
    requires d > 0
    ensures p > q ==> p * d > q * d
  {
    if p > q {
      assert p * d == q * d + (p - q) * d;
    }
  }

  lemma MulAtLeast(p: nat, d: nat)
    requires p >= 1
    ensures p * d >= d
  {
    assert p * d == d + (p - 1) * d;
  }

  /** A truncated quotient bounded by |a| * |d| and signed like a lies
      between 0 and a. */
  lemma {:induction false} QuotientBetween(n: int, a: int, d: int)
    requires d != 0
    requires Abs(n) <= Abs(a) * Abs(d)
    requires n != 0 ==> ((n < 0) <==> ((a < 0) != (d < 0)))
    ensures Min(0, a) <= TruncDiv(n, d) <= Max(0, a)
  {
    var q := TruncDiv(n, d);
    MulStrictlyMonotone(Abs(q), Abs(a), Abs(d));
    if q != 0 {
      MulAtLeast(Abs(q), Abs(d));
    }
  }

  /** (a * b) / d with b / d in [0, 1] lies between 0 and a. */
  lemma {:induction false} ScaledStepBetween(a: int, b: int, d: int)
    requires d != 0 && Abs(b) <= Abs(d)
    requires b == 0 || (b < 0) == (d < 0)
    ensures Min(0, a) <= TruncDiv(a * b, d) <= Max(0, a)
  {
    AbsOfProduct(a, b);
    MulMonotone(Abs(a), Abs(b), Abs(d));
    QuotientBetween(a * b, a, d);
  }

  /** A straddling edge meets the point's longitude between its endpoint
      latitudes. */
  lemma {:induction false} IntersectionBetweenEndpoints(point: GeoPoint, vi: GeoPoint, vj: GeoPoint)
    requires (Value(vi.longitude) > Value(point.longitude)) != (Value(vj.longitude) > Value(point.longitude))
    ensures Min(Value(vi.latitude), Value(vj.latitude))
            <= Value(Intersection(point, vi, vj))
            <= Max(Value(vi.latitude), Value(vj.latitude))
  {
    var a := Value(vj.latitude) - Value(vi.latitude);
    var b := Value(point.longitude) - Value(vi.longitude);
    var d := Value(vj.longitude) - Value(vi.longitude);
    ScaledStepBetween(a, b, d);
  }

  /** No edge is crossed by a point at or above both endpoint latitudes. */
  lemma {:induction false} NoCrossingAboveEndpoints(point: GeoPoint, vi: GeoPoint, vj: GeoPoint)
    requires !IsNegativeZero(point.longitude)
    requires Value(vi.latitude) <= Value(point.latitude) && Value(vj.latitude) <= Value(point.latitude)
    ensures !EdgeCrosses(point, vi, vj)
  {
    EdgeCrossesMatchesValues(point, vi, vj);
    if EdgeCrossesByValue(point, vi, vj) {
      IntersectionBetweenEndpoints(point, vi, vj);
    }
  }

  /** Below both endpoint latitudes, an edge is crossed exactly when it
      straddles the point's longitude. */
  lemma {:induction false} CrossingBelowEndpoints(point: GeoPoint, vi: GeoPoint, vj: GeoPoint)
    requires !IsNegativeZero(point.longitude)
    requires Value(point.latitude) < Value(vi.latitude) && Value(point.latitude) < Value(vj.latitude)
    ensures EdgeCrosses(point, vi, vj) <==>
      (Value(vi.longitude) > Value(point.longitude)) != (Value(vj.longitude) > Value(point.longitude))
  {
    EdgeCrossesMatchesValues(point, vi, vj);
    if (Value(vi.longitude) > Value(point.longitude)) != (Value(vj.longitude) > Value(point.longitude)) {
      IntersectionBetweenEndpoints(point, vi, vj);
    }
  }

  /** A point north of (at or above) every vertex latitude is inside only
      if it is on an edge. */
  lemma {:induction false} NotContainedNorthOfVertices(point: GeoPoint, polygon: ThreePointPolygon, onEdge: OnEdgeTest)
    requires !IsNegativeZero(point.longitude)
    requires forall v | v in Vertices(polygon) :: Value(v.latitude) <= Value(point.latitude)
    ensures Contains(point, polygon, onEdge) <==> OnBoundary(point, polygon, onEdge)
  {
    var vs := Vertices(polygon);
    assert vs[0] in vs && vs[1] in vs && vs[2] in vs;
    EdgesInLoopOrder(point, polygon);
    NoCrossingAboveEndpoints(point, polygon.vertice1, polygon.vertice3);
    NoCrossingAboveEndpoints(point, polygon.vertice2, polygon.vertice1);
    NoCrossingAboveEndpoints(point, polygon.vertice3, polygon.vertice2);
  }

  /** A point south of every vertex latitude is inside only if it is on an
      edge: its ray crosses every straddling edge, and a closed triangle
      has an even number of those. */
  lemma {:induction false} NotContainedSouthOfVertices(point: GeoPoint, polygon: ThreePointPolygon, onEdge: OnEdgeTest)
    requires !IsNegativeZero(point.longitude)
    requires forall v | v in Vertices(polygon) :: Value(point.latitude) < Value(v.latitude)
    ensures Contains(point, polygon, onEdge) <==> OnBoundary(point, polygon, onEdge)
  {
    var vs := Vertices(polygon);
    assert vs[0] in vs && vs[1] in vs && vs[2] in vs;
    EdgesInLoopOrder(point, polygon);
    CrossingBelowEndpoints(point, polygon.vertice1, polygon.vertice3);
    CrossingBelowEndpoints(point, polygon.vertice2, polygon.vertice1);
    CrossingBelowEndpoints(point, polygon.vertice3, polygon.vertice2);
  }

  /** A point east of (at or beyond) every vertex longitude straddles no
      edge, so it is inside only if it is on an edge. */
  lemma {:induction false} NotContainedEastOfVertices(point: GeoPoint, polygon: ThreePointPolygon, onEdge: OnEdgeTest)
    requires !IsNegativeZero(point.longitude)
    requires forall v | v in Vertices(polygon) :: Value(v.longitude) <= Value(point.longitude)
    ensures Contains(point, polygon, onEdge) <==> OnBoundary(point, polygon, onEdge)
  {
    var vs := Vertices(polygon);
    assert vs[0] in vs && vs[1] in vs && vs[2] in vs;
    EdgesInLoopOrder(point, polygon);
    GreaterThanMatchesValues(polygon.vertice1.longitude, point.longitude);
    GreaterThanMatchesValues(polygon.vertice2.longitude, point.longitude);
    GreaterThanMatchesValues(polygon.vertice3.longitude, point.longitude);
  }

  /** A point west of every vertex longitude straddles no edge either;
      here a -0 longitude does not matter. */
  lemma {:induction false} NotContainedWestOfVertices(point: GeoPoint, polygon: ThreePointPolygon, onEdge: OnEdgeTest)
    requires forall v | v in Vertices(polygon) :: Value(point.longitude) < Value(v.longitude)
    ensures Contains(point, polygon, onEdge) <==> OnBoundary(point, polygon, onEdge)
  {
    var vs := Vertices(polygon);
    assert vs[0] in vs && vs[1] in vs && vs[2] in vs;
    EdgesInLoopOrder(point, polygon);
  }

  /** The triangle (10, +0), (20, -0), (15, -5): its second vertex has
      longitude -0. */
  const SignedZeroTriangle: ThreePointPolygon :=
    ThreePointPolygon(GeoPoint(FromValue(10), Zero, 1), GeoPoint(FromValue(20), NegativeZero, 1), ScenarioPoint(15, -5))

  /** The sign of a zero longitude decides containment. The point (0, -0)
      is south of every vertex (so on no edge) and east of every vertex,
      yet the comparator puts it below the +0 vertex only: the edge
      (v2, v1) is dropped as horizontal and (v1, v3) alone is crossed, so
      the point is reported inside. The same point with +0 crosses no
      edge. This is why the South and East lemmas exclude a -0 longitude. */
  lemma {:induction false} NegativeZeroPointReportedInside(onEdge: OnEdgeTest)
    ensures var point := GeoPoint(Zero, NegativeZero, 1);
      && (forall v | v in Vertices(SignedZeroTriangle) ::
            Value(point.latitude) < Value(v.latitude) && Value(v.longitude) <= Value(point.longitude))
      && CrossingCount(point, Vertices(SignedZeroTriangle), 3) == 1
      && Contains(point, SignedZeroTriangle, onEdge)
      && CrossingCount(GeoPoint(Zero, Zero, 1), Vertices(SignedZeroTriangle), 3) == 0
  {
    var point := GeoPoint(Zero, NegativeZero, 1);
    assert TruncDiv(0, -5) == 0;
    EdgesInLoopOrder(point, SignedZeroTriangle);
    EdgesInLoopOrder(GeoPoint(Zero, Zero, 1), SignedZeroTriangle);
  }

  /** A point with each coordinate in canonical form (no -0). */
  function Canonical(point: GeoPoint): (r: GeoPoint)
    ensures Value(r.latitude) == Value(point.latitude) && Value(r.longitude) == Value(point.longitude)
    ensures !IsNegativeZero(r.latitude) && !IsNegativeZero(r.longitude)
  {
    GeoPoint(FromValue(Value(point.latitude)), FromValue(Value(point.longitude)), point.factor)
  }

  /** Containment as evidently intended: the crossing parity is taken for
      the point's coordinate values, whatever the sign of a zero. */
  predicate ContainsIntended(point: GeoPoint, polygon: ThreePointPolygon, onEdge: OnEdgeTest) {
    OnBoundary(point, polygon, onEdge) || CrossingCount(Canonical(point), Vertices(polygon), 3) % 2 == 1
  }

  /** The intended containment differs from the test as written only at a
      -0 point longitude. */
  lemma {:induction false} ContainsIntendedAgreesOffNegativeZero(point: GeoPoint, polygon: ThreePointPolygon, onEdge: OnEdgeTest)
    requires !IsNegativeZero(point.longitude)
    ensures ContainsIntended(point, polygon, onEdge) == Contains(point, polygon, onEdge)
  {
    var c := Canonical(point);
    var v1, v2, v3 := polygon.vertice1, polygon.vertice2, polygon.vertice3;
    EdgesInLoopOrder(point, polygon);
    EdgesInLoopOrder(c, polygon);
    EdgeCrossesMatchesValues(point, v1, v3);
    EdgeCrossesMatchesValues(c, v1, v3);
    EdgeCrossesMatchesValues(point, v2, v1);
    EdgeCrossesMatchesValues(c, v2, v1);
    EdgeCrossesMatchesValues(point, v3, v2);
    EdgeCrossesMatchesValues(c, v3, v2);
  }

  /** With the intended parity, a point south of every vertex or east of
      every vertex is inside only if it is on an edge, for every
      longitude, -0 included. */
  lemma {:induction false} ContainsIntendedExcludesSouthAndEast(point: GeoPoint, polygon: ThreePointPolygon, onEdge: OnEdgeTest)
    requires || (forall v | v in Vertices(polygon) :: Value(point.latitude) < Value(v.latitude))
             || (forall v | v in Vertices(polygon) :: Value(v.longitude) <= Value(point.longitude))
    ensures ContainsIntended(point, polygon, onEdge) <==> OnBoundary(point, polygon, onEdge)
  {
    var noEdge: OnEdgeTest := (p, a, b) => false;
    var c := Canonical(point);
    if forall v | v in Vertices(polygon) :: Value(point.latitude) < Value(v.latitude) {
      NotContainedSouthOfVertices(c, polygon, noEdge);
    } else {
      NotContainedEastOfVertices(c, polygon, noEdge);
    }
  }

  function ScenarioPoint(latitude: int, longitude: int): GeoPoint {
    GeoPoint(FromValue(latitude), FromValue(longitude), 1)
  }

  /** The triangle (0, 0), (10, 0), (0, 10) at scale 1. */
  const ScenarioTriangle: ThreePointPolygon :=
    ThreePointPolygon(ScenarioPoint(0, 0), ScenarioPoint(10, 0), ScenarioPoint(0, 10))

  /** (1, 1) is inside: its ray crosses the edge (v3, v2) only. */
  lemma {:induction false} ScenarioInteriorPointInside(onEdge: OnEdgeTest)
    ensures Contains(ScenarioPoint(1, 1), ScenarioTriangle, onEdge)
  {
    EdgesInLoopOrder(ScenarioPoint(1, 1), ScenarioTriangle);
  }

  /** The vertex (0, 0) is inside by the crossing parity alone, whatever
      the on-edge test says. */
  lemma {:induction false} ScenarioVertexInside(onEdge: OnEdgeTest)
    ensures Contains(ScenarioPoint(0, 0), ScenarioTriangle, onEdge)
  {
    EdgesInLoopOrder(ScenarioPoint(0, 0), ScenarioTriangle);
  }

  /** The edge point (5, 0) is inside by the crossing parity alone. */
  lemma {:induction false} ScenarioEdgePointInside(onEdge: OnEdgeTest)
    ensures Contains(ScenarioPoint(5, 0), ScenarioTriangle, onEdge)
  {
    EdgesInLoopOrder(ScenarioPoint(5, 0), ScenarioTriangle);
  }

  /** (-1, -1) is outside unless the on-edge test claims it. */
  lemma {:induction false} ScenarioTriangleOutside(onEdge: OnEdgeTest)
    requires !OnBoundary(ScenarioPoint(-1, -1), ScenarioTriangle, onEdge)
    ensures !Contains(ScenarioPoint(-1, -1), ScenarioTriangle, onEdge)
  {
    EdgesInLoopOrder(ScenarioPoint(-1, -1), ScenarioTriangle);
  }
}
