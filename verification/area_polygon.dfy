/** `AreaPolygon`: a closed polygon in the X/Z plane (first point repeated as
    the last), with a cached bounding box and a reference position at the
    box centre.  The box is only refreshed by `RecalculateBoundaries`. */
module Polygons {
  import opened Vectors
  import opened Ranges
  import opened Sums

  datatype AreaPolygon = AreaPolygon(
    points: seq<Vector3>,
    xBoundaries: RangeF,
    zBoundaries: RangeF,
    position: Vector3)

  /** The initial shape: a triangle of radius 10 around the origin, closed by
      repeating its first point. */
  const DefaultPoints: seq<Vector3> := [
    Vector3(10.0, 0.0, -10.0),
    Vector3(-10.0, 0.0, -10.0),
    Vector3(0.0, 0.0, 10.0),
    Vector3(10.0, 0.0, -10.0)
  ]

  /** A freshly added polygon: the default points, zero-initialised boundary
      structs (the box is stale until the first recalculation) and the
      transform at the origin.  The default triangle has base 20 and height
      20, so its shoelace area is 200 under the source's orientation. */
  function Default(): (p: AreaPolygon)
    ensures p.position == Zero
    ensures AreaSize(p.points) == 200.0
  {
    var pts := DefaultPoints;
    var t := EdgeTerms(pts);
    assert t[0] == 0.0 && t[1] == 0.0 && t[2] == 200.0 && t[3] == 200.0;
    assert t[3..] == [200.0] && t[2..] == [200.0] + t[3..];
    assert t[1..] == [0.0] + t[2..] && t == [0.0] + t[1..];
    assert Sum(t[3..]) == 200.0;
    assert Sum(t[2..]) == 400.0;
    assert Sum(t[1..]) == 400.0;
    assert Sum(t) == 400.0;
    AreaPolygon(pts, RangeF(0.0, 0.0), RangeF(0.0, 0.0), Zero)
  }

  /** The closure convention: the last point repeats the first. */
  predicate Closed(points: seq<Vector3>) {
    |points| > 0 && points[0] == points[|points| - 1]
  }

  lemma DefaultIsClosedTriangle()
    ensures |Default().points| == 4 && Closed(Default().points)
    ensures Default().points[0] != Default().points[1]
    ensures Default().points[1] != Default().points[2]
    ensures Default().points[2] != Default().points[0]
  {
  }

  // ---------------------------------------------------------------------
  // Containment
  // ---------------------------------------------------------------------

  /** The index paired with `i` by the edge loop: the previous point,
      wrapping from 0 to the last index. */
  function Prev(n: nat, i: nat): nat
    requires i < n
  {
    if i == 0 then n - 1 else i - 1
  }

  /** The edge from `points[j]` to `points[i]` straddles the horizontal line
      through `test` and meets it strictly to the right of `test`.  The
      division is only evaluated when the two end points lie on opposite
      sides, so its denominator is never zero. */
  predicate Crosses(points: seq<Vector3>, i: nat, j: nat, test: Vector3)
    requires i < |points| && j < |points|
  {
    CrossesAt(points[i], points[j], test.x, test.z)
  }

  /** The crossing condition for the edge from `b` to `a` and the test
      coordinates `(x, z)`. */
  predicate CrossesAt(a: Vector3, b: Vector3, x: real, z: real) {
    (a.z > z) != (b.z > z)
    && x < (b.x - a.x) * (z - a.z) / (b.z - a.z) + a.x
  }

  /** How many of the edges `(i, Prev(i))` with `i < upTo` cross. */
  function CrossingCount(points: seq<Vector3>, test: Vector3, upTo: nat): nat
    requires upTo <= |points|
  {
    if upTo == 0 then 0
    else
      var crossing := if Crosses(points, upTo - 1, Prev(|points|, upTo - 1), test) then 1 else 0;
      CrossingCount(points, test, upTo - 1) + crossing
  }

  /** The cached-box pre-test: none of the four early rejections fires. */
  predicate InBox(p: AreaPolygon, test: Vector3) {
    !(test.x < p.xBoundaries.minimum) && !(test.z < p.zBoundaries.minimum)
    && !(test.x > p.xBoundaries.maximum) && !(test.z > p.zBoundaries.maximum)
  }

  /** Even-odd rule: inside the cached box and an odd number of crossings. */
  predicate Inside(p: AreaPolygon, test: Vector3) {
    InBox(p, test) && CrossingCount(p.points, test, |p.points|) % 2 == 1
  }

  /** The containment test: the box pre-rejection, then a toggle per
      crossing edge. */
  method Contains(p: AreaPolygon, test: Vector3) returns (result: bool)
    ensures !InBox(p, test) ==> !result
    ensures result <==> Inside(p, test)
  {
    var points := p.points;
    if test.x < p.xBoundaries.minimum {
      return false;
    }
    if test.z < p.zBoundaries.minimum {
      return false;
    }
    if test.x > p.xBoundaries.maximum {
      return false;
    }
    if test.z > p.zBoundaries.maximum {
      return false;
    }
    result := false;
    var i := 0;
    var j := |points| - 1;
    while i < |points|
      invariant 0 <= i <= |points|
      invariant i < |points| ==> j == Prev(|points|, i)
      invariant result <==> CrossingCount(points, test, i) % 2 == 1
    {
      if Crosses(points, i, j, test) {
        result := !result;
      }
      j := i;
      i := i + 1;
    }
  }

  /** The division in the crossing test never has a zero denominator. */
  lemma CrossingDenominatorNonZero(points: seq<Vector3>, i: nat, j: nat, test: Vector3)
    requires i < |points| && j < |points|
    requires (points[i].z > test.z) != (points[j].z > test.z)
    ensures points[j].z - points[i].z != 0.0
  {
  }

  /** Containment reads only the X and Z coordinates of the test point. */
  lemma {:induction false} CrossingCountIgnoresHeight(points: seq<Vector3>, test: Vector3, y: real, upTo: nat)
    requires upTo <= |points|
    ensures CrossingCount(points, test, upTo) == CrossingCount(points, test.(y := y), upTo)
  {
    if upTo > 0 {
      CrossingCountIgnoresHeight(points, test, y, upTo - 1);
    }
  }

  lemma InsideIgnoresHeight(p: AreaPolygon, test: Vector3, y: real)
    ensures Inside(p, test) <==> Inside(p, test.(y := y))
  {
    CrossingCountIgnoresHeight(p.points, test, y, |p.points|);
  }

  /** The repeated closing point forms a zero-length edge that never crosses. */
  lemma ClosingEdgeNeverCrosses(points: seq<Vector3>, test: Vector3)
    requires Closed(points)
    ensures !Crosses(points, 0, |points| - 1, test)
  {
  }

  /** Both orientations of one edge meet the test line at the same X. */
  lemma EdgeCrossingSymmetric(a: Vector3, b: Vector3, x: real, z: real)
    ensures CrossesAt(a, b, x, z) <==> CrossesAt(b, a, x, z)
  {
    if (a.z > z) != (b.z > z) {
      var d := b.z - a.z;
      var k := (b.x - a.x) / d;
      assert (b.x - a.x) * (z - a.z) / d == k * (z - a.z);
      assert (a.x - b.x) * (z - b.z) / (a.z - b.z) == k * (z - b.z);
      assert k * (z - a.z) - k * (z - b.z) == k * d;
      assert k * d == b.x - a.x;
    }
  }

  /** With fewer than three points the polygon contains nothing: one point
      gives a degenerate edge and two points give the same edge twice. */
  lemma FewerThanThreePointsContainNothing(p: AreaPolygon, test: Vector3)
    requires |p.points| < 3
    ensures !Inside(p, test)
  {
    var pts := p.points;
    if |pts| == 1 {
      assert !Crosses(pts, 0, 0, test);
      assert CrossingCount(pts, test, 1) == 0;
    } else if |pts| == 2 {
      EdgeCrossingSymmetric(pts[0], pts[1], test.x, test.z);
      assert Crosses(pts, 0, 1, test) <==> Crosses(pts, 1, 0, test);
      assert CrossingCount(pts, test, 1) == (if Crosses(pts, 0, 1, test) then 1 else 0);
      assert CrossingCount(pts, test, 2) == CrossingCount(pts, test, 1) + (if Crosses(pts, 1, 0, test) then 1 else 0);
    }
  }

  // ---------------------------------------------------------------------
  // Bounding box
  // ---------------------------------------------------------------------

  /** One step of the boundary scan: widen each bound that the point exceeds. */
  function Extend(x: RangeF, z: RangeF, point: Vector3): (RangeF, RangeF) {
    (RangeF(if point.x < x.minimum then point.x else x.minimum,
            if point.x > x.maximum then point.x else x.maximum),
     RangeF(if point.z < z.minimum then point.z else z.minimum,
            if point.z > z.maximum then point.z else z.maximum))
  }

  /** The boundary scan over `points`, front to back, from the given bounds.
      Each result bound is at least as wide as the start and either is the
      start bound or is attained by some point. */
  function Scan(points: seq<Vector3>, x: RangeF, z: RangeF): (r: (RangeF, RangeF))
    ensures r.0.minimum <= x.minimum && r.0.maximum >= x.maximum
    ensures r.1.minimum <= z.minimum && r.1.maximum >= z.maximum
    ensures forall k :: 0 <= k < |points| ==> r.0.minimum <= points[k].x <= r.0.maximum
    ensures forall k :: 0 <= k < |points| ==> r.1.minimum <= points[k].z <= r.1.maximum
    ensures r.0.minimum == x.minimum || exists k :: 0 <= k < |points| && points[k].x == r.0.minimum
    ensures r.0.maximum == x.maximum || exists k :: 0 <= k < |points| && points[k].x == r.0.maximum
    ensures r.1.minimum == z.minimum || exists k :: 0 <= k < |points| && points[k].z == r.1.minimum
    ensures r.1.maximum == z.maximum || exists k :: 0 <= k < |points| && points[k].z == r.1.maximum
  {
    if |points| == 0 then (x, z)
    else
      var step := Extend(x, z, points[0]);
      var r := Scan(points[1..], step.0, step.1);
      assert forall k :: 1 <= k < |points| ==> points[k] == points[1..][k - 1];
      r
  }

  /** The scan's starting bounds: `(float.MaxValue, float.MinValue)`, an
      inverted box that the first point replaces. */
  const Sentinel: RangeF := RangeF(FloatMax, -FloatMax)

  predicate AllFinite(points: seq<Vector3>) {
    forall k :: 0 <= k < |points| ==> Finite(points[k].x) && Finite(points[k].z)
  }

  /** The cached box is the tight box of the points: it holds every point
      and each bound is attained by some point. */
  predicate Tight(p: AreaPolygon) {
    && (forall k :: 0 <= k < |p.points| ==> p.xBoundaries.minimum <= p.points[k].x <= p.xBoundaries.maximum)
    && (forall k :: 0 <= k < |p.points| ==> p.zBoundaries.minimum <= p.points[k].z <= p.zBoundaries.maximum)
    && (exists k :: 0 <= k < |p.points| && p.points[k].x == p.xBoundaries.minimum)
    && (exists k :: 0 <= k < |p.points| && p.points[k].x == p.xBoundaries.maximum)
    && (exists k :: 0 <= k < |p.points| && p.points[k].z == p.zBoundaries.minimum)
    && (exists k :: 0 <= k < |p.points| && p.points[k].z == p.zBoundaries.maximum)
  }

  /** The reference position sits at the box centre, at height zero. */
  predicate Centered(p: AreaPolygon) {
    p.position == Vector3(
      (p.xBoundaries.minimum + p.xBoundaries.maximum) * 0.5,
      0.0,
      (p.zBoundaries.minimum + p.zBoundaries.maximum) * 0.5)
  }

  /** The cache is up to date: tight box and centred position. */
  predicate Bounded(p: AreaPolygon) {
    Tight(p) && Centered(p)
  }

  /** Rescans the points: for a non-empty polygon of finite coordinates the
      box becomes tight; an empty polygon keeps the inverted sentinel box.
      The position moves to the box centre; the points are untouched. */
  function RecalculateBoundaries(p: AreaPolygon): (r: AreaPolygon)
    ensures r.points == p.points
    ensures Centered(r)
    ensures |p.points| > 0 && AllFinite(p.points) ==> Tight(r)
    ensures |p.points| == 0 ==> r.xBoundaries == Sentinel && r.zBoundaries == Sentinel
  {
    var b := Scan(p.points, Sentinel, Sentinel);
    var r := AreaPolygon(
      p.points, b.0, b.1,
      Vector3((b.0.minimum + b.0.maximum) * 0.5, 0.0, (b.1.minimum + b.1.maximum) * 0.5));
    if |p.points| > 0 && AllFinite(p.points) then
      assert Finite(p.points[0].x) && Finite(p.points[0].z);
      r
    else r
  }

  /** After a recalculation an empty polygon contains no finite point. */
  lemma EmptyPolygonContainsNothing(p: AreaPolygon, test: Vector3)
    requires |p.points| == 0
    requires Finite(test.x)
    ensures !Inside(RecalculateBoundaries(p), test)
  {
  }

  /** A bounded polygon contains nothing outside its points' X/Z extent. */
  lemma InsideImpliesWithinPoints(p: AreaPolygon, test: Vector3)
    requires Tight(p)
    requires Inside(p, test)
    ensures exists k :: 0 <= k < |p.points| && p.points[k].x <= test.x
    ensures exists k :: 0 <= k < |p.points| && test.x <= p.points[k].x
    ensures exists k :: 0 <= k < |p.points| && p.points[k].z <= test.z
    ensures exists k :: 0 <= k < |p.points| && test.z <= p.points[k].z
  {
  }

  /** The first recalculation of a freshly added polygon: the default
      triangle spans `[-10, 10]` on both axes, so the box is that square and
      the polygon is centred on the origin. */
  lemma DefaultBoundaries()
    ensures var r := RecalculateBoundaries(Default());
      r.xBoundaries == RangeF(-10.0, 10.0) && r.zBoundaries == RangeF(-10.0, 10.0)
      && r.position == Zero
  {
    var pts := DefaultPoints;
    var s1 := Extend(Sentinel, Sentinel, pts[0]);
    assert s1 == (RangeF(10.0, 10.0), RangeF(-10.0, -10.0));
    var s2 := Extend(s1.0, s1.1, pts[1]);
    assert s2 == (RangeF(-10.0, 10.0), RangeF(-10.0, -10.0));
    var s3 := Extend(s2.0, s2.1, pts[2]);
    assert s3 == (RangeF(-10.0, 10.0), RangeF(-10.0, 10.0));
    var s4 := Extend(s3.0, s3.1, pts[3]);
    assert s4 == s3;
    assert pts[1..][1..][1..][1..] == [];
    assert Scan(pts[1..][1..][1..][1..], s4.0, s4.1) == s3;
    assert Scan(pts[1..][1..][1..], s3.0, s3.1) == s3;
    assert Scan(pts[1..][1..], s2.0, s2.1) == s3;
    assert Scan(pts[1..], s1.0, s1.1) == s3;
    assert Scan(pts, Sentinel, Sentinel) == s3;
  }

  // ---------------------------------------------------------------------
  // Signed area
  // ---------------------------------------------------------------------

  /** The shoelace term of the edge ending at `points[i]`. */
  function EdgeTerm(points: seq<Vector3>, i: nat): real
    requires i < |points|
  {
    var j := Prev(|points|, i);
    (points[j].x + points[i].x) * (points[j].z - points[i].z)
  }

  function EdgeTerms(points: seq<Vector3>): (r: seq<real>)
    ensures |r| == |points|
    ensures forall i :: 0 <= i < |points| ==> r[i] == EdgeTerm(points, i)
  {
    seq(|points|, i requires 0 <= i < |points| => EdgeTerm(points, i))
  }

  /** Half the sum of the shoelace terms over all cyclic edges: the signed
      area, positive or negative according to the winding. */
  function AreaSize(points: seq<Vector3>): real {
    Sum(EdgeTerms(points)) * 0.5
  }

  /** The area accumulation loop. */
  method CalculateAreaSize(p: AreaPolygon) returns (area: real)
    ensures area == AreaSize(p.points)
  {
    var points := p.points;
    var terms := EdgeTerms(points);
    area := 0.0;
    var j := |points| - 1;
    for i := 0 to |points|
      invariant i < |points| ==> j == Prev(|points|, i)
      invariant area == Sum(terms[..i])
    {
      area := area + (points[j].x + points[i].x) * (points[j].z - points[i].z);
      assert terms[..i + 1] == terms[..i] + [terms[i]];
      SumAppend(terms[..i], [terms[i]]);
      j := i;
    }
    assert terms[..|points|] == terms;
    area := area * 0.5;
  }

  /** The repeated closing point adds nothing: the closed polygon has the
      same area as its points without the repetition. */
  lemma ClosingPointAddsNoArea(points: seq<Vector3>)
    requires Closed(points) && |points| >= 2
    ensures EdgeTerm(points, 0) == 0.0
    ensures AreaSize(points) == AreaSize(points[..|points| - 1])
  {
    var n := |points|;
    var open := points[..n - 1];
    var t, u := EdgeTerms(points), EdgeTerms(open);
    // t = [0] + u[1..] + [u[0]]
    assert t[0] == 0.0;
    assert forall i :: 1 <= i < n - 1 ==> t[i] == u[i];
    assert t[n - 1] == u[0];
    assert t == [t[0]] + u[1..] + [u[0]];
    SumAppend([t[0]] + u[1..], [u[0]]);
    SumAppend([t[0]], u[1..]);
    assert u == [u[0]] + u[1..];
    SumAppend([u[0]], u[1..]);
  }

  /** The points in reverse order. */
  function Reverse(points: seq<Vector3>): (r: seq<Vector3>)
    ensures |r| == |points|
    ensures forall i :: 0 <= i < |points| ==> r[i] == points[|points| - 1 - i]
  {
    seq(|points|, i requires 0 <= i < |points| => points[|points| - 1 - i])
  }

  /** In the reversed polygon each edge is an edge of the original run the
      other way, so its shoelace term changes sign. */
  lemma ReversedEdgeTerm(points: seq<Vector3>, i: nat)
    requires i < |points|
    ensures EdgeTerm(Reverse(points), i) == -EdgeTerm(points, if i == 0 then 0 else |points| - i)
  {
    var n := |points|;
    var q := Reverse(points);
    var a, b := q[Prev(n, i)], q[i];
    if i == 0 {
      assert a == points[0] && b == points[n - 1];
    } else {
      assert a == points[n - i] && b == points[n - 1 - i];
      assert Prev(n, n - i) == n - 1 - i;
    }
    assert (a.x + b.x) * (a.z - b.z) == -((b.x + a.x) * (b.z - a.z));
  }

  /** Reversing the winding negates the signed area. */
  lemma ReverseNegatesArea(points: seq<Vector3>)
    ensures AreaSize(Reverse(points)) == -AreaSize(points)
  {
    var n := |points|;
    if n > 0 {
      var t, u := EdgeTerms(points), EdgeTerms(Reverse(points));
      forall i | 0 <= i < n
        ensures -u[i] == t[if i == 0 then 0 else n - i]
      {
        ReversedEdgeTerm(points, i);
      }
      SumNegatedCyclicReverse(t, u);
    }
  }

  /** The same polygon moved by `delta`. */
  function Translate(points: seq<Vector3>, delta: Vector3): (r: seq<Vector3>)
    ensures |r| == |points|
    ensures forall i :: 0 <= i < |points| ==> r[i] == Add(points[i], delta)
  {
    seq(|points|, i requires 0 <= i < |points| => Add(points[i], delta))
  }

  /** The Z extent of every cyclic edge, from its previous point to its own. */
  function ZSteps(points: seq<Vector3>): (d: seq<real>)
    ensures |d| == |points|
    ensures forall i :: 0 <= i < |points| ==> d[i] == points[Prev(|points|, i)].z - points[i].z
  {
    seq(|points|, i requires 0 <= i < |points| => points[Prev(|points|, i)].z - points[i].z)
  }

  /** Around a cycle the successive Z differences cancel. */
  lemma CyclicDifferencesCancel(points: seq<Vector3>)
    ensures Sum(ZSteps(points)) == 0.0
  {
    var n := |points|;
    if n > 0 {
      var d := ZSteps(points);
      var zs := seq(n, i requires 0 <= i < n => points[i].z);
      var shifted := seq(n, i requires 0 <= i < n => points[Prev(n, i)].z);
      SumPointwise(d, zs, shifted);
      RotationKeepsSum(zs, shifted);
    }
  }

  /** Rotating a sequence by one place does not change its sum. */
  lemma RotationKeepsSum(zs: seq<real>, shifted: seq<real>)
    requires |shifted| == |zs| > 0
    requires shifted[0] == zs[|zs| - 1]
    requires forall i :: 1 <= i < |zs| ==> shifted[i] == zs[i - 1]
    ensures Sum(shifted) == Sum(zs)
  {
    var n := |zs|;
    assert shifted == [zs[n - 1]] + zs[..n - 1];
    assert zs == zs[..n - 1] + [zs[n - 1]];
    SumAppend([zs[n - 1]], zs[..n - 1]);
    SumAppend(zs[..n - 1], [zs[n - 1]]);
  }


  /** Moving an edge by `delta` adds `2 * delta.x` times its Z extent to its term. */
  lemma TranslatedEdgeTerm(points: seq<Vector3>, delta: Vector3, i: nat)
    requires i < |points|
    ensures EdgeTerm(Translate(points, delta), i)
         == EdgeTerm(points, i) + 2.0 * delta.x * (points[Prev(|points|, i)].z - points[i].z)
  {
    var j := Prev(|points|, i);
    var a, b := points[j], points[i];
    var dz := a.z - b.z;
    assert (a.z + delta.z) - (b.z + delta.z) == dz;
    assert ((a.x + delta.x) + (b.x + delta.x)) * dz == (a.x + b.x) * dz + 2.0 * delta.x * dz;
  }

  /** Moving every point by the same offset leaves the signed area unchanged. */
  lemma TranslatePreservesArea(points: seq<Vector3>, delta: Vector3)
    ensures AreaSize(Translate(points, delta)) == AreaSize(points)
  {
    var n := |points|;
    var d := ZSteps(points);
    var k := 2.0 * delta.x;
    var e := seq(n, i requires 0 <= i < n => k * d[i]);
    TranslatedTermsSplit(points, delta, e);
    ScaledStepsCancel(points, k, e);
    SumPointwise(EdgeTerms(points), e, EdgeTerms(Translate(points, delta)));
  }

  /** Any multiple of the Z extents still cancels around the cycle. */
  lemma ScaledStepsCancel(points: seq<Vector3>, k: real, e: seq<real>)
    requires |e| == |points|
    requires forall i :: 0 <= i < |points| ==> e[i] == k * ZSteps(points)[i]
    ensures Sum(e) == 0.0
  {
    CyclicDifferencesCancel(points);
    SumScale(ZSteps(points), e, k);
  }


  /** Each translated edge term is the old term plus `e`'s entry, when `e`
      holds `2 * delta.x` times the edges' Z extents. */
  lemma TranslatedTermsSplit(points: seq<Vector3>, delta: Vector3, e: seq<real>)
    requires |e| == |points|
    requires forall i :: 0 <= i < |points| ==> e[i] == 2.0 * delta.x * ZSteps(points)[i]
    ensures forall i :: 0 <= i < |points| ==>
      EdgeTerms(Translate(points, delta))[i] == EdgeTerms(points)[i] + e[i]
  {
    forall i | 0 <= i < |points|
      ensures EdgeTerms(Translate(points, delta))[i] == EdgeTerms(points)[i] + e[i]
    {
      TranslatedEdgeTerm(points, delta, i);
    }
  }


  /** The shoelace area of an axis-aligned unit square listed with
      increasing X first: magnitude one, negative for this winding. */
  lemma UnitSquareArea()
    ensures AreaSize([Vector3(0.0, 0.0, 0.0), Vector3(1.0, 0.0, 0.0),
                      Vector3(1.0, 0.0, 1.0), Vector3(0.0, 0.0, 1.0)]) == -1.0
  {
    var pts := [Vector3(0.0, 0.0, 0.0), Vector3(1.0, 0.0, 0.0),
                Vector3(1.0, 0.0, 1.0), Vector3(0.0, 0.0, 1.0)];
    var t := EdgeTerms(pts);
    assert t[0] == 0.0 && t[1] == 0.0 && t[2] == -2.0 && t[3] == 0.0;
    assert t[3..] == [0.0] && t[2..] == [-2.0] + t[3..];
    assert t[1..] == [0.0] + t[2..] && t == [0.0] + t[1..];
    assert Sum(t[3..]) == 0.0;
    assert Sum(t[2..]) == -2.0;
    assert Sum(t[1..]) == -2.0;
    assert Sum(t) == -2.0;
  }
}
