/** The vertex edits of the polygon scene editor, as pure transformations of
    an `AreaPolygon`.  Each edit that changes the points is followed by
    `RecalculateBoundaries`, so the cached box is up to date afterwards. */
module PolygonEditor {
  import opened Vectors
  import opened Polygons
  import ArrayEx

  /** A polygon the editor can keep working on: closed, at least a triangle
      plus its closing point, finite coordinates and an up-to-date cache. */
  predicate WellFormed(p: AreaPolygon) {
    Closed(p.points) && |p.points| >= 4 && AllFinite(p.points) && Bounded(p)
  }

  /** The default polygon is well formed once its boundaries are computed. */
  lemma DefaultRecalculatedIsWellFormed()
    ensures WellFormed(RecalculateBoundaries(Default()))
  {
    assert AllFinite(DefaultPoints);
  }

  // ---------------------------------------------------------------------
  // Move all
  // ---------------------------------------------------------------------

  /** Dragging the centre handle to `handle`: the handle is flattened to
      height zero and, when it moved, every point is translated by the
      handle's displacement and the boundaries are recalculated. */
  function MoveAll(p: AreaPolygon, handle: Vector3): (r: AreaPolygon)
    ensures Flatten(handle) == p.position ==> r == p
    ensures |r.points| == |p.points|
    ensures Flatten(handle) != p.position ==>
      forall k :: 0 <= k < |p.points| ==> r.points[k] == Add(p.points[k], Sub(Flatten(handle), p.position))
    ensures Closed(p.points) ==> Closed(r.points)
    ensures AreaSize(r.points) == AreaSize(p.points)
    ensures Flatten(handle) != p.position ==> Centered(r)
    ensures Flatten(handle) != p.position && |r.points| > 0 && AllFinite(r.points) ==> Tight(r)
  {
    var newPosition := Flatten(handle);
    if newPosition == p.position then p
    else
      var delta := Sub(newPosition, p.position);
      TranslatePreservesArea(p.points, delta);
      RecalculateBoundaries(p.(position := newPosition, points := Translate(p.points, delta)))
  }

  /** For a bounded polygon the handle lands exactly at the new box centre:
      the box moves with the points, and a height-zero position keeps every
      point's height. */
  lemma MoveAllCentresOnHandle(p: AreaPolygon, handle: Vector3)
    requires |p.points| > 0 && Bounded(p)
    requires Flatten(handle) != p.position
    requires AllFinite(MoveAll(p, handle).points)
    ensures MoveAll(p, handle).position == Flatten(handle)
    ensures forall k :: 0 <= k < |p.points| ==> MoveAll(p, handle).points[k].y == p.points[k].y
  {
    var r := MoveAll(p, handle);
    var d := Sub(Flatten(handle), p.position);
    TranslatedBoxShifts(p, d, r);
  }

  /** When a tight polygon's points are all translated by `d` and the box
      is recomputed tightly, the box moves by `d` too. */
  lemma TranslatedBoxShifts(p: AreaPolygon, d: Vector3, r: AreaPolygon)
    requires Tight(p) && Tight(r)
    requires |r.points| == |p.points|
    requires forall k :: 0 <= k < |p.points| ==> r.points[k] == Add(p.points[k], d)
    ensures r.xBoundaries.minimum == p.xBoundaries.minimum + d.x && r.xBoundaries.maximum == p.xBoundaries.maximum + d.x
    ensures r.zBoundaries.minimum == p.zBoundaries.minimum + d.z && r.zBoundaries.maximum == p.zBoundaries.maximum + d.z
  {
    var i0 :| 0 <= i0 < |p.points| && p.points[i0].x == p.xBoundaries.minimum;
    var i1 :| 0 <= i1 < |p.points| && p.points[i1].x == p.xBoundaries.maximum;
    var i2 :| 0 <= i2 < |p.points| && p.points[i2].z == p.zBoundaries.minimum;
    var i3 :| 0 <= i3 < |p.points| && p.points[i3].z == p.zBoundaries.maximum;
    assert r.points[i0].x == p.xBoundaries.minimum + d.x;
    assert r.points[i1].x == p.xBoundaries.maximum + d.x;
    assert r.points[i2].z == p.zBoundaries.minimum + d.z;
    assert r.points[i3].z == p.zBoundaries.maximum + d.z;
    TightBoundsUnique(r, p.xBoundaries.minimum + d.x, p.xBoundaries.maximum + d.x,
                      p.zBoundaries.minimum + d.z, p.zBoundaries.maximum + d.z);
  }

  /** A tight box is determined by the points: any bounds that hold every
      point and are attained by some point are the cached ones. */
  lemma TightBoundsUnique(p: AreaPolygon, xMin: real, xMax: real, zMin: real, zMax: real)
    requires Tight(p)
    requires forall k :: 0 <= k < |p.points| ==> xMin <= p.points[k].x <= xMax && zMin <= p.points[k].z <= zMax
    requires exists k :: 0 <= k < |p.points| && p.points[k].x == xMin
    requires exists k :: 0 <= k < |p.points| && p.points[k].x == xMax
    requires exists k :: 0 <= k < |p.points| && p.points[k].z == zMin
    requires exists k :: 0 <= k < |p.points| && p.points[k].z == zMax
    ensures p.xBoundaries.minimum == xMin && p.xBoundaries.maximum == xMax
    ensures p.zBoundaries.minimum == zMin && p.zBoundaries.maximum == zMax
  {
  }

  // ---------------------------------------------------------------------
  // Move one point
  // ---------------------------------------------------------------------

  /** Dragging the handle of point `index` (the closing point has no handle
      of its own): the point takes the flattened handle position, the
      closing point mirrors point 0, and the boundaries are recalculated. */
  function MovePoint(p: AreaPolygon, index: nat, handle: Vector3): (r: AreaPolygon)
    requires index < |p.points| - 1
    ensures Flatten(handle) == p.points[index] ==> r == p
    ensures |r.points| == |p.points|
    ensures r.points[index] == Flatten(handle)
    ensures index == 0 && Flatten(handle) != p.points[index] ==> r.points[|r.points| - 1] == Flatten(handle)
    ensures forall k :: 0 <= k < |p.points| - 1 && k != index ==> r.points[k] == p.points[k]
    ensures index != 0 ==> r.points[|r.points| - 1] == p.points[|p.points| - 1]
    ensures Closed(p.points) ==> Closed(r.points)
    ensures Flatten(handle) != p.points[index] ==> Centered(r)
    ensures AllFinite(p.points) && Finite(handle.x) && Finite(handle.z) ==> AllFinite(r.points)
    ensures Flatten(handle) != p.points[index] && AllFinite(p.points) && Finite(handle.x) && Finite(handle.z) ==> Tight(r)
  {
    var newPoint := Flatten(handle);
    if newPoint == p.points[index] then p
    else
      var moved := p.points[index := newPoint];
      var points := if index == 0 then moved[|moved| - 1 := newPoint] else moved;
      MovedStaysFinite(p.points, index, newPoint, points);
      var r := RecalculateBoundaries(p.(points := points));
      assert r.points == points;
      r
  }

  /** Every point after a move is an original point or the new one, so
      finiteness carries over when the new point is finite. */
  lemma MovedStaysFinite(points: seq<Vector3>, index: nat, newPoint: Vector3, result: seq<Vector3>)
    requires index < |points| - 1
    requires result == (var moved := points[index := newPoint];
                        if index == 0 then moved[|moved| - 1 := newPoint] else moved)
    ensures AllFinite(points) && Finite(newPoint.x) && Finite(newPoint.z) ==> AllFinite(result)
  {
    if AllFinite(points) && Finite(newPoint.x) && Finite(newPoint.z) {
      forall k | 0 <= k < |result|
        ensures Finite(result[k].x) && Finite(result[k].z)
      {
        if result[k] != newPoint {
          assert result[k] == points[k];
        }
      }
    }
  }

  // ---------------------------------------------------------------------
  // Add a point
  // ---------------------------------------------------------------------

  /** Clicking the handle in the middle of edge `index`: the midpoint of
      `points[index]` and its successor is inserted after `points[index]`
      and the boundaries are recalculated. */
  function AddPoint(p: AreaPolygon, index: nat): (r: AreaPolygon)
    requires index < |p.points| - 1
    ensures |r.points| == |p.points| + 1
    ensures r.points[index + 1] == Scale(Add(p.points[index], p.points[index + 1]), 0.5)
    ensures forall k :: 0 <= k <= index ==> r.points[k] == p.points[k]
    ensures forall k :: index + 1 < k < |r.points| ==> r.points[k] == p.points[k - 1]
    ensures Closed(p.points) ==> Closed(r.points)
    ensures AreaSize(r.points) == AreaSize(p.points)
    ensures Centered(r)
    ensures AllFinite(p.points) ==> AllFinite(r.points) && Tight(r)
  {
    RecalculateBoundaries(p.(points := MidpointInserted(p.points, index)))
  }

  /** The point array after the midpoint of edge `index` is inserted at
      `index + 1` (the source computes the successor as
      `(index + 1) % length`, which is `index + 1` here). */
  function MidpointInserted(points: seq<Vector3>, index: nat): (q: seq<Vector3>)
    requires index < |points| - 1
    ensures |q| == |points| + 1
    ensures q[index + 1] == Scale(Add(points[index], points[index + 1]), 0.5)
    ensures forall k :: 0 <= k <= index ==> q[k] == points[k]
    ensures forall k :: index + 1 < k < |q| ==> q[k] == points[k - 1]
    ensures Closed(points) ==> Closed(q)
    ensures AreaSize(q) == AreaSize(points)
    ensures AllFinite(points) ==> AllFinite(q)
  {
    var n := (index + 1) % |points|;
    assert n == index + 1;
    var mid := Scale(Add(points[index], points[n]), 0.5);
    MidpointKeepsArea(points, index);
    MidpointKeepsFinite(points, index);
    ArrayEx.Insert(points, n, mid)
  }

  lemma MidpointKeepsFinite(points: seq<Vector3>, index: nat)
    requires index < |points| - 1
    ensures AllFinite(points) ==>
      AllFinite(ArrayEx.Insert(points, index + 1, Scale(Add(points[index], points[index + 1]), 0.5)))
  {
    var q := ArrayEx.Insert(points, index + 1, Scale(Add(points[index], points[index + 1]), 0.5));
    if AllFinite(points) {
      forall k | 0 <= k < |q|
        ensures Finite(q[k].x) && Finite(q[k].z)
      {
        if k != index + 1 {
          assert q[k] == points[if k <= index then k else k - 1];
        } else {
          assert Finite(points[index].x) && Finite(points[index + 1].x);
          assert Finite(points[index].z) && Finite(points[index + 1].z);
        }
      }
    }
  }

  /** Splitting an edge at its midpoint does not change the signed area:
      the two half-edges' shoelace terms add up to the whole edge's. */
  lemma MidpointKeepsArea(points: seq<Vector3>, index: nat)
    requires index < |points| - 1
    ensures AreaSize(ArrayEx.Insert(points, index + 1,
                       Scale(Add(points[index], points[index + 1]), 0.5)))
         == AreaSize(points)
  {
    var n := |points|;
    var a, b := points[index], points[index + 1];
    var m := Scale(Add(a, b), 0.5);
    var q := ArrayEx.Insert(points, index + 1, m);
    var t, u := EdgeTerms(points), EdgeTerms(q);
    var tA := (a.x + m.x) * (a.z - m.z);
    var tB := (m.x + b.x) * (m.z - b.z);
    assert u[index + 1] == tA;
    assert u[index + 2] == tB;
    HalfEdgeTerms(a, b);
    InsertKeepsOtherEdgeTerms(points, index, m);
    var split := t[..index + 1] + [tA, tB] + t[index + 2..];
    assert |u| == |split|;
    forall k | 0 <= k < |u|
      ensures u[k] == split[k]
    {
      if k > index + 2 {
        assert split[k] == t[k - 1];
      }
    }
    assert u == split;
    Sums.SumSplitEntry(t, u, index + 1, tA, tB);
  }

  /** Inserting a point after `points[index]` leaves every other edge
      unchanged: the edges before it keep their index and the edges after
      it move one index on. */
  lemma InsertKeepsOtherEdgeTerms(points: seq<Vector3>, index: nat, m: Vector3)
    requires index < |points| - 1
    ensures var q := ArrayEx.Insert(points, index + 1, m);
      && (forall k :: 0 <= k <= index ==> EdgeTerm(q, k) == EdgeTerm(points, k))
      && (forall k :: index + 3 <= k < |q| ==> EdgeTerm(q, k) == EdgeTerm(points, k - 1))
  {
    var q := ArrayEx.Insert(points, index + 1, m);
    forall k | 0 <= k <= index
      ensures EdgeTerm(q, k) == EdgeTerm(points, k)
    {
      if k == 0 {
        assert q[|q| - 1] == points[|points| - 1];
      } else {
        assert q[k - 1] == points[k - 1];
      }
    }
    forall k | index + 3 <= k < |q|
      ensures EdgeTerm(q, k) == EdgeTerm(points, k - 1)
    {
      assert q[k] == points[k - 1] && q[k - 1] == points[k - 2];
    }
  }

  lemma HalfEdgeTerms(a: Vector3, b: Vector3)
    ensures var m := Scale(Add(a, b), 0.5);
      (a.x + m.x) * (a.z - m.z) + (m.x + b.x) * (m.z - b.z) == (a.x + b.x) * (a.z - b.z)
  {
    var m := Scale(Add(a, b), 0.5);
    var h := (a.z - b.z) * 0.5;
    assert a.z - m.z == h && m.z - b.z == h;
    assert (a.x + m.x) * h + (m.x + b.x) * h == (a.x + 2.0 * m.x + b.x) * h;
  }

  // ---------------------------------------------------------------------
  // Remove a point
  // ---------------------------------------------------------------------

  /** Ctrl-clicking point `index`: only offered while the polygon has at
      least five entries, so a triangle plus its closing point survives.
      Removing point 0 re-closes the polygon by copying the new first point
      into the last slot; the boundaries are recalculated. */
  function RemovePoint(p: AreaPolygon, index: nat): (r: AreaPolygon)
    requires |p.points| >= 5 ==> index < |p.points| - 1
    ensures |p.points| < 5 ==> r == p
    ensures |p.points| >= 5 ==> |r.points| == |p.points| - 1 >= 4
    ensures |p.points| >= 5 ==> forall k :: 0 <= k < index ==> r.points[k] == p.points[k]
    ensures |p.points| >= 5 ==> forall k :: index <= k < |r.points| - 1 ==> r.points[k] == p.points[k + 1]
    ensures |p.points| >= 5 && index != 0 ==> r.points[|r.points| - 1] == p.points[|p.points| - 1]
    ensures |p.points| >= 5 && index == 0 ==> Closed(r.points)
    ensures Closed(p.points) ==> Closed(r.points)
    ensures |p.points| >= 5 ==> Centered(r)
    ensures |p.points| >= 5 && AllFinite(p.points) ==> AllFinite(r.points) && Tight(r)
  {
    if |p.points| < 5 then p
    else RecalculateBoundaries(p.(points := VertexRemoved(p.points, index)))
  }

  /** The point array after point `index` is removed; removing point 0
      re-closes the polygon by copying the new first point into the last
      slot. */
  function VertexRemoved(points: seq<Vector3>, index: nat): (q: seq<Vector3>)
    requires index < |points| - 1
    ensures |q| == |points| - 1
    ensures forall k :: 0 <= k < index ==> q[k] == points[k]
    ensures forall k :: index <= k < |q| - 1 ==> q[k] == points[k + 1]
    ensures index != 0 ==> q[|q| - 1] == points[|points| - 1]
    ensures index == 0 && |q| > 0 ==> Closed(q)
    ensures Closed(points) ==> Closed(q)
    ensures AllFinite(points) ==> AllFinite(q)
  {
    var removed := ArrayEx.Remove(points, index);
    var q := if index == 0 then removed[|removed| - 1 := removed[0]] else removed;
    RemovedStaysFinite(points, index, q);
    q
  }

  /** Every point left after a removal (and re-closing) is a point of the
      original polygon, so finiteness carries over. */
  lemma RemovedStaysFinite(points: seq<Vector3>, index: nat, result: seq<Vector3>)
    requires index < |points| - 1
    requires result == (var removed := ArrayEx.Remove(points, index);
                        if index == 0 then removed[|removed| - 1 := removed[0]] else removed)
    ensures AllFinite(points) ==> AllFinite(result)
  {
    if AllFinite(points) {
      forall k | 0 <= k < |result|
        ensures Finite(result[k].x) && Finite(result[k].z)
      {
        if index == 0 && k == |result| - 1 {
          assert result[k] == points[1];
        } else {
          assert result[k] == points[if k < index then k else k + 1];
        }
      }
    }
  }

  /** Adding a point keeps a well-formed polygon well formed. */
  lemma AddPointPreservesWellFormed(p: AreaPolygon, index: nat)
    requires WellFormed(p)
    requires index < |p.points| - 1
    ensures WellFormed(AddPoint(p, index))
  {
  }

  /** Removing a point keeps a well-formed polygon well formed. */
  lemma RemovePointPreservesWellFormed(p: AreaPolygon, index: nat)
    requires WellFormed(p)
    requires index < |p.points| - 1
    ensures WellFormed(RemovePoint(p, index))
  {
  }

  /** Moving a point to a finite position keeps a well-formed polygon well formed. */
  lemma MovePointPreservesWellFormed(p: AreaPolygon, index: nat, handle: Vector3)
    requires WellFormed(p)
    requires index < |p.points| - 1
    requires Finite(handle.x) && Finite(handle.z)
    ensures WellFormed(MovePoint(p, index, handle))
  {
  }

  /** Moving everything keeps a well-formed polygon well formed as long as
      the translated coordinates stay finite. */
  lemma MoveAllPreservesWellFormed(p: AreaPolygon, handle: Vector3)
    requires WellFormed(p)
    requires AllFinite(MoveAll(p, handle).points)
    ensures WellFormed(MoveAll(p, handle))
  {
  }
}
