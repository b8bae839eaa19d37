/** `Common`: the sequence searches and permutations the editors use, and the
    coordinate conversions between terrain grids, normalized positions and
    world positions. */
module Common {
  import opened Wrappers
  import opened Vectors

  /** The index of the first element satisfying `test`, or -1 when none does. */
  method IndexOf<T>(source: seq<T>, test: T -> bool) returns (index: int)
    ensures -1 <= index < |source|
    ensures index == -1 <==> forall k :: 0 <= k < |source| ==> !test(source[k])
    ensures 0 <= index ==> test(source[index])
    ensures 0 <= index ==> forall k :: 0 <= k < index ==> !test(source[k])
  {
    index := 0;
    while index < |source|
      invariant 0 <= index <= |source|
      invariant forall k :: 0 <= k < index ==> !test(source[k])
    {
      if test(source[index]) {
        return;
      }
      index := index + 1;
    }
    index := -1;
  }

  /** `Mathf.Rad2Deg`, `360 / (2 * PI)` as a single-precision constant. */
  const Rad2Deg: real := 57.29578

  /** `CalculateSlopeRad`: the absolute dot product of `Vector3.up` with the
      normal, which is `|normal.y|`.  Despite the name it is the cosine of
      the slope angle, not the angle: 1 on flat ground, 0 on a vertical
      face. */
  function CalculateSlopeRad(normal: Vector3): (r: real)
    ensures 0.0 <= r
    ensures r == normal.y || r == -normal.y
  {
    var d := Dot(Up, normal);
    if d < 0.0 then -d else d
  }

  /** `CalculateSlopeDeg`: that value scaled by `Rad2Deg`; zero exactly on
      a vertical face. */
  function CalculateSlopeDeg(normal: Vector3): (r: real)
    ensures 0.0 <= r
    ensures r == 0.0 <==> normal.y == 0.0
  {
    CalculateSlopeRad(normal) * Rad2Deg
  }

  /** Only the height component of the normal matters, and a steeper face
      (smaller `|y|`) never reads a larger value, in either unit. */
  lemma SlopeReadsOnlyHeight(a: Vector3, b: Vector3)
    ensures a.y == b.y ==> CalculateSlopeRad(a) == CalculateSlopeRad(b) && CalculateSlopeDeg(a) == CalculateSlopeDeg(b)
    ensures CalculateSlopeRad(a) <= CalculateSlopeRad(b) ==> CalculateSlopeDeg(a) <= CalculateSlopeDeg(b)
  {
  }

  /** Flat ground, with the normal straight up, reads 1 rather than 0. */
  lemma FlatGroundSlope()
    ensures CalculateSlopeRad(Up) == 1.0
    ensures CalculateSlopeDeg(Up) == Rad2Deg
  {
  }

  /** Exchanges two entries (both the list and the array overloads). */
  function Swap<T>(source: seq<T>, i1: int, i2: int): (r: seq<T>)
    requires 0 <= i1 < |source| && 0 <= i2 < |source|
    ensures |r| == |source|
    ensures r[i1] == source[i2] && r[i2] == source[i1]
    ensures forall k :: 0 <= k < |source| && k != i1 && k != i2 ==> r[k] == source[k]
  {
    var t := source[i1];
    source[i1 := source[i2]][i2 := t]
  }

  /** Swapping is a permutation. */
  lemma SwapPermutes<T>(source: seq<T>, i1: int, i2: int)
    requires 0 <= i1 < |source| && 0 <= i2 < |source|
    ensures multiset(Swap(source, i1, i2)) == multiset(source)
  {
  }

  /** Swapping the same two entries again restores the original order. */
  lemma SwapTwice<T>(source: seq<T>, i1: int, i2: int)
    requires 0 <= i1 < |source| && 0 <= i2 < |source|
    ensures Swap(Swap(source, i1, i2), i1, i2) == source
  {
    var r := Swap(Swap(source, i1, i2), i1, i2);
    assert forall k :: 0 <= k < |source| ==> r[k] == source[k];
  }

  /** The index of the nearest vertex within `maxDistance`, or none.  Only the
      precomputed `distances` are consulted; `position` is not used.  Ties go
      to the later index because only a strictly larger distance is skipped.
      The scan starts from the `float.MaxValue` sentinel, so the distances are
      required to be finite floats. */
  method GetNearestVertex(vertices: seq<Vector3>, position: Vector3, distances: seq<real>, maxDistance: real)
    returns (nearest: Option<nat>)
    requires |distances| >= |vertices|
    requires forall k :: 0 <= k < |vertices| ==> distances[k] <= FloatMax
    ensures nearest.None? <==> forall k :: 0 <= k < |vertices| ==> distances[k] > maxDistance
    ensures nearest.Some? ==> nearest.value < |vertices| && distances[nearest.value] <= maxDistance
    ensures nearest.Some? ==> forall k :: 0 <= k < |vertices| && distances[k] <= maxDistance ==>
      distances[nearest.value] <= distances[k]
    ensures nearest.Some? ==> forall k :: nearest.value < k < |vertices| && distances[k] <= maxDistance ==>
      distances[nearest.value] < distances[k]
  {
    nearest := None;
    var nearestDistance := FloatMax;
    for currentIndex := 0 to |vertices|
      invariant nearest.None? ==> nearestDistance == FloatMax
      invariant nearest.None? ==> forall k :: 0 <= k < currentIndex ==> distances[k] > maxDistance
      invariant nearest.Some? ==> nearest.value < currentIndex && nearestDistance == distances[nearest.value]
      invariant nearest.Some? ==> distances[nearest.value] <= maxDistance
      invariant forall k :: 0 <= k < currentIndex && distances[k] <= maxDistance ==> nearestDistance <= distances[k]
      invariant nearest.Some? ==> forall k :: nearest.value < k < currentIndex && distances[k] <= maxDistance ==>
        nearestDistance < distances[k]
    {
      var currentDistance := distances[currentIndex];
      if currentDistance > maxDistance {
        continue;
      }
      if currentDistance > nearestDistance {
        continue;
      }
      nearestDistance := currentDistance;
      nearest := Some(currentIndex);
    }
  }

  /** Despite its name this is LINQ's `Where`: it KEEPS exactly the elements
      satisfying `test`, in their original order. */
  function RemoveAll<T>(source: seq<T>, test: T -> bool): (r: seq<T>)
    ensures |r| <= |source|
    ensures forall k :: 0 <= k < |r| ==> test(r[k])
    ensures multiset(r) <= multiset(source)
    ensures forall e | e in source :: multiset(r)[e] == if test(e) then multiset(source)[e] else 0
  {
    if |source| == 0 then []
    else
      assert source == [source[0]] + source[1..];
      (if test(source[0]) then [source[0]] else []) + RemoveAll(source[1..], test)
  }

  /** Keeping distributes over concatenation, so the kept elements stay in
      their original relative order. */
  lemma {:induction false} RemoveAllAppend<T>(a: seq<T>, b: seq<T>, test: T -> bool)
    ensures RemoveAll(a + b, test) == RemoveAll(a, test) + RemoveAll(b, test)
  {
    if |a| == 0 {
      assert a + b == b;
    } else {
      assert (a + b)[1..] == a[1..] + b;
      RemoveAllAppend(a[1..], b, test);
    }
  }

  /** Nothing is kept when no element passes the test. */
  lemma {:induction false} RemoveAllNoneKept<T>(source: seq<T>, test: T -> bool)
    requires forall k :: 0 <= k < |source| ==> !test(source[k])
    ensures RemoveAll(source, test) == []
  {
    if |source| > 0 {
      RemoveAllNoneKept(source[1..], test);
    }
  }

  /** Everything is kept when every element passes the test. */
  lemma {:induction false} RemoveAllAllKept<T>(source: seq<T>, test: T -> bool)
    requires forall k :: 0 <= k < |source| ==> test(source[k])
    ensures RemoveAll(source, test) == source
  {
    if |source| > 0 {
      RemoveAllAllKept(source[1..], test);
      assert [source[0]] + source[1..] == source;
    }
  }

  /** Keeping twice with the same test keeps the same elements. */
  lemma RemoveAllIdempotent<T>(source: seq<T>, test: T -> bool)
    ensures RemoveAll(RemoveAll(source, test), test) == RemoveAll(source, test)
  {
    RemoveAllAllKept(RemoveAll(source, test), test);
  }

  /** What the name promises: drops exactly the elements satisfying `test`
      and keeps the rest in order. */
  function RemoveWhere<T>(source: seq<T>, test: T -> bool): (r: seq<T>)
    ensures |r| <= |source|
    ensures forall k :: 0 <= k < |r| ==> !test(r[k])
    ensures multiset(r) <= multiset(source)
    ensures forall e | e in source :: multiset(r)[e] == if test(e) then 0 else multiset(source)[e]
  {
    RemoveAll(source, e => !test(e))
  }

  /** Dropping twice with the same test drops the same elements. */
  lemma RemoveWhereIdempotent<T>(source: seq<T>, test: T -> bool)
    ensures RemoveWhere(RemoveWhere(source, test), test) == RemoveWhere(source, test)
  {
    RemoveAllIdempotent(source, e => !test(e));
  }

  /** Dropping distributes over concatenation, so the survivors stay in
      their original relative order. */
  lemma RemoveWhereAppend<T>(a: seq<T>, b: seq<T>, test: T -> bool)
    ensures RemoveWhere(a + b, test) == RemoveWhere(a, test) + RemoveWhere(b, test)
  {
    RemoveAllAppend(a, b, e => !test(e));
  }

  /** The terrain dimensions the conversions read: the world-space size and
      origin and the resolutions of the height, alpha and detail maps. */
  datatype TerrainGeometry = TerrainGeometry(
    size: Vector3,
    position: Vector3,
    heightmapWidth: int,
    heightmapHeight: int,
    alphamapWidth: int,
    alphamapHeight: int,
    detailWidth: int,
    detailHeight: int)
  {
    /** Every resolution is positive and the terrain has positive extent, so
        no conversion divides by zero. */
    predicate Valid() {
      && heightmapWidth > 0 && heightmapHeight > 0
      && alphamapWidth > 0 && alphamapHeight > 0
      && detailWidth > 0 && detailHeight > 0
      && size.x > 0.0 && size.z > 0.0
    }
  }

  /** The heightmap grid spans the terrain: cell `(0, 0)` sits at the
      terrain's corner and cell `(heightmapWidth, heightmapHeight)` at the
      opposite corner, on the ground plane. */
  function HeightmapToWorldPosition(g: TerrainGeometry, x: int, y: int): (r: Vector3)
    requires g.Valid()
    ensures r.y == 0.0
    ensures x == 0 && y == 0 ==> r.x == g.position.x && r.z == g.position.z
    ensures x == g.heightmapWidth && y == g.heightmapHeight ==>
      r.x == g.position.x + g.size.x && r.z == g.position.z + g.size.z
  {
    ScaleBack(g.size.x, g.heightmapWidth as real);
    ScaleBack(g.size.z, g.heightmapHeight as real);
    Vector3(
      g.size.x / g.heightmapWidth as real * x as real + g.position.x,
      0.0,
      g.size.z / g.heightmapHeight as real * y as real + g.position.z)
  }

  /** Note the axis swap: index `y` runs along world X and index `x` along
      world Z, so the far corner is the cell `(alphamapHeight, alphamapWidth)`. */
  function AlphamapToWorldPosition(g: TerrainGeometry, x: int, y: int): (r: Vector3)
    requires g.Valid()
    ensures r.y == 0.0
    ensures x == 0 && y == 0 ==> r.x == g.position.x && r.z == g.position.z
    ensures x == g.alphamapHeight && y == g.alphamapWidth ==>
      r.x == g.position.x + g.size.x && r.z == g.position.z + g.size.z
  {
    ScaleBack(g.size.x, g.alphamapWidth as real);
    ScaleBack(g.size.z, g.alphamapHeight as real);
    Vector3(
      g.size.x / g.alphamapWidth as real * y as real + g.position.x,
      0.0,
      g.size.z / g.alphamapHeight as real * x as real + g.position.z)
  }

  /** The alphamap `[0, alphamapWidth] x [0, alphamapHeight]` maps onto the unit square. */
  function AlphamapToNormalizedPosition(g: TerrainGeometry, x: real, y: real): (r: Vector2)
    requires g.Valid()
    ensures x == 0.0 && y == 0.0 ==> r == Vector2(0.0, 0.0)
    ensures x == g.alphamapWidth as real && y == g.alphamapHeight as real ==> r == Vector2(1.0, 1.0)
    ensures 0.0 <= x <= g.alphamapWidth as real && 0.0 <= y <= g.alphamapHeight as real ==>
      0.0 <= r.x <= 1.0 && 0.0 <= r.y <= 1.0
  {
    UnitFraction(x, g.alphamapWidth as real);
    UnitFraction(y, g.alphamapHeight as real);
    Vector2(x / g.alphamapWidth as real, y / g.alphamapHeight as real)
  }

  /** The alphamap's far corner lands on the heightmap's far corner. */
  function AlphamapToHeightmapPosition(g: TerrainGeometry, x: real, y: real): (r: Vector2)
    requires g.Valid()
    ensures x == 0.0 && y == 0.0 ==> r == Vector2(0.0, 0.0)
    ensures x == g.alphamapWidth as real && y == g.alphamapHeight as real ==>
      r == Vector2(g.heightmapWidth as real, g.heightmapHeight as real)
  {
    var normalized := AlphamapToNormalizedPosition(g, x, y);
    Vector2(normalized.x * g.heightmapWidth as real, normalized.y * g.heightmapHeight as real)
  }

  /** The terrain's corner maps to alphamap `(0, 0)` and the opposite corner
      to `(alphamapWidth, alphamapHeight)`; the height is ignored. */
  function WorldToAlphamapPosition(g: TerrainGeometry, world: Vector3): (r: Vector2)
    requires g.Valid()
    ensures world.x == g.position.x && world.z == g.position.z ==> r == Vector2(0.0, 0.0)
    ensures world.x == g.position.x + g.size.x && world.z == g.position.z + g.size.z ==>
      r == Vector2(g.alphamapWidth as real, g.alphamapHeight as real)
  {
    ScaleBack(g.alphamapWidth as real, g.size.x);
    ScaleBack(g.alphamapHeight as real, g.size.z);
    Vector2(
      g.alphamapWidth as real / g.size.x * (world.x - g.position.x),
      g.alphamapHeight as real / g.size.z * (world.z - g.position.z))
  }

  /** The terrain's footprint maps onto the unit square; the height is ignored. */
  function WorldToNormalizedPosition(g: TerrainGeometry, world: Vector3): (r: Vector2)
    requires g.Valid()
    ensures world.x == g.position.x && world.z == g.position.z ==> r == Vector2(0.0, 0.0)
    ensures world.x == g.position.x + g.size.x && world.z == g.position.z + g.size.z ==> r == Vector2(1.0, 1.0)
    ensures g.position.x <= world.x <= g.position.x + g.size.x && g.position.z <= world.z <= g.position.z + g.size.z ==>
      0.0 <= r.x <= 1.0 && 0.0 <= r.y <= 1.0
  {
    UnitFraction(world.x - g.position.x, g.size.x);
    UnitFraction(world.z - g.position.z, g.size.z);
    Vector2((world.x - g.position.x) / g.size.x, (world.z - g.position.z) / g.size.z)
  }

  /** Note the axis swap: index `y` becomes the first normalized coordinate,
      so the far corner is `(detailHeight, detailWidth)`. */
  function DetailsToNormalizedPosition(g: TerrainGeometry, x: real, y: real): (r: Vector2)
    requires g.Valid()
    ensures x == 0.0 && y == 0.0 ==> r == Vector2(0.0, 0.0)
    ensures x == g.detailHeight as real && y == g.detailWidth as real ==> r == Vector2(1.0, 1.0)
  {
    UnitFraction(y, g.detailWidth as real);
    UnitFraction(x, g.detailHeight as real);
    Vector2(y / g.detailWidth as real, x / g.detailHeight as real)
  }

  /** The detail grid spans the terrain, with the same axis swap. */
  function DetailsToWorldPosition(g: TerrainGeometry, x: real, y: real): (r: Vector3)
    requires g.Valid()
    ensures r.y == 0.0
    ensures x == 0.0 && y == 0.0 ==> r.x == g.position.x && r.z == g.position.z
    ensures x == g.detailHeight as real && y == g.detailWidth as real ==>
      r.x == g.position.x + g.size.x && r.z == g.position.z + g.size.z
  {
    var normalized := DetailsToNormalizedPosition(g, x, y);
    Vector3(
      g.size.x * normalized.x + g.position.x,
      0.0,
      g.size.z * normalized.y + g.position.z)
  }

  /** Going from an alphamap cell to the world and back lands on the same
      cell with its two indices exchanged. */
  lemma AlphamapWorldRoundTrip(g: TerrainGeometry, x: int, y: int)
    requires g.Valid()
    ensures WorldToAlphamapPosition(g, AlphamapToWorldPosition(g, x, y)) == Vector2(y as real, x as real)
  {
    var aw, ah := g.alphamapWidth as real, g.alphamapHeight as real;
    var xr, yr := x as real, y as real;
    ScaleCancels(aw, g.size.x, yr);
    ScaleCancels(ah, g.size.z, xr);
    var w := Vector3(g.size.x / aw * yr + g.position.x, 0.0, g.size.z / ah * xr + g.position.z);
    assert AlphamapToWorldPosition(g, x, y) == w;
    assert w.x - g.position.x == g.size.x / aw * yr;
    assert w.z - g.position.z == g.size.z / ah * xr;
    assert WorldToAlphamapPosition(g, w) == Vector2(aw / g.size.x * (g.size.x / aw * yr), ah / g.size.z * (g.size.z / ah * xr));
  }

  /** Dividing a positive length into `n` steps and taking `n` of them
      gives the length back. */
  lemma ScaleBack(length: real, n: real)
    requires length > 0.0 && n > 0.0
    ensures length / n * n == length
  {
  }

  /** A value between zero and a positive bound, divided by that bound,
      lies in the unit interval. */
  lemma UnitFraction(v: real, bound: real)
    requires bound > 0.0
    ensures 0.0 <= v <= bound ==> 0.0 <= v / bound <= 1.0
    ensures v == 0.0 ==> v / bound == 0.0
    ensures v == bound ==> v / bound == 1.0
  {
    if 0.0 <= v <= bound {
      assert v / bound * bound == v;
    }
  }

  /** Scaling by `a / s` undoes scaling by `s / a`. */
  lemma ScaleCancels(a: real, s: real, v: real)
    requires a > 0.0 && s > 0.0
    ensures a / s * (s / a * v) == v
  {
    assert (a / s) * (s / a) == 1.0;
    assert a / s * (s / a * v) == ((a / s) * (s / a)) * v;
  }

  /** The world position of an alphamap cell normalizes to the cell's
      normalized position with the indices exchanged. */
  lemma AlphamapWorldNormalized(g: TerrainGeometry, x: int, y: int)
    requires g.Valid()
    ensures WorldToNormalizedPosition(g, AlphamapToWorldPosition(g, x, y))
         == AlphamapToNormalizedPosition(g, y as real, x as real)
  {
    var aw, ah := g.alphamapWidth as real, g.alphamapHeight as real;
    assert (g.size.x / aw * y as real) / g.size.x == y as real / aw;
    assert (g.size.z / ah * x as real) / g.size.z == x as real / ah;
  }

  /** Unlike the alphamap, a heightmap sample's world position normalizes
      to its indices over the heightmap resolution, axes in order. */
  lemma HeightmapWorldNormalized(g: TerrainGeometry, x: int, y: int)
    requires g.Valid()
    ensures WorldToNormalizedPosition(g, HeightmapToWorldPosition(g, x, y))
         == Vector2(x as real / g.heightmapWidth as real, y as real / g.heightmapHeight as real)
  {
    var hw, hh := g.heightmapWidth as real, g.heightmapHeight as real;
    assert (g.size.x / hw * x as real) / g.size.x == x as real / hw;
    assert (g.size.z / hh * y as real) / g.size.z == y as real / hh;
  }

  /** A detail cell's world position normalizes back to exactly the detail
      cell's normalized position: the two detail conversions agree. */
  lemma DetailsWorldNormalized(g: TerrainGeometry, x: real, y: real)
    requires g.Valid()
    ensures WorldToNormalizedPosition(g, DetailsToWorldPosition(g, x, y)) == DetailsToNormalizedPosition(g, x, y)
  {
    var n := DetailsToNormalizedPosition(g, x, y);
    assert (g.size.x * n.x) / g.size.x == n.x;
    assert (g.size.z * n.y) / g.size.z == n.y;
  }

  /** Through normalized coordinates an alphamap position maps to the
      heightmap position with the same proportions. */
  lemma AlphamapHeightmapProportional(g: TerrainGeometry, x: real, y: real)
    requires g.Valid()
    ensures AlphamapToHeightmapPosition(g, x, y).x / g.heightmapWidth as real == x / g.alphamapWidth as real
    ensures AlphamapToHeightmapPosition(g, x, y).y / g.heightmapHeight as real == y / g.alphamapHeight as real
  {
  }
}
