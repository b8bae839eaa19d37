/** The terrain the painters read: its geometry and two sampling functions
    standing in for the engine's `SampleHeight` (at a world position) and
    `TerrainData.GetSteepness` (at normalized coordinates). */
module Terrains {
  import opened Vectors
  import opened Common

  datatype Terrain = Terrain(
    geometry: TerrainGeometry,
    sampleHeight: Vector3 -> real,
    steepness: (real, real) -> real)

  /** A rectangular three-level grid of `outer` by `middle` by `inner`
      entries.  Splat maps are `[x][z][layer]` (the engine's
      `float[width, height, layers]`); detail grids are `[layer][x][y]`, one
      `int[width, height]` per layer. */
  predicate Shaped<T>(g: seq<seq<seq<T>>>, outer: nat, middle: nat, inner: nat) {
    |g| == outer
    && (forall i :: 0 <= i < outer ==> |g[i]| == middle)
    && (forall i, j :: 0 <= i < outer && 0 <= j < middle ==> |g[i][j]| == inner)
  }

  /** `GetSteepnessFromWorldPosition`: the steepness at the normalized
      position of a world point, x then z: the terrain's near corner reads
      `(0, 0)` and its far corner `(1, 1)`. */
  function SteepnessFromWorldPosition(t: Terrain, world: Vector3): (r: real)
    requires t.geometry.Valid()
    ensures world.x == t.geometry.position.x && world.z == t.geometry.position.z ==> r == t.steepness(0.0, 0.0)
    ensures world.x == t.geometry.position.x + t.geometry.size.x && world.z == t.geometry.position.z + t.geometry.size.z
      ==> r == t.steepness(1.0, 1.0)
  {
    var normalized := WorldToNormalizedPosition(t.geometry, world);
    t.steepness(normalized.x, normalized.y)
  }

  /** The world point's height does not affect the steepness read there. */
  lemma SteepnessIgnoresHeight(t: Terrain, a: Vector3, b: Vector3)
    requires t.geometry.Valid()
    requires a.x == b.x && a.z == b.z
    ensures SteepnessFromWorldPosition(t, a) == SteepnessFromWorldPosition(t, b)
  {
  }
}
