# Terrain painter: a Dafny model

This project models the editor-side logic of a Unity terrain-painting plugin.
It proves properties of that model. The model covers four parts:

- **Array and list helpers.**
  - `ArrayEx.Remove` and `ArrayEx.Insert` are copy-on-write splices.
  - `Common.IndexOf`, `Swap`, `GetNearestVertex` and `RemoveAll` search and permute lists.
  - The `Common` conversions map between heightmap, alphamap, detail, normalized and world coordinates.
- **`RangeF`.** A half-open interval `[minimum, maximum)`. The painters inline the same test for their height and slope ranges.
- **`AreaPolygon` and its editor.**
  - A closed polygon, whose first point repeats as its last.
  - The even-odd point-in-polygon test behind a bounding-box pre-check.
  - The bounding-box and centre recomputation.
  - The signed shoelace area.
  - The four point-array edits of the scene editor: move all, move one point, insert a midpoint, remove a point.
- **The three painters and their rule lists.**
  - The splat painter (`AutoApplyTexture`) runs four passes:
    - first-match marking;
    - the in-place "contagion" sweep from the +X and +Z neighbours;
    - normalisation to equal shares;
    - one random "dirt" factor per cell.
  - The detail painter (`Apply`) evaluates rules in order behind a chance roll and allocates one layer per rule reached.
  - The tree painter (`Apply`, `ApplyAll`) filters the tree instances and logs polygon areas.
  - The Up, Down, Remove, Add Rule, Clone and area-slot edits of the three inspectors.

Coordinates and weights are `real`.

The terrain is a record (`Terrains.Terrain`) holding three things:
- its geometry (sizes and resolutions);
- a height sampler standing in for the engine's `SampleHeight`;
- a steepness sampler standing in for `TerrainData.GetSteepness`.

Random draws are parameters:
- `dirt(x, z)` for the splat painter's `Random.Range(0.9f, 1.0f)`;
- `roll(x, y, k)` and `count(x, y, k)` for the detail painter's per-rule `Random.Range(0f, 1f)` and `Random.Range(1, 8)`.

The painters return the grids that the source hands to `SetAlphamaps` and `SetDetailLayer`.

Modules follow the source files:
- `ArrayEx`, `Ranges` (RangeF.cs), `Common`, `Polygons` (AreaPolygon.cs) and `PolygonEditor` (AreaPolygonEditor.cs);
- `Rules` (the three rule records, `TerrainTreesPainterRule.Clone` and the list edits);
- `SplatPainting` (TerrainPainterEditor.cs), `DetailPainting` (TerrainDetailsPainterEditor.cs) and `TreePainting` (TerrainTreesPainterEditor.cs).

`Wrappers`, `Vectors` and `Sums` are supporting definitions. `Terrains` holds the terrain the painters sample and `GetSteepnessFromWorldPosition` from Common.cs.

Where the source throws on a rule index out of range for the terrain's prototypes, the model states a precondition instead. The tree painter's throw on a null polygon in a rule's area list is modelled as an outcome: the run reports that it failed, with the instance list already replaced.

## Model

All source paths are under `Unity/Assets/TerrainPainter/Scripts/`.

| member | source | states |
|---|---|---|
| ArrayEx.Remove | Unity/Assets/TerrainPainter/Scripts/ArrayEx.cs:5-11 | the result is one shorter; entries before `index` stay in place and entries after it move one slot left |
| ArrayEx.Insert | Unity/Assets/TerrainPainter/Scripts/ArrayEx.cs:13-20 | the result is one longer and holds `element` at `index`; earlier entries stay, later ones move one slot right |
| ArrayEx.RemoveInsert | Unity/Assets/TerrainPainter/Scripts/ArrayEx.cs:5-20 | removing at the index just inserted at gives back the original array |
| ArrayEx.InsertRemove | Unity/Assets/TerrainPainter/Scripts/ArrayEx.cs:5-20 | re-inserting the removed element at its index gives back the original array |
| ArrayEx.RemoveMultiset | Unity/Assets/TerrainPainter/Scripts/ArrayEx.cs:5-11 | removal loses exactly one occurrence of the removed element and nothing else |
| Ranges.RangeF.Contains | Unity/Assets/TerrainPainter/Scripts/RangeF.cs:40-43 | membership in the half-open interval `[minimum, maximum)`; the lemmas below state its edge cases |
| Ranges.RangeF.Equals | Unity/Assets/TerrainPainter/Scripts/RangeF.cs:20-28 | value equality against an arbitrary object; `EqualsIsFieldEquality` and `EqualsReflexiveSymmetric` state its meaning |
| Ranges.InlineTestIsComplement | Unity/Assets/TerrainPainter/Scripts/Editor/TerrainPainterEditor.cs:129 | the painters' inline rejection `v < min \|\| v >= max` rejects exactly the values `RangeF.Contains` does not admit |
| Ranges.MaximumExcluded | Unity/Assets/TerrainPainter/Scripts/RangeF.cs:40-43 | the upper bound is never contained |
| Ranges.MinimumIncludedIffNonEmpty | Unity/Assets/TerrainPainter/Scripts/RangeF.cs:40-43 | the lower bound is contained exactly when the range is non-empty |
| Ranges.InvertedIsEmpty | Unity/Assets/TerrainPainter/Scripts/RangeF.cs:40-43 | an inverted or degenerate range contains no value; bounds are not swapped |
| Ranges.EqualsIsFieldEquality | Unity/Assets/TerrainPainter/Scripts/RangeF.cs:20-28 | `Equals` holds exactly for a boxed `RangeF` with both bounds equal, and never for another object |
| Ranges.EqualsReflexiveSymmetric | Unity/Assets/TerrainPainter/Scripts/RangeF.cs:20-28 | `Equals` is reflexive and symmetric |
| Common.IndexOf | Unity/Assets/TerrainPainter/Scripts/Common.cs:71-83 | returns the first index whose element satisfies the predicate, or -1 exactly when none does |
| Common.CalculateSlopeRad | Unity/Assets/TerrainPainter/Scripts/Common.cs:85-89 | the absolute dot product of the up vector with the normal: non-negative and equal to the normal's height component up to sign, so the cosine of the slope angle rather than an angle |
| Common.CalculateSlopeDeg | Unity/Assets/TerrainPainter/Scripts/Common.cs:91-94 | the same value in degrees: non-negative, and zero exactly on a vertical face |
| Common.SlopeReadsOnlyHeight | Unity/Assets/TerrainPainter/Scripts/Common.cs:85-94 | both helpers read only the normal's height component, and the degree value orders like the other |
| Common.FlatGroundSlope | Unity/Assets/TerrainPainter/Scripts/Common.cs:85-94 | an upward normal, flat ground, reads 1 and `Rad2Deg` rather than 0 |
| Common.Swap | Unity/Assets/TerrainPainter/Scripts/Common.cs:129-141 | the two entries trade places and every other entry is unchanged |
| Common.SwapPermutes | Unity/Assets/TerrainPainter/Scripts/Common.cs:129-141 | a swap is a permutation |
| Common.SwapTwice | Unity/Assets/TerrainPainter/Scripts/Common.cs:129-141 | swapping the same pair twice restores the list |
| Common.GetNearestVertex | Unity/Assets/TerrainPainter/Scripts/Common.cs:280-303 | null exactly when every distance exceeds `maxDistance`; otherwise an index within range whose distance is minimal among those within range, with ties going to the last such index |
| Common.RemoveAll | Unity/Assets/TerrainPainter/Scripts/Common.cs:305-308 | despite the name, the result keeps exactly the elements satisfying the predicate, each with its original multiplicity |
| Common.RemoveAllAppend | Unity/Assets/TerrainPainter/Scripts/Common.cs:305-308 | filtering distributes over concatenation, so kept elements keep their relative order |
| Common.RemoveAllNoneKept | Unity/Assets/TerrainPainter/Scripts/Common.cs:305-308 | when no element satisfies the predicate the result is empty |
| Common.RemoveAllAllKept | Unity/Assets/TerrainPainter/Scripts/Common.cs:305-308 | when every element satisfies the predicate the list is returned unchanged |
| Common.RemoveAllIdempotent | Unity/Assets/TerrainPainter/Scripts/Common.cs:305-308 | filtering twice with the same predicate equals filtering once |
| Common.RemoveWhere | Unity/Assets/TerrainPainter/Scripts/Editor/TerrainTreesPainterEditor.cs:179 | the removal the tree painter means: no survivor satisfies the predicate and every other element keeps its multiplicity |
| Common.RemoveWhereIdempotent | Unity/Assets/TerrainPainter/Scripts/Editor/TerrainTreesPainterEditor.cs:179 | removing twice with the same predicate equals removing once |
| Common.RemoveWhereAppend | Unity/Assets/TerrainPainter/Scripts/Editor/TerrainTreesPainterEditor.cs:179 | removal distributes over concatenation, so survivors keep their relative order |
| Common.HeightmapToWorldPosition | Unity/Assets/TerrainPainter/Scripts/Common.cs:96-105 | the heightmap grid spans the terrain: cell `(0, 0)` is the terrain corner, cell `(heightmapWidth, heightmapHeight)` the opposite corner, on the ground plane |
| Common.AlphamapToWorldPosition | Unity/Assets/TerrainPainter/Scripts/Common.cs:107-116 | the alphamap grid spans the terrain with its axes swapped: cell `(0, 0)` is the corner and cell `(alphamapHeight, alphamapWidth)` the opposite corner |
| Common.AlphamapToHeightmapPosition | Unity/Assets/TerrainPainter/Scripts/Common.cs:118-127 | alphamap `(0, 0)` and its far corner land on heightmap `(0, 0)` and its far corner |
| Common.WorldToAlphamapPosition | Unity/Assets/TerrainPainter/Scripts/Common.cs:143-151 | the terrain corner maps to alphamap `(0, 0)` and the opposite corner to `(alphamapWidth, alphamapHeight)`, whatever the height |
| Common.AlphamapToNormalizedPosition | Unity/Assets/TerrainPainter/Scripts/Common.cs:172-180 | the alphamap rectangle maps onto the unit square, corners to corners |
| Common.WorldToNormalizedPosition | Unity/Assets/TerrainPainter/Scripts/Common.cs:182-188 | the terrain footprint maps onto the unit square, corners to corners, whatever the height |
| Common.DetailsToWorldPosition | Unity/Assets/TerrainPainter/Scripts/Common.cs:190-198 | the detail grid spans the terrain with its axes swapped: `(0, 0)` is the corner and `(detailHeight, detailWidth)` the opposite corner |
| Common.DetailsToNormalizedPosition | Unity/Assets/TerrainPainter/Scripts/Common.cs:200-208 | with the axes swapped, `(0, 0)` maps to `(0, 0)` and `(detailHeight, detailWidth)` to `(1, 1)` |
| Common.AlphamapWorldRoundTrip | Unity/Assets/TerrainPainter/Scripts/Common.cs:107-116 | converting alphamap cell `(x, y)` to the world and back with `WorldToAlphamapPosition` yields `(y, x)`: the conversion swaps axes |
| Common.AlphamapWorldNormalized | Unity/Assets/TerrainPainter/Scripts/Common.cs:172-188 | the world position of alphamap cell `(x, y)` normalizes to `AlphamapToNormalizedPosition(y, x)`, again with axes swapped |
| Common.HeightmapWorldNormalized | Unity/Assets/TerrainPainter/Scripts/Common.cs:96-105 | the world position of heightmap sample `(x, y)` normalizes to `(x / width, y / height)`, with axes in order |
| Common.DetailsWorldNormalized | Unity/Assets/TerrainPainter/Scripts/Common.cs:190-208 | a detail cell's world position normalizes to exactly its `DetailsToNormalizedPosition`, whose components are `(y / detailWidth, x / detailHeight)` |
| Common.AlphamapHeightmapProportional | Unity/Assets/TerrainPainter/Scripts/Common.cs:118-127 | an alphamap position maps to the heightmap position at the same fraction of each axis |
| Polygons.Default | Unity/Assets/TerrainPainter/Scripts/AreaPolygon.cs:12-18 | a new polygon sits at the origin and its default triangle (base 20, height 20) has shoelace area 200 |
| Polygons.DefaultIsClosedTriangle | Unity/Assets/TerrainPainter/Scripts/AreaPolygon.cs:12-18 | the default point array has four entries, first equal to last, with three distinct corners |
| Polygons.Contains | Unity/Assets/TerrainPainter/Scripts/AreaPolygon.cs:54-87 | false outside the bounding box; otherwise true exactly when an odd number of cyclic edges `(i, i-1)` cross the ray to the right of the point |
| Polygons.Inside | Unity/Assets/TerrainPainter/Scripts/AreaPolygon.cs:54-87 | the reference definition of containment: inside the cached box and an odd number of edge crossings; `Contains` is proved equal to it |
| Polygons.CrossingDenominatorNonZero | Unity/Assets/TerrainPainter/Scripts/AreaPolygon.cs:80 | the crossing test divides by `z[j] - z[i]` only when that difference is non-zero |
| Polygons.CrossingCountIgnoresHeight | Unity/Assets/TerrainPainter/Scripts/AreaPolygon.cs:78-84 | the crossing count does not depend on the test point's y |
| Polygons.InsideIgnoresHeight | Unity/Assets/TerrainPainter/Scripts/AreaPolygon.cs:54-87 | containment reads only x and z |
| Polygons.ClosingEdgeNeverCrosses | Unity/Assets/TerrainPainter/Scripts/AreaPolygon.cs:78-84 | in a closed polygon the degenerate edge from the first to the repeated last point never counts |
| Polygons.EdgeCrossingSymmetric | Unity/Assets/TerrainPainter/Scripts/AreaPolygon.cs:80 | whether an edge crosses does not depend on the order of its endpoints |
| Polygons.FewerThanThreePointsContainNothing | Unity/Assets/TerrainPainter/Scripts/AreaPolygon.cs:54-87 | a polygon with fewer than three points contains no point |
| Polygons.Scan | Unity/Assets/TerrainPainter/Scripts/AreaPolygon.cs:97-115 | the scan only widens the running bounds; every point lies within the result, and each result bound is either the start value or some point's coordinate |
| Polygons.RecalculateBoundaries | Unity/Assets/TerrainPainter/Scripts/AreaPolygon.cs:92-125 | points are unchanged; the position is the centre of the box; for non-empty finite points the box is tight (contains every point, each bound attained); with no points the float sentinels remain |
| Polygons.EmptyPolygonContainsNothing | Unity/Assets/TerrainPainter/Scripts/AreaPolygon.cs:92-125 | after recalculation an empty polygon's inverted sentinel box rejects every finite point |
| Polygons.InsideImpliesWithinPoints | Unity/Assets/TerrainPainter/Scripts/AreaPolygon.cs:58-73 | with tight bounds, a contained point lies between the extreme points' x and z coordinates |
| Polygons.DefaultBoundaries | Unity/Assets/TerrainPainter/Scripts/AreaPolygon.cs:92-125 | the first recalculation of the default triangle (lines 12-18) gives the box `[-10, 10] x [-10, 10]` and puts the position at the origin |
| Polygons.CalculateAreaSize | Unity/Assets/TerrainPainter/Scripts/AreaPolygon.cs:127-137 | the loop computes the shoelace sum `0.5 * sum (x[j] + x[i]) * (z[j] - z[i])` over cyclic pairs |
| Polygons.AreaSize | Unity/Assets/TerrainPainter/Scripts/AreaPolygon.cs:127-137 | the reference signed area: half the sum of the shoelace terms over all cyclic edges; `CalculateAreaSize` is proved equal to it |
| Polygons.ClosingPointAddsNoArea | Unity/Assets/TerrainPainter/Scripts/AreaPolygon.cs:127-137 | the repeated closing vertex contributes nothing: the area equals that of the points without it |
| Polygons.ReverseNegatesArea | Unity/Assets/TerrainPainter/Scripts/AreaPolygon.cs:127-137 | reversing the point order negates the signed area |
| Polygons.TranslatePreservesArea | Unity/Assets/TerrainPainter/Scripts/AreaPolygon.cs:127-137 | translating every point by one vector leaves the area unchanged |
| Polygons.UnitSquareArea | Unity/Assets/TerrainPainter/Scripts/AreaPolygon.cs:127-137 | the counter-clockwise unit square in the x-z plane has signed area -1 |
| PolygonEditor.DefaultRecalculatedIsWellFormed | Unity/Assets/TerrainPainter/Scripts/AreaPolygon.cs:12-18 | the default polygon, once its bounds are computed, is closed, has at least four points and tight bounds |
| PolygonEditor.MoveAll | Unity/Assets/TerrainPainter/Scripts/Editor/AreaPolygonEditor.cs:70-81 | unchanged when the flattened handle is at the position; otherwise every point moves by the same delta, and closure and area are preserved; the bounds are recomputed |
| PolygonEditor.MoveAllCentresOnHandle | Unity/Assets/TerrainPainter/Scripts/Editor/AreaPolygonEditor.cs:70-81 | after a move the polygon's centre is the flattened handle and every point keeps its height |
| PolygonEditor.TightBoundsUnique | Unity/Assets/TerrainPainter/Scripts/AreaPolygon.cs:92-125 | tight bounds are determined by the points: any box that contains them and is attained equals the recomputed box |
| PolygonEditor.TranslatedBoxShifts | Unity/Assets/TerrainPainter/Scripts/AreaPolygon.cs:92-125 | when every point is shifted by one delta, the tight bounds of the result are the old bounds shifted by that delta |
| PolygonEditor.MovePoint | Unity/Assets/TerrainPainter/Scripts/Editor/AreaPolygonEditor.cs:107-119 | point `index` becomes the flattened handle and the last slot mirrors it when `index` is 0; all other points are unchanged; closure is preserved and the bounds are recomputed |
| PolygonEditor.AddPoint | Unity/Assets/TerrainPainter/Scripts/Editor/AreaPolygonEditor.cs:132-146 | the midpoint of edge `index` is inserted at `index + 1` and the rest shift; closure and area are preserved and the bounds are recomputed |
| PolygonEditor.MidpointInserted | Unity/Assets/TerrainPainter/Scripts/Editor/AreaPolygonEditor.cs:132-146 | the point list grows by one with the edge midpoint at `index + 1`, the prefix kept and the suffix shifted; closure, finiteness and the shoelace area are preserved |
| PolygonEditor.MidpointKeepsArea | Unity/Assets/TerrainPainter/Scripts/Editor/AreaPolygonEditor.cs:132-146 | inserting an edge's midpoint does not change the shoelace area |
| PolygonEditor.RemovePoint | Unity/Assets/TerrainPainter/Scripts/Editor/AreaPolygonEditor.cs:159-177 | no change below five points; otherwise point `index` is removed, leaving at least four, and removing point 0 re-closes the polygon with the new first point |
| PolygonEditor.VertexRemoved | Unity/Assets/TerrainPainter/Scripts/Editor/AreaPolygonEditor.cs:159-177 | the point list shrinks by one with the later points shifted left; removing point 0 copies the new first point into the last slot, so closure and finiteness are preserved |
| PolygonEditor.AddPointPreservesWellFormed | Unity/Assets/TerrainPainter/Scripts/Editor/AreaPolygonEditor.cs:132-146 | adding a point keeps a closed, tight polygon of at least four points |
| PolygonEditor.RemovePointPreservesWellFormed | Unity/Assets/TerrainPainter/Scripts/Editor/AreaPolygonEditor.cs:159-177 | removing a point keeps a closed, tight polygon of at least four points |
| PolygonEditor.MovePointPreservesWellFormed | Unity/Assets/TerrainPainter/Scripts/Editor/AreaPolygonEditor.cs:107-119 | moving one point to a finite handle keeps a closed, tight polygon of at least four points |
| PolygonEditor.MoveAllPreservesWellFormed | Unity/Assets/TerrainPainter/Scripts/Editor/AreaPolygonEditor.cs:70-81 | moving the whole polygon keeps a closed, tight polygon of at least four points |
| Rules.NewTreeRule | Unity/Assets/TerrainPainter/Scripts/TerrainTreesPainterRule.cs:18 | a new tree rule has exactly one empty area slot |
| Rules.Clone | Unity/Assets/TerrainPainter/Scripts/TerrainTreesPainterRule.cs:20-34 | every scalar field is copied; the area list has the same length and the same polygon in each slot |
| Rules.SetArea | Unity/Assets/TerrainPainter/Scripts/Editor/TerrainTreesPainterEditor.cs:95 | choosing a polygon for one slot changes that slot only |
| Rules.CloneSlotsIndependent | Unity/Assets/TerrainPainter/Scripts/TerrainTreesPainterRule.cs:32 | editing a slot of a clone leaves every other slot equal to the original's |
| Rules.AddArea | Unity/Assets/TerrainPainter/Scripts/Editor/TerrainTreesPainterEditor.cs:77-81 | "+" puts an empty slot in front and shifts the others back by one |
| Rules.RemoveArea | Unity/Assets/TerrainPainter/Scripts/Editor/TerrainTreesPainterEditor.cs:88-93 | "X" removes the slot unless it is the last one, so the list never becomes empty |
| Rules.MoveUp | Unity/Assets/TerrainPainter/Scripts/Editor/TerrainPainterEditor.cs:59-78 | "Up" swaps rule `index` with its predecessor, every other rule stays, and the list is a permutation of the old one (the same edit appears in the details and trees inspectors) |
| Rules.MoveDown | Unity/Assets/TerrainPainter/Scripts/Editor/TerrainPainterEditor.cs:59-78 | "Down" swaps rule `index` with its successor, every other rule stays, and the list is a permutation of the old one |
| Rules.MoveUpThenDown | Unity/Assets/TerrainPainter/Scripts/Editor/TerrainPainterEditor.cs:59-78 | moving a rule up and back down restores the list |
| Rules.RemoveRule | Unity/Assets/TerrainPainter/Scripts/Editor/TerrainPainterEditor.cs:59-78 | "Remove" deletes exactly rule `index`, and the others keep their order |
| Rules.NewSplatRule | Unity/Assets/TerrainPainter/Scripts/TerrainPainterRule.cs:3-15 | a new texture rule has both ranges disabled and splat index 0 |
| Rules.NewDetailRule | Unity/Assets/TerrainPainter/Scripts/TerrainDetailsPainterRule.cs:5-19 | a new detail rule has both ranges disabled, detail index 0 and chance 0 |
| Rules.AddSplatRule | Unity/Assets/TerrainPainter/Scripts/Editor/TerrainPainterEditor.cs:95-97 | "Add Rule" appends a default texture rule after the existing ones; removing it again restores the list |
| Rules.AddDetailRule | Unity/Assets/TerrainPainter/Scripts/Editor/TerrainDetailsPainterEditor.cs:105-108 | "Add Rule" appends a default detail rule after the existing ones; removing it again restores the list |
| Rules.AddTreeRule | Unity/Assets/TerrainPainter/Scripts/Editor/TerrainTreesPainterEditor.cs:34-36 | "Add Rule" appends a default tree rule, with one empty area slot, after the existing ones; removing it again restores the list |
| SplatPainting.AddedRuleCatchesTheRest | Unity/Assets/TerrainPainter/Scripts/Editor/TerrainPainterEditor.cs:117-147 | after "Add Rule" a cell no earlier rule matched gets splat 0, and every other cell keeps its match |
| DetailPainting.AddedRuleAlmostNeverWrites | Unity/Assets/TerrainPainter/Scripts/Editor/TerrainDetailsPainterEditor.cs:129-153 | the rule "Add Rule" appends never ends a cell's loop, and writes its layer only on a roll of exactly 0, since its chance is 0 |
| Rules.CloneRule | Unity/Assets/TerrainPainter/Scripts/Editor/TerrainTreesPainterEditor.cs:134-139 | "Clone" inserts the copy at the rule's index and the original moves to the next index |
| Rules.CloneThenRemove | Unity/Assets/TerrainPainter/Scripts/Editor/TerrainTreesPainterEditor.cs:134-145 | removing a fresh clone at its index restores the rule list |
| Terrains.SteepnessFromWorldPosition | Unity/Assets/TerrainPainter/Scripts/Common.cs:215-219 | the steepness read at the world point's normalized position, x then z: the terrain's near corner reads at `(0, 0)` and its far corner at `(1, 1)` |
| Terrains.SteepnessIgnoresHeight | Unity/Assets/TerrainPainter/Scripts/Common.cs:215-219 | the world point's height does not change the steepness read there |
| SplatPainting.HeightAt | Unity/Assets/TerrainPainter/Scripts/Editor/TerrainPainterEditor.cs:127-128 | the height pass 1 sees at a cell is the terrain height sampled at the cell's world position |
| SplatPainting.SlopeAt | Unity/Assets/TerrainPainter/Scripts/Editor/TerrainPainterEditor.cs:137-138 | the steepness pass 1 sees at a cell is read at the normalized position with its coordinates swapped |
| SplatPainting.SlopeAtIsWorldSteepness | Unity/Assets/TerrainPainter/Scripts/Editor/TerrainPainterEditor.cs:137-138 | on a square alphamap the slope pass 1 reads equals the steepness at the cell's world position |
| SplatPainting.MatchFrom | Unity/Assets/TerrainPainter/Scripts/Editor/TerrainPainterEditor.cs:117-147 | none exactly when no rule's enabled ranges all hold; otherwise the splat index of the first rule whose ranges hold |
| SplatPainting.UnrangedRuleMatches | Unity/Assets/TerrainPainter/Scripts/Editor/TerrainPainterEditor.cs:119-123 | a rule with no range enabled matches whatever the samples |
| SplatPainting.HeightRangeHalfOpen | Unity/Assets/TerrainPainter/Scripts/Editor/TerrainPainterEditor.cs:125-133 | a height equal to the maximum is rejected and, for a non-empty range, one equal to the minimum is accepted |
| SplatPainting.MarkCell | Unity/Assets/TerrainPainter/Scripts/Editor/TerrainPainterEditor.cs:113-149 | at most one layer is marked, and layer `s` is marked exactly when the first match is `s` |
| SplatPainting.FirstPass | Unity/Assets/TerrainPainter/Scripts/Editor/TerrainPainterEditor.cs:111-149 | the grid is alphamap width by height by layer count, and each cell holds its first-match marks |
| SplatPainting.Adopt | Unity/Assets/TerrainPainter/Scripts/Editor/TerrainPainterEditor.cs:157-177 | adoption from one neighbour never clears a mark, and any new mark is one the neighbour has |
| SplatPainting.SpreadFrom | Unity/Assets/TerrainPainter/Scripts/Editor/TerrainPainterEditor.cs:157-199 | the per-cell layer loop keeps every mark and adds only layers marked in a neighbour, and only when the cell had a mark |
| SplatPainting.SpreadIsBlended | Unity/Assets/TerrainPainter/Scripts/Editor/TerrainPainterEditor.cs:157-199 | the layer loop adds exactly the neighbours' marks to a marked cell: it equals the closed form `Blended` |
| SplatPainting.Contagion | Unity/Assets/TerrainPainter/Scripts/Editor/TerrainPainterEditor.cs:151-201 | the in-place z-outer, x-inner sweep leaves every cell `Blended` from its pass-1 marks and its pass-1 +X and +Z neighbours; the last column and row read none |
| SplatPainting.Normalize | Unity/Assets/TerrainPainter/Scripts/Editor/TerrainPainterEditor.cs:204-225 | marked layers get equal positive shares and unmarked layers zero; the shares sum to 1 on a marked cell and 0 otherwise |
| SplatPainting.AddDirt | Unity/Assets/TerrainPainter/Scripts/Editor/TerrainPainterEditor.cs:228-238 | the cell's total is scaled by the draw, and for a positive draw the zero layers are exactly the old zero layers; layers of equal weight stay equal |
| SplatPainting.AddDirtKeepsRatios | Unity/Assets/TerrainPainter/Scripts/Editor/TerrainPainterEditor.cs:228-238 | the single draw preserves the ratio between any two layers of a cell |
| SplatPainting.AutoApplyTexture | Unity/Assets/TerrainPainter/Scripts/Editor/TerrainPainterEditor.cs:109-242 | an unmatched cell is all zero; a matched cell sums to its dirt draw; a layer is weighted exactly when the cell matched and the layer is the first match of the cell or of its +X or +Z neighbour; all weighted layers of a cell hold the same share |
| DetailPainting.Evaluate | Unity/Assets/TerrainPainter/Scripts/Editor/TerrainDetailsPainterEditor.cs:129-192 | the rule loop only adds allocations and writes, and writes only layers it allocated |
| DetailPainting.EvaluateAllocates | Unity/Assets/TerrainPainter/Scripts/Editor/TerrainDetailsPainterEditor.cs:133-189 | a layer is allocated exactly when some rule the loop reaches targets it, whether or not that rule paints |
| DetailPainting.EvaluateWrites | Unity/Assets/TerrainPainter/Scripts/Editor/TerrainDetailsPainterEditor.cs:133-191 | a layer is written exactly when a reached rule for it passes its roll and ranges, and it holds the draw of the last such rule |
| DetailPainting.WrittenInRange | Unity/Assets/TerrainPainter/Scripts/Editor/TerrainDetailsPainterEditor.cs:151 | with draws from `Random.Range(1, 8)` every written density is in 1..7 |
| DetailPainting.CellValueInRange | Unity/Assets/TerrainPainter/Scripts/Editor/TerrainDetailsPainterEditor.cs:129-192 | a cell's value in a layer is in 0..7, and non-zero exactly when a reached rule for that layer paints |
| DetailPainting.UnrangedRuleDoesNotStop | Unity/Assets/TerrainPainter/Scripts/Editor/TerrainDetailsPainterEditor.cs:144-153 | a first rule with no range and a winning roll paints its layer, and the loop goes on to the next rule |
| DetailPainting.CellAt | Unity/Assets/TerrainPainter/Scripts/Editor/TerrainDetailsPainterEditor.cs:157-173 | a detail cell's samples: the height at its world position, the steepness at its normalized position, and that cell's draws |
| DetailPainting.CellSlopeIsWorldSteepness | Unity/Assets/TerrainPainter/Scripts/Editor/TerrainDetailsPainterEditor.cs:172-173 | the detail painter's slope sample is the steepness at the cell's world position for any detail resolution |
| DetailPainting.Record | Unity/Assets/TerrainPainter/Scripts/Editor/TerrainDetailsPainterEditor.cs:151 | recording a cell changes only that cell, and only in the layers the loop wrote |
| DetailPainting.PaintGrid | Unity/Assets/TerrainPainter/Scripts/Editor/TerrainDetailsPainterEditor.cs:125-203 | after the row-major sweep a layer is handed on exactly when some cell allocated it, and it holds every cell's last written density or zero |
| DetailPainting.Apply | Unity/Assets/TerrainPainter/Scripts/Editor/TerrainDetailsPainterEditor.cs:120-204 | per detail prototype: none when no cell's rule loop allocated the layer; otherwise a detail-width by detail-height grid holding each cell's written density or zero |
| TreePainting.LoggedAreas | Unity/Assets/TerrainPainter/Scripts/Editor/TerrainTreesPainterEditor.cs:181-189 | the areas logged for prototype `t`: every area slot of every rule for `t`, in rule order then slot order |
| TreePainting.LoggedAreasOnlyFromTarget | Unity/Assets/TerrainPainter/Scripts/Editor/TerrainTreesPainterEditor.cs:181-189 | only rules for the painted prototype contribute to the logged areas, in rule order |
| TreePainting.NoRuleLogsNothing | Unity/Assets/TerrainPainter/Scripts/Editor/TerrainTreesPainterEditor.cs:181-189 | without a rule for the prototype nothing is logged |
| TreePainting.SlotsRun | Unity/Assets/TerrainPainter/Scripts/Editor/TerrainTreesPainterEditor.cs:184-188 | the area loop over one rule's slots logs the areas of the slots before the first empty one, and stops exactly when it meets an empty slot |
| TreePainting.LogRun | Unity/Assets/TerrainPainter/Scripts/Editor/TerrainTreesPainterEditor.cs:181-189 | the area loop fails exactly when some rule for the prototype has an empty slot, and otherwise logs every slot's area in rule then slot order |
| TreePainting.ApplyAsWritten | Unity/Assets/TerrainPainter/Scripts/Editor/TerrainTreesPainterEditor.cs:177-190 | as written, only instances OF the painted prototype survive, with their multiplicity, nothing is added, and this holds even when an empty slot then makes the area loop fail; the run fails exactly when a rule for the prototype has an empty slot, and otherwise logs the rules' areas |
| TreePainting.ApplyAsWrittenCounterexample | Unity/Assets/TerrainPainter/Scripts/Editor/TerrainTreesPainterEditor.cs:179 | painting prototype 0 over one tree of prototype 0 and one of prototype 1 keeps only the prototype-0 tree |
| TreePainting.ApplyAllAsWrittenFrom | Unity/Assets/TerrainPainter/Scripts/Editor/TerrainTreesPainterEditor.cs:169-179 | as written, `Apply` for each prototype from `t` upward, stopping at the first failing one: only instances of prototype `t` survive, none is added, and it fails exactly when some prototype from `t` on has a rule with an empty slot |
| TreePainting.ApplyAllAsWritten | Unity/Assets/TerrainPainter/Scripts/Editor/TerrainTreesPainterEditor.cs:169-175 | as written, `Apply` for every prototype in turn; `ApplyAllAsWrittenClearsEverything` states its effect |
| TreePainting.ApplyAllAsWrittenClearsEverything | Unity/Assets/TerrainPainter/Scripts/Editor/TerrainTreesPainterEditor.cs:169-179 | as written, with at least two prototypes and no empty slot in prototype 0's rules, painting all prototypes leaves no tree at all |
| TreePainting.FreshRuleFailsAfterFiltering | Unity/Assets/TerrainPainter/Scripts/Editor/TerrainTreesPainterEditor.cs:36 | painting with a freshly added rule fails on its empty slot, after the trees of other prototypes are already gone |
| TreePainting.Apply | Unity/Assets/TerrainPainter/Scripts/Editor/TerrainTreesPainterEditor.cs:177-190 | corrected: no instance of the painted prototype survives and every other instance keeps its multiplicity; failure and log as in `ApplyAsWritten` |
| TreePainting.ApplyIdempotent | Unity/Assets/TerrainPainter/Scripts/Editor/TerrainTreesPainterEditor.cs:177-190 | painting the same prototype twice is the same as painting it once |
| TreePainting.ApplyKeepsOrder | Unity/Assets/TerrainPainter/Scripts/Editor/TerrainTreesPainterEditor.cs:177-190 | painting distributes over concatenation, so survivors keep their relative order |
| TreePainting.Cleared | Unity/Assets/TerrainPainter/Scripts/Editor/TerrainTreesPainterEditor.cs:169-175 | the prototypes painted from `t` on are those up to and including the first with an empty slot, or all of them |
| TreePainting.ApplyAllFrom | Unity/Assets/TerrainPainter/Scripts/Editor/TerrainTreesPainterEditor.cs:169-175 | painting prototypes `t` onward clears exactly the prototypes it reaches and keeps the multiplicity of the rest, failing exactly when one has a rule with an empty slot |
| TreePainting.ApplyAll | Unity/Assets/TerrainPainter/Scripts/Editor/TerrainTreesPainterEditor.cs:169-175 | corrected: no instance of a painted prototype survives and the others keep their multiplicity; without an empty slot every prototype is painted |

## Left out

- GUI and scene drawing are not modelled. This covers inspector layout, `Handles`, `Common.Separator/Horizontal/Vertical/Padding/DrawPolygon`, `HandlesEx.cs`, `AreaPolygon.Update` and the polygon menu item. They are user interface with no state of interest.
- Undo recording, `EditorUtility.SetDirty`, selection and `Debug.Log` are not modelled. The log output of the tree painter is kept as the `logged` list.
- The engine's terrain calls are not modelled:
  - `SampleHeight` and `GetSteepness` are abstract functions of the terrain record.
  - `SetAlphamaps` and `SetDetailLayer` are replaced by returning the grids.
  - `GetAlphamaps`, `GetMostUsedTextureNameAt` and `TerrainEx.SampleWorldHeight` are not used by the modelled operations.
- `UnityEngine.Random` is replaced by injected draws, with preconditions giving their ranges. `RandomVector3` is not modelled.
- Floating point is not modelled: reals replace 32-bit floats. Rounding, NaN and infinities are out of scope. The `float.MaxValue` and `float.MinValue` sentinels are the real constant `Vectors.FloatMax` and its negation.
- The splat painter's `== 1.0f` tests on the pre-normalisation weights are modelled as boolean marks. The source only ever writes 0 or 1 there before normalisation.
- Unity's approximate `Vector3 !=` in the polygon editor is modelled as exact equality.
- `GetDistanceToVerticies` needs a square root, so `GetNearestVertex` takes the distances as given. `CalculateSlopeRad/Deg` are modelled, but nothing in the repository calls them.
- `ToTexture2D`, the culture-aware `string.Contains` extension, `RangeF.ToString/GetHashCode`, `GetComponent2` and `ArrayEx.ForEach` are library wrappers with nothing to state.
- `TerrainPainter.cs`, `TerrainPainterRule.cs` and `TerrainDetailsPainterRule.cs` are plain field records. They become the datatypes in `Rules`, and a painter is its rule list.
- Tree rules hold their area polygons by value. In the source a slot holds a reference to a scene `AreaPolygon` (`SetArea` at `Editor/TerrainTreesPainterEditor.cs:95` stores the picked object), so an edit through one holder is seen by every rule and clone sharing it. No modelled operation edits a polygon through a rule, so nothing here depends on the sharing.
- The trees inspector's "Remove" calls `List.Remove(rule)`, which uses reference equality. Each rule object is distinct, so it is modelled as removal at the rule's index.
- A `SplatIndex` or `DetailIndex` outside the terrain's prototypes is a precondition, not behaviour: the source would throw an index exception there. A null polygon in a tree rule's area list is behaviour: the tree painter's `failed` flag records the exception `CalculateAreaSize` throws, after the instance list has already been replaced. A `TreeIndex` is only compared, never used as an index.
- The tree painter's `Density` and the rules' height and slope ranges are never read by the tree painter, which places no trees. So no placement is modelled.
- SplatPainting.Normalize: the contract states equal positive shares that sum to 1 rather than the literal value `1 / count`. This is weaker only in that the share is not named.
- SplatPainting.SlopeAtIsWorldSteepness: proved only for a square alphamap. The splat painter passes the normalized coordinates in swapped order, so on a non-square alphamap its slope sample would be read at a different point from the cell's world position. The engine's alphamaps are square (one `alphamapResolution`), so this is not listed as a finding.

## Findings

| source | as written | input that shows it | evidently intended | confidence | as-written member | corrected member |
|---|---|---|---|---|---|---|
| Unity/Assets/TerrainPainter/Scripts/Editor/TerrainTreesPainterEditor.cs:179 | `Apply(t)` calls `Common.RemoveAll(i => i.prototypeIndex == t)`, but `RemoveAll` is a keep-filter (`Where`). So the trees of prototype `t` are the only ones kept, and `ApplyAll` over two or more prototypes deletes every tree | trees `[prototype 0, prototype 1]`, painting prototype 0: the result is `[prototype 0]` | clear the trees of prototype `t` and keep all others in order | high (not executed) | TreePainting.ApplyAsWritten | TreePainting.Apply |
