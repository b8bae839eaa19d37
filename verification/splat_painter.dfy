/** `TerrainPainterEditor.AutoApplyTexture`: the splat-map painter.  Four
    passes over the alphamap grid: mark each cell with the layer of its first
    matching rule; let each marked cell adopt the marks of its +X and +Z
    neighbours; share each cell's weight equally among its marked layers;
    and scale each cell by a random "dirt" factor. */
module SplatPainting {
  import opened Wrappers
  import opened Vectors
  import opened Sums
  import opened Ranges
  import opened Common
  import opened Rules
  import opened Terrains

  // ---------------------------------------------------------------------
  // Pass 1: first matching rule
  // ---------------------------------------------------------------------

  /** The height the rule loop sees at alphamap cell `(x, z)`. */
  function HeightAt(t: Terrain, x: nat, z: nat): real
    requires t.geometry.Valid()
  {
    t.sampleHeight(AlphamapToWorldPosition(t.geometry, x, z))
  }

  /** The steepness the rule loop sees at alphamap cell `(x, z)`: the
      normalized coordinates are passed in swapped order. */
  function SlopeAt(t: Terrain, x: nat, z: nat): real
    requires t.geometry.Valid()
  {
    var normalized := AlphamapToNormalizedPosition(t.geometry, x as real, z as real);
    t.steepness(normalized.y, normalized.x)
  }

  /** On a square alphamap the splat painter's swapped steepness lookup is
      the steepness at the cell's world position. */
  lemma SlopeAtIsWorldSteepness(t: Terrain, x: nat, z: nat)
    requires t.geometry.Valid() && t.geometry.alphamapWidth == t.geometry.alphamapHeight
    ensures SlopeAt(t, x, z) == SteepnessFromWorldPosition(t, AlphamapToWorldPosition(t.geometry, x, z))
  {
    AlphamapWorldNormalized(t.geometry, x, z);
  }

  /** The rule loop from rule `k` on: a rule with no range enabled matches
      outright; otherwise each enabled range must contain its sample (the
      inline `< minimum || >= maximum` rejection); the first match's layer
      is marked and the loop stops. */
  function MatchFrom(rules: seq<SplatRule>, k: nat, height: real, slope: real): (r: Option<int>)
    requires k <= |rules|
    decreases |rules| - k
    ensures r.None? <==> forall j :: k <= j < |rules| ==> !rules[j].filter.Admits(height, slope)
    ensures r.Some? ==>
      exists j :: && k <= j < |rules| && rules[j].filter.Admits(height, slope)
                  && r.value == rules[j].splatIndex
                  && forall i :: k <= i < j ==> !rules[i].filter.Admits(height, slope)
  {
    if k == |rules| then None
    else
      var f := rules[k].filter;
      InlineTestIsComplement(height, f.minimumHeight, f.maximumHeight);
      InlineTestIsComplement(slope, f.minimumSlope, f.maximumSlope);
      assert f.Admits(height, slope) <==>
        !(f.useHeightRange && OutsideInline(height, f.minimumHeight, f.maximumHeight))
        && !(f.useSlopeRange && OutsideInline(slope, f.minimumSlope, f.maximumSlope));
      if !f.useHeightRange && !f.useSlopeRange then Some(rules[k].splatIndex)
      else if f.useHeightRange && OutsideInline(height, f.minimumHeight, f.maximumHeight) then
        MatchFrom(rules, k + 1, height, slope)
      else if f.useSlopeRange && OutsideInline(slope, f.minimumSlope, f.maximumSlope) then
        MatchFrom(rules, k + 1, height, slope)
      else Some(rules[k].splatIndex)
  }

  /** A freshly added rule goes last and has no range, so it takes
      exactly the samples no earlier rule admitted and paints them with
      layer 0; every other sample keeps its match. */
  lemma AddedRuleCatchesTheRest(rules: seq<SplatRule>, k: nat, height: real, slope: real)
    requires k <= |rules|
    ensures MatchFrom(AddSplatRule(rules), k, height, slope)
         == if MatchFrom(rules, k, height, slope).Some? then MatchFrom(rules, k, height, slope) else Some(0)
  {
    var added := AddSplatRule(rules);
    assert forall i :: 0 <= i < |rules| ==> added[i] == rules[i];
    assert added[|rules|].filter.Admits(height, slope);
    var m := MatchFrom(rules, k, height, slope);
    var n := MatchFrom(added, k, height, slope);
    var first :| && k <= first < |added| && added[first].filter.Admits(height, slope)
                 && n.value == added[first].splatIndex
                 && forall i :: k <= i < first ==> !added[i].filter.Admits(height, slope);
    if m.Some? {
      var j :| && k <= j < |rules| && rules[j].filter.Admits(height, slope)
               && m.value == rules[j].splatIndex
               && forall i :: k <= i < j ==> !rules[i].filter.Admits(height, slope);
      assert first == j;
    } else {
      assert first == |rules|;
    }
  }

  /** A rule with neither range enabled matches whatever the samples. */
  lemma UnrangedRuleMatches(rules: seq<SplatRule>, height: real, slope: real)
    requires |rules| > 0 && rules[0].filter.Unranged()
    ensures MatchFrom(rules, 0, height, slope) == Some(rules[0].splatIndex)
  {
  }

  /** The height range is half open: a sample equal to the maximum is
      rejected, one equal to the minimum accepted (when the range is
      non-empty and the slope range is off). */
  lemma HeightRangeHalfOpen(rule: SplatRule, slope: real)
    requires rule.filter.useHeightRange && !rule.filter.useSlopeRange
    ensures MatchFrom([rule], 0, rule.filter.maximumHeight, slope).None?
    ensures rule.filter.minimumHeight < rule.filter.maximumHeight ==>
      MatchFrom([rule], 0, rule.filter.minimumHeight, slope) == Some(rule.splatIndex)
  {
  }

  /** The marks of one cell after pass 1: at most the first match's layer. */
  function MarkCell(rules: seq<SplatRule>, layers: nat, height: real, slope: real): (r: seq<bool>)
    ensures |r| == layers
    ensures AtMostOne(r)
    ensures forall s :: 0 <= s < layers ==> (r[s] <==> MatchFrom(rules, 0, height, slope) == Some(s))
  {
    var m := MatchFrom(rules, 0, height, slope);
    seq(layers, s requires 0 <= s < layers => m == Some(s))
  }

  /** No two layers of the cell are marked. */
  predicate AtMostOne(marks: seq<bool>) {
    forall i, j :: 0 <= i < |marks| && 0 <= j < |marks| && marks[i] && marks[j] ==> i == j
  }

  /** Some layer of the cell is marked. */
  predicate Marked(marks: seq<bool>) {
    exists s :: 0 <= s < |marks| && marks[s]
  }

  /** Pass 1 over the whole grid. */
  function FirstPass(rules: seq<SplatRule>, t: Terrain, layers: nat): (g: seq<seq<seq<bool>>>)
    requires t.geometry.Valid()
    ensures Shaped(g, t.geometry.alphamapWidth, t.geometry.alphamapHeight, layers)
    ensures forall x, z :: 0 <= x < t.geometry.alphamapWidth && 0 <= z < t.geometry.alphamapHeight ==>
      g[x][z] == MarkCell(rules, layers, HeightAt(t, x, z), SlopeAt(t, x, z))
  {
    var w, h := t.geometry.alphamapWidth, t.geometry.alphamapHeight;
    seq(w, x requires 0 <= x < w =>
      seq(h, z requires 0 <= z < h => MarkCell(rules, layers, HeightAt(t, x, z), SlopeAt(t, x, z))))
  }

  // ---------------------------------------------------------------------
  // Pass 2: contagion
  // ---------------------------------------------------------------------

  /** The inner `s2` loop: the first layer from `s2` on that is marked in the
      neighbour and differs from `s`. */
  function FirstOther(neighbour: seq<bool>, s: nat, s2: nat): (r: Option<nat>)
    requires s2 <= |neighbour|
    decreases |neighbour| - s2
    ensures r.Some? ==> s2 <= r.value < |neighbour| && neighbour[r.value] && r.value != s
    ensures r.None? ==> forall k :: s2 <= k < |neighbour| && neighbour[k] ==> k == s
  {
    if s2 == |neighbour| then None
    else if !neighbour[s2] then FirstOther(neighbour, s, s2 + 1)
    else if s == s2 then FirstOther(neighbour, s, s2 + 1)
    else Some(s2)
  }

  /** The neighbour's layer `t` is marked (an absent neighbour has none). */
  predicate Has(neighbour: Option<seq<bool>>, t: nat) {
    neighbour.Some? && t < |neighbour.value| && neighbour.value[t]
  }

  /** Marked layer `s` of the cell adopts the neighbour's first other mark. */
  function Adopt(cell: seq<bool>, neighbour: Option<seq<bool>>, s: nat): (r: seq<bool>)
    requires neighbour.Some? ==> |neighbour.value| == |cell|
    ensures |r| == |cell|
    ensures forall t :: 0 <= t < |cell| && cell[t] ==> r[t]
    ensures forall t :: 0 <= t < |cell| && r[t] ==> cell[t] || Has(neighbour, t)
  {
    match neighbour
    case None => cell
    case Some(n) =>
      match FirstOther(n, s, 0)
      case None => cell
      case Some(s2) => cell[s2 := true]
  }

  /** A neighbour with a single mark `a` hands it to any other marked layer. */
  lemma AdoptSingle(cell: seq<bool>, neighbour: Option<seq<bool>>, s: nat, a: nat)
    requires neighbour.Some? ==> |neighbour.value| == |cell|
    requires neighbour.Some? ==> AtMostOne(neighbour.value)
    requires Has(neighbour, a) && a != s
    ensures Adopt(cell, neighbour, s)[a]
  {
    var n := neighbour.value;
    match FirstOther(n, s, 0)
    case None =>
      assert false;
    case Some(s2) =>
      assert s2 == a;
  }

  /** The `s` loop of one cell from layer `s` on; each marked layer adopts
      from the +X neighbour, then from the +Z neighbour.  Adopted layers
      later in the loop are visited too. */
  function SpreadFrom(cell: seq<bool>, right: Option<seq<bool>>, up: Option<seq<bool>>, s: nat): (r: seq<bool>)
    requires right.Some? ==> |right.value| == |cell|
    requires up.Some? ==> |up.value| == |cell|
    requires s <= |cell|
    decreases |cell| - s
    ensures |r| == |cell|
    ensures forall t :: 0 <= t < |cell| && cell[t] ==> r[t]
    ensures forall t :: 0 <= t < |cell| && r[t] ==> cell[t] || (Marked(cell) && (Has(right, t) || Has(up, t)))
  {
    if s == |cell| then cell
    else if !cell[s] then SpreadFrom(cell, right, up, s + 1)
    else
      var next := Adopt(Adopt(cell, right, s), up, s);
      SpreadFrom(next, right, up, s + 1)
  }

  /** A mark held by a single-marked neighbour reaches the cell as soon as
      the loop still has to visit some other marked layer `t`. */
  lemma {:induction false} SpreadReaches(cell: seq<bool>, right: Option<seq<bool>>, up: Option<seq<bool>>,
                                         s: nat, t: nat, a: nat)
    requires right.Some? ==> |right.value| == |cell| && AtMostOne(right.value)
    requires up.Some? ==> |up.value| == |cell| && AtMostOne(up.value)
    requires s <= t < |cell| && cell[t] && t != a
    requires Has(right, a) || Has(up, a)
    ensures SpreadFrom(cell, right, up, s)[a]
    decreases |cell| - s
  {
    if s == t {
      var first := Adopt(cell, right, s);
      var next := Adopt(first, up, s);
      if Has(right, a) {
        AdoptSingle(cell, right, s, a);
      } else {
        AdoptSingle(first, up, s, a);
      }
      assert next[a];
    } else if !cell[s] {
      SpreadReaches(cell, right, up, s + 1, t, a);
    } else {
      var next := Adopt(Adopt(cell, right, s), up, s);
      SpreadReaches(next, right, up, s + 1, t, a);
    }
  }

  /** What contagion leaves in a cell: its own marks, plus, if it has any,
      every mark of its +X and +Z neighbours. */
  function Blended(cell: seq<bool>, right: Option<seq<bool>>, up: Option<seq<bool>>): (r: seq<bool>)
    ensures |r| == |cell|
    ensures forall t :: 0 <= t < |cell| ==> r[t] == (cell[t] || (Marked(cell) && (Has(right, t) || Has(up, t))))
  {
    var marked := Marked(cell);
    seq(|cell|, t requires 0 <= t < |cell| => cell[t] || (marked && (Has(right, t) || Has(up, t))))
  }

  /** With single-marked neighbours the in-cell loop computes `Blended`. */
  lemma SpreadIsBlended(cell: seq<bool>, right: Option<seq<bool>>, up: Option<seq<bool>>)
    requires right.Some? ==> |right.value| == |cell| && AtMostOne(right.value)
    requires up.Some? ==> |up.value| == |cell| && AtMostOne(up.value)
    ensures SpreadFrom(cell, right, up, 0) == Blended(cell, right, up)
  {
    var r, b := SpreadFrom(cell, right, up, 0), Blended(cell, right, up);
    forall a | 0 <= a < |cell| && b[a]
      ensures r[a]
    {
      if !cell[a] {
        var t :| 0 <= t < |cell| && cell[t];
        SpreadReaches(cell, right, up, 0, t, a);
      }
    }
  }

  /** The +X neighbour of cell `(x, z)`, absent in the last column. */
  function RightOf<T>(g: seq<seq<seq<T>>>, width: nat, x: nat, z: nat): Option<seq<T>>
    requires x < |g| == width && z < |g[x]|
    requires x + 1 < width ==> z < |g[x + 1]|
  {
    if x < width - 1 then Some(g[x + 1][z]) else None
  }

  /** The +Z neighbour of cell `(x, z)`, absent in the last row. */
  function UpOf<T>(g: seq<seq<seq<T>>>, height: nat, x: nat, z: nat): Option<seq<T>>
    requires x < |g| && |g[x]| == height && z < height
  {
    if z < height - 1 then Some(g[x][z + 1]) else None
  }

  /** The contagion pass, in place, rows (`z`) outer and columns (`x`)
      inner.  When a cell is visited its +X and +Z neighbours have not been
      visited yet, so they still hold their pass-1 marks; hence every cell
      ends up `Blended` from the pass-1 grid. */
  method Contagion(first: seq<seq<seq<bool>>>, width: nat, height: nat, layers: nat)
    returns (maps: seq<seq<seq<bool>>>)
    requires Shaped(first, width, height, layers)
    requires forall x, z :: 0 <= x < width && 0 <= z < height ==> AtMostOne(first[x][z])
    ensures Shaped(maps, width, height, layers)
    ensures forall x, z :: 0 <= x < width && 0 <= z < height ==>
      maps[x][z] == Blended(first[x][z], RightOf(first, width, x, z), UpOf(first, height, x, z))
  {
    maps := first;
    for z := 0 to height
      invariant Shaped(maps, width, height, layers)
      invariant forall x', z' :: 0 <= x' < width && 0 <= z' < height ==>
        maps[x'][z'] == if z' < z then Blended(first[x'][z'], RightOf(first, width, x', z'), UpOf(first, height, x', z'))
                        else first[x'][z']
    {
      for x := 0 to width
        invariant Shaped(maps, width, height, layers)
        invariant forall x', z' :: 0 <= x' < width && 0 <= z' < height ==>
          maps[x'][z'] == if z' < z || (z' == z && x' < x)
                          then Blended(first[x'][z'], RightOf(first, width, x', z'), UpOf(first, height, x', z'))
                          else first[x'][z']
      {
        var right := RightOf(maps, width, x, z);
        var up := UpOf(maps, height, x, z);
        assert right == RightOf(first, width, x, z);
        assert up == UpOf(first, height, x, z);
        SpreadIsBlended(first[x][z], right, up);
        var cell := SpreadFrom(maps[x][z], right, up, 0);
        maps := maps[x := maps[x][z := cell]];
      }
    }
  }

  // ---------------------------------------------------------------------
  // Passes 3 and 4: normalisation and dirt
  // ---------------------------------------------------------------------

  /** Each marked layer gets an equal share `1 / count`; unmarked layers
      stay zero, and a marked cell's shares add up to one. */
  function Normalize(cell: seq<bool>): (r: seq<real>)
    ensures |r| == |cell|
    ensures forall s, t :: 0 <= s < |cell| && 0 <= t < |cell| && cell[s] && cell[t] ==> r[s] == r[t]
    ensures forall s :: 0 <= s < |cell| ==> (r[s] > 0.0 <==> cell[s]) && (r[s] == 0.0 <==> !cell[s])
    ensures Sum(r) == if Marked(cell) then 1.0 else 0.0
  {
    CountTrueZero(cell);
    var count := CountTrue(cell);
    if count == 0 then
      Spread(cell, 0.0)
    else
      assert Marked(cell) by {
        var s :| 0 <= s < |cell| && cell[s];
      }
      Spread(cell, 1.0 / count as real)
  }

  /** Every marked layer gets `share` and every other layer zero, so the
      cell sums to `share` times the number of marks. */
  function Spread(cell: seq<bool>, share: real): (r: seq<real>)
    ensures |r| == |cell|
    ensures forall s :: 0 <= s < |cell| ==> r[s] == if cell[s] then share else 0.0
    ensures Sum(r) == share * CountTrue(cell) as real
  {
    var r := seq(|cell|, s requires 0 <= s < |cell| => if cell[s] then share else 0.0);
    SumOfMarked(cell, r, share);
    r
  }

  /** Every layer of the cell is scaled by the one draw `r`: the cell's
      total becomes `r` times the old total, and for a positive draw the
      zero layers stay exactly the zero layers. */
  function AddDirt(weights: seq<real>, r: real): (d: seq<real>)
    ensures |d| == |weights|
    ensures Sum(d) == r * Sum(weights)
    ensures r > 0.0 ==> forall s :: 0 <= s < |weights| ==>
      (d[s] == 0.0 <==> weights[s] == 0.0) && (d[s] > 0.0 <==> weights[s] > 0.0)
    ensures forall s, t :: 0 <= s < |weights| && 0 <= t < |weights| && weights[s] == weights[t] ==> d[s] == d[t]
  {
    var d := seq(|weights|, s requires 0 <= s < |weights| => r * weights[s]);
    assert forall s :: 0 <= s < |weights| ==> d[s] == r * weights[s];
    SumScale(weights, d, r);
    d
  }

  /** One draw scales every layer alike, so the ratio between any two
      layers of the cell is unchanged. */
  lemma AddDirtKeepsRatios(weights: seq<real>, r: real, s: nat, t: nat)
    requires s < |weights| && t < |weights|
    ensures AddDirt(weights, r)[s] * weights[t] == AddDirt(weights, r)[t] * weights[s]
  {
    var d := AddDirt(weights, r);
    assert d[s] == r * weights[s] && d[t] == r * weights[t];
    calc {
      d[s] * weights[t];
      (r * weights[s]) * weights[t];
      { assert (r * weights[s]) * weights[t] == r * (weights[s] * weights[t]); }
      r * (weights[t] * weights[s]);
      (r * weights[t]) * weights[s];
    }
  }

  // ---------------------------------------------------------------------
  // The whole painter
  // ---------------------------------------------------------------------

  /** The first rule matching alphamap cell `(x, z)`, as pass 1 sees it. */
  function MatchAt(rules: seq<SplatRule>, t: Terrain, x: nat, z: nat): Option<int>
    requires t.geometry.Valid()
  {
    MatchFrom(rules, 0, HeightAt(t, x, z), SlopeAt(t, x, z))
  }

  /** What a painted cell `(x, z)` holds, given its dirt draw `r`: a cell
      no rule matches stays all zero; a matched cell's weights sum to `r`
      and its own first-match layer keeps a positive weight; a layer is
      weighted exactly when the cell matched and the layer is the first
      match of the cell or of its +X or +Z neighbour; and all weighted
      layers hold the same share of `r`. */
  predicate CellPainted(rules: seq<SplatRule>, t: Terrain, layers: nat, x: nat, z: nat, d: seq<real>, r: real)
    requires t.geometry.Valid()
  {
    var m := MatchAt(rules, t, x, z);
    && |d| == layers
    && (m.None? ==> forall s :: 0 <= s < layers ==> d[s] == 0.0)
    && (m.Some? ==> Sum(d) == r && 0 <= m.value < layers && d[m.value] > 0.0)
    && (forall s :: 0 <= s < layers ==>
          (d[s] != 0.0 <==> (m.Some? &&
            (|| m == Some(s)
             || (x + 1 < t.geometry.alphamapWidth && MatchAt(rules, t, x + 1, z) == Some(s))
             || (z + 1 < t.geometry.alphamapHeight && MatchAt(rules, t, x, z + 1) == Some(s))))))
    && EqualShares(d)
  }

  /** Every weighted layer of a cell holds the same share. */
  predicate EqualShares(d: seq<real>) {
    forall s, s' :: 0 <= s < |d| && 0 <= s' < |d| && d[s] != 0.0 && d[s'] != 0.0 ==> d[s] == d[s']
  }

  /** Runs all four passes.  `dirt(x, z)` is the cell's draw from
      `Random.Range(0.9f, 1.0f)`; every alphamap cell ends up
      `CellPainted` with its draw. */
  method AutoApplyTexture(rules: seq<SplatRule>, t: Terrain, layers: nat, dirt: (nat, nat) -> real)
    returns (maps: seq<seq<seq<real>>>)
    requires t.geometry.Valid()
    requires forall k :: 0 <= k < |rules| ==> 0 <= rules[k].splatIndex < layers
    requires forall x: nat, z: nat :: 0.9 <= dirt(x, z) <= 1.0
    ensures Shaped(maps, t.geometry.alphamapWidth, t.geometry.alphamapHeight, layers)
    ensures forall x, z :: 0 <= x < t.geometry.alphamapWidth && 0 <= z < t.geometry.alphamapHeight ==>
      CellPainted(rules, t, layers, x, z, maps[x][z], dirt(x, z))
  {
    var w, h := t.geometry.alphamapWidth, t.geometry.alphamapHeight;
    var first := FirstPass(rules, t, layers);
    var blended := Contagion(first, w, h, layers);
    maps := Weigh(blended, w, h, layers, dirt);
    forall x, z | 0 <= x < w && 0 <= z < h
      ensures CellPainted(rules, t, layers, x, z, maps[x][z], dirt(x, z))
    {
      assert maps[x][z] == AddDirt(Normalize(blended[x][z]), dirt(x, z));
      PaintedCell(rules, t, layers, first, blended, x, z, dirt(x, z));
    }
  }

  /** Passes 3 and 4 over the whole grid. */
  function Weigh(blended: seq<seq<seq<bool>>>, width: nat, height: nat, layers: nat,
                 dirt: (nat, nat) -> real): (maps: seq<seq<seq<real>>>)
    requires Shaped(blended, width, height, layers)
    ensures Shaped(maps, width, height, layers)
    ensures forall x, z :: 0 <= x < width && 0 <= z < height ==>
      maps[x][z] == AddDirt(Normalize(blended[x][z]), dirt(x, z))
  {
    seq(width, x requires 0 <= x < width => WeighColumn(blended[x], x, dirt))
  }

  /** Passes 3 and 4 over column `x`. */
  function WeighColumn(column: seq<seq<bool>>, x: nat, dirt: (nat, nat) -> real): (r: seq<seq<real>>)
    ensures |r| == |column|
    ensures forall z :: 0 <= z < |column| ==> r[z] == AddDirt(Normalize(column[z]), dirt(x, z))
  {
    seq(|column|, z requires 0 <= z < |column| => AddDirt(Normalize(column[z]), dirt(x, z)))
  }

  /** `CellWeights` instantiated at grid cell `(x, z)`. */
  lemma PaintedCell(rules: seq<SplatRule>, t: Terrain, layers: nat, first: seq<seq<seq<bool>>>,
                    blended: seq<seq<seq<bool>>>, x: nat, z: nat, r: real)
    requires t.geometry.Valid()
    requires forall k :: 0 <= k < |rules| ==> 0 <= rules[k].splatIndex < layers
    requires 0.9 <= r <= 1.0
    requires first == FirstPass(rules, t, layers)
    requires x < t.geometry.alphamapWidth && z < t.geometry.alphamapHeight
    requires Shaped(blended, t.geometry.alphamapWidth, t.geometry.alphamapHeight, layers)
    requires blended[x][z] == Blended(first[x][z], RightOf(first, t.geometry.alphamapWidth, x, z),
                                      UpOf(first, t.geometry.alphamapHeight, x, z))
    ensures CellPainted(rules, t, layers, x, z, AddDirt(Normalize(blended[x][z]), r), r)
  {
    var w, h := t.geometry.alphamapWidth, t.geometry.alphamapHeight;
    var right := RightOf(first, w, x, z);
    var up := UpOf(first, h, x, z);
    var rightMatch := if x + 1 < w then MatchAt(rules, t, x + 1, z) else None;
    var upMatch := if z + 1 < h then MatchAt(rules, t, x, z + 1) else None;
    CellWeights(MatchAt(rules, t, x, z), rightMatch, upMatch, first[x][z], right, up,
                blended[x][z], layers, r);
  }

  /** The per-cell facts behind `AutoApplyTexture`'s contract: `m`, `mr`
      and `mu` are the first matches of the cell and of its +X and +Z
      neighbours, and `cell`, `right`, `up` their pass-1 marks. */
  lemma CellWeights(m: Option<int>, mr: Option<int>, mu: Option<int>,
                    cell: seq<bool>, right: Option<seq<bool>>, up: Option<seq<bool>>,
                    b: seq<bool>, layers: nat, r: real)
    requires |cell| == layers
    requires m.Some? ==> 0 <= m.value < layers
    requires forall s :: 0 <= s < layers ==> (cell[s] <==> m == Some(s))
    requires right.Some? ==> |right.value| == layers
    requires forall s :: 0 <= s < layers ==> (Has(right, s) <==> mr == Some(s))
    requires up.Some? ==> |up.value| == layers
    requires forall s :: 0 <= s < layers ==> (Has(up, s) <==> mu == Some(s))
    requires b == Blended(cell, right, up)
    requires 0.9 <= r <= 1.0
    ensures var d := AddDirt(Normalize(b), r);
      && (m.None? ==> forall s :: 0 <= s < layers ==> d[s] == 0.0)
      && (m.Some? ==> Sum(d) == r && d[m.value] > 0.0)
      && (forall s :: 0 <= s < layers ==>
            (d[s] != 0.0 <==> m.Some? && (m == Some(s) || mr == Some(s) || mu == Some(s))))
      && EqualShares(d)
  {
    if m.Some? {
      assert b[m.value] && Marked(b);
    } else {
      assert !Marked(cell);
    }
  }
}
