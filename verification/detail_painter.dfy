/** `TerrainDetailsPainterEditor.Apply`: the detail (grass) painter.  For
    every detail cell the rules are tried in order; each rule first rolls
    its chance, then a rule with no range enabled paints and lets later
    rules paint too, while a ranged rule whose ranges hold paints and ends
    the cell.  A detail layer is handed to the terrain exactly when some
    rule for it was reached, even one that painted nothing. */
module DetailPainting {
  import opened Wrappers
  import opened Ranges
  import opened Common
  import opened Rules
  import opened Terrains

  /** What the rule loop sees at one cell: the height and steepness
      samples, and the cell's random draws, indexed by rule: `roll(k)` is
      rule `k`'s `Random.Range(0f, 1f)`, `count(k)` its
      `Random.Range(1, 8)` density. */
  datatype Cell = Cell(height: real, slope: real, roll: nat -> real, count: nat -> int)

  /** What the rule loop leaves for one cell: the layers it allocated and,
      per layer, the last density it wrote there. */
  datatype Outcome = Outcome(created: set<int>, written: map<int, int>)

  const Untouched := Outcome({}, map[])

  /** Rule `k`'s chance roll succeeds (a roll equal to `chance` succeeds). */
  predicate Passes(rules: seq<DetailRule>, k: nat, c: Cell)
    requires k < |rules|
  {
    c.roll(k) <= rules[k].chance
  }

  /** Rule `k` paints the cell if it is reached. */
  predicate Writes(rules: seq<DetailRule>, k: nat, c: Cell)
    requires k < |rules|
  {
    Passes(rules, k, c) && rules[k].filter.Admits(c.height, c.slope)
  }

  /** Rule `k` paints the cell and ends its loop. */
  predicate Stops(rules: seq<DetailRule>, k: nat, c: Cell)
    requires k < |rules|
  {
    Writes(rules, k, c) && !rules[k].filter.Unranged()
  }

  /** The loop gets as far as rule `k`: no earlier rule stopped it. */
  predicate Reached(rules: seq<DetailRule>, k: nat, c: Cell)
    requires k <= |rules|
  {
    forall j :: 0 <= j < k ==> !Stops(rules, j, c)
  }

  /** A freshly added detail rule has chance 0 and no range: on a draw
      from `[0, 1]` it paints only when the draw is exactly 0, and it never
      ends the loop. */
  lemma AddedRuleAlmostNeverWrites(rules: seq<DetailRule>, c: Cell)
    requires 0.0 <= c.roll(|rules|)
    ensures !Stops(AddDetailRule(rules), |rules|, c)
    ensures Writes(AddDetailRule(rules), |rules|, c) <==> c.roll(|rules|) == 0.0
  {
    assert AddDetailRule(rules)[|rules|] == NewDetailRule();
  }

  /** The rule loop from rule `k` on, with the source's `continue` and
      `break` branches; every rule reached allocates its layer. */
  function Evaluate(rules: seq<DetailRule>, k: nat, c: Cell, acc: Outcome): (r: Outcome)
    requires k <= |rules|
    decreases |rules| - k
    ensures acc.created <= r.created
    ensures acc.written.Keys <= r.written.Keys
    ensures r.written.Keys <= r.created + acc.written.Keys
  {
    if k == |rules| then acc
    else
      var rule := rules[k];
      var f := rule.filter;
      var touched := acc.(created := acc.created + {rule.detailIndex});
      var painted := touched.(written := touched.written[rule.detailIndex := c.count(k)]);
      InlineTestIsComplement(c.height, f.minimumHeight, f.maximumHeight);
      InlineTestIsComplement(c.slope, f.minimumSlope, f.maximumSlope);
      if c.roll(k) > rule.chance then Evaluate(rules, k + 1, c, touched)
      else if f.Unranged() then Evaluate(rules, k + 1, c, painted)
      else if f.useHeightRange && OutsideInline(c.height, f.minimumHeight, f.maximumHeight) then
        Evaluate(rules, k + 1, c, touched)
      else if f.useSlopeRange && OutsideInline(c.slope, f.minimumSlope, f.maximumSlope) then
        Evaluate(rules, k + 1, c, touched)
      else painted
  }

  /** A layer is allocated exactly when a reached rule targets it. */
  lemma {:induction false} EvaluateAllocates(rules: seq<DetailRule>, k: nat, c: Cell, acc: Outcome, d: int)
    requires k <= |rules| && Reached(rules, k, c)
    ensures d in Evaluate(rules, k, c, acc).created <==>
      d in acc.created || exists j :: k <= j < |rules| && Reached(rules, j, c) && rules[j].detailIndex == d
    decreases |rules| - k
  {
    if k < |rules| {
      var rule := rules[k];
      var touched := acc.(created := acc.created + {rule.detailIndex});
      var painted := touched.(written := touched.written[rule.detailIndex := c.count(k)]);
      if Stops(rules, k, c) {
        assert Evaluate(rules, k, c, acc) == painted;
        assert forall j :: k < j < |rules| ==> !Reached(rules, j, c);
      } else {
        assert Reached(rules, k + 1, c);
        var next := if Writes(rules, k, c) then painted else touched;
        assert Evaluate(rules, k, c, acc) == Evaluate(rules, k + 1, c, next);
        EvaluateAllocates(rules, k + 1, c, next, d);
      }
    }
  }

  /** A layer is written exactly when a reached rule for it paints, and it
      keeps the density of the last such rule. */
  lemma {:induction false} EvaluateWrites(rules: seq<DetailRule>, k: nat, c: Cell, acc: Outcome, d: int)
    requires k <= |rules| && Reached(rules, k, c)
    ensures var r := Evaluate(rules, k, c, acc);
      d in r.written <==>
        d in acc.written || exists j :: k <= j < |rules| && Reached(rules, j, c) && Writes(rules, j, c) && rules[j].detailIndex == d
    ensures var r := Evaluate(rules, k, c, acc);
      d in r.written ==>
        || (d in acc.written && r.written[d] == acc.written[d]
            && forall j :: k <= j < |rules| && Reached(rules, j, c) && Writes(rules, j, c) ==> rules[j].detailIndex != d)
        || exists j :: && k <= j < |rules| && Reached(rules, j, c) && Writes(rules, j, c)
                       && rules[j].detailIndex == d && r.written[d] == c.count(j)
                       && forall i :: j < i < |rules| && Reached(rules, i, c) && Writes(rules, i, c) ==> rules[i].detailIndex != d
    decreases |rules| - k
  {
    if k < |rules| {
      var rule := rules[k];
      var touched := acc.(created := acc.created + {rule.detailIndex});
      var painted := touched.(written := touched.written[rule.detailIndex := c.count(k)]);
      if Stops(rules, k, c) {
        assert Evaluate(rules, k, c, acc) == painted;
        assert forall j :: k < j < |rules| ==> !Reached(rules, j, c);
      } else {
        assert Reached(rules, k + 1, c);
        var next := if Writes(rules, k, c) then painted else touched;
        assert Evaluate(rules, k, c, acc) == Evaluate(rules, k + 1, c, next);
        EvaluateWrites(rules, k + 1, c, next, d);
      }
    }
  }

  /** Every density written is one of the cell's draws; with draws in
      `1..7` the painted values are in `1..7`. */
  lemma {:induction false} WrittenInRange(rules: seq<DetailRule>, k: nat, c: Cell, acc: Outcome)
    requires k <= |rules|
    requires forall j: nat :: 1 <= c.count(j) <= 7
    requires forall d :: d in acc.written ==> 1 <= acc.written[d] <= 7
    ensures forall d :: d in Evaluate(rules, k, c, acc).written ==> 1 <= Evaluate(rules, k, c, acc).written[d] <= 7
    decreases |rules| - k
  {
    if k < |rules| {
      var rule := rules[k];
      var touched := acc.(created := acc.created + {rule.detailIndex});
      var painted := touched.(written := touched.written[rule.detailIndex := c.count(k)]);
      WrittenInRange(rules, k + 1, c, touched);
      WrittenInRange(rules, k + 1, c, painted);
    }
  }

  /** A cell's painted value is a density in `1..7` or the untouched
      zero, whichever layer is asked about. */
  lemma CellValueInRange(rules: seq<DetailRule>, c: Cell, d: int)
    requires forall j: nat :: 1 <= c.count(j) <= 7
    ensures 0 <= ValueIn(Evaluate(rules, 0, c, Untouched), d) <= 7
    ensures ValueIn(Evaluate(rules, 0, c, Untouched), d) != 0 <==>
      exists j :: 0 <= j < |rules| && Reached(rules, j, c) && Writes(rules, j, c) && rules[j].detailIndex == d
  {
    WrittenInRange(rules, 0, c, Untouched);
    EvaluateWrites(rules, 0, c, Untouched, d);
  }

  /** A first rule with no range and a winning roll always paints its
      layer, and the loop goes on to the next rule. */
  lemma UnrangedRuleDoesNotStop(rules: seq<DetailRule>, c: Cell)
    requires |rules| >= 2 && rules[0].filter.Unranged() && Passes(rules, 0, c)
    ensures rules[0].detailIndex in Evaluate(rules, 0, c, Untouched).written
    ensures rules[1].detailIndex in Evaluate(rules, 0, c, Untouched).created
  {
    EvaluateWrites(rules, 0, c, Untouched, rules[0].detailIndex);
    assert Reached(rules, 1, c);
    EvaluateAllocates(rules, 0, c, Untouched, rules[1].detailIndex);
  }

  // ---------------------------------------------------------------------
  // The whole grid
  // ---------------------------------------------------------------------

  /** The samples and draws of detail cell `(x, y)`.  The height is read
      at the cell's world position, the steepness at its normalized
      position, whose components the conversion already swaps. */
  function CellAt(t: Terrain, roll: (nat, nat, nat) -> real, count: (nat, nat, nat) -> int, x: nat, y: nat): Cell
    requires t.geometry.Valid()
  {
    var normalized := DetailsToNormalizedPosition(t.geometry, x as real, y as real);
    Cell(
      t.sampleHeight(DetailsToWorldPosition(t.geometry, x as real, y as real)),
      t.steepness(normalized.x, normalized.y),
      (k: nat) => roll(x, y, k),
      (k: nat) => count(x, y, k))
  }

  /** The detail painter's steepness sample is the steepness at the cell's
      world position, whatever the detail resolution. */
  lemma CellSlopeIsWorldSteepness(t: Terrain, roll: (nat, nat, nat) -> real, count: (nat, nat, nat) -> int, x: nat, y: nat)
    requires t.geometry.Valid()
    ensures CellAt(t, roll, count, x, y).slope
         == SteepnessFromWorldPosition(t, DetailsToWorldPosition(t.geometry, x as real, y as real))
  {
    DetailsWorldNormalized(t.geometry, x as real, y as real);
  }

  /** The rule loop's outcome at detail cell `(x, y)`. */
  function OutcomeAt(rules: seq<DetailRule>, t: Terrain, roll: (nat, nat, nat) -> real,
                     count: (nat, nat, nat) -> int, x: nat, y: nat): Outcome
    requires t.geometry.Valid()
  {
    Evaluate(rules, 0, CellAt(t, roll, count, x, y), Untouched)
  }

  /** The value a layer holds at a cell: the last density written, or the
      fresh array's zero. */
  function ValueIn(o: Outcome, d: int): int {
    if d in o.written then o.written[d] else 0
  }

  /** Records one cell's outcome into the `[layer][x][y]` arrays. */
  function Record(layers: seq<seq<seq<int>>>, o: Outcome, x: nat, y: nat, width: nat, height: nat): (r: seq<seq<seq<int>>>)
    requires Shaped(layers, |layers|, width, height)
    requires x < width && y < height
    ensures Shaped(r, |layers|, width, height)
    ensures forall d, x', y' :: 0 <= d < |layers| && 0 <= x' < width && 0 <= y' < height ==>
      r[d][x'][y'] == if x' == x && y' == y && d in o.written then o.written[d] else layers[d][x'][y']
  {
    seq(|layers|, d requires 0 <= d < |layers| => RecordLayer(layers[d], o, d, x, y, width, height))
  }

  /** Records one cell's outcome into layer `d`. */
  function RecordLayer(layer: seq<seq<int>>, o: Outcome, d: int, x: nat, y: nat, width: nat, height: nat): (r: seq<seq<int>>)
    requires |layer| == width && forall x' :: 0 <= x' < width ==> |layer[x']| == height
    requires x < width && y < height
    ensures |r| == width && forall x' :: 0 <= x' < width ==> |r[x']| == height
    ensures forall x', y' :: 0 <= x' < width && 0 <= y' < height ==>
      r[x'][y'] == if x' == x && y' == y && d in o.written then o.written[d] else layer[x'][y']
  {
    if d in o.written then layer[x := layer[x][y := o.written[d]]] else layer
  }

  /** `count` fresh layers of zeros, `width` by `height`. */
  function Blank(count: nat, width: nat, height: nat): (g: seq<seq<seq<int>>>)
    ensures Shaped(g, count, width, height)
    ensures forall d, x, y :: 0 <= d < count && 0 <= x < width && 0 <= y < height ==> g[d][x][y] == 0
  {
    var zeros := seq(width, x requires 0 <= x < width => seq(height, y requires 0 <= y < height => 0));
    seq(count, d requires 0 <= d < count => zeros)
  }

  /** The layers allocated by cells `0 .. x-1` of row `y`. */
  function RowCreated(outcome: (nat, nat) -> Outcome, x: nat, y: nat): (r: set<int>)
    ensures x > 0 ==> outcome(x - 1, y).created <= r
  {
    if x == 0 then {} else RowCreated(outcome, x - 1, y) + outcome(x - 1, y).created
  }

  /** The layers allocated by rows `0 .. y-1`, each `width` cells wide. */
  function GridCreated(outcome: (nat, nat) -> Outcome, width: nat, y: nat): (r: set<int>)
    ensures y > 0 ==> RowCreated(outcome, width, y - 1) <= r
  {
    if y == 0 then {} else GridCreated(outcome, width, y - 1) + RowCreated(outcome, width, y - 1)
  }

  /** A layer is in the row union exactly when some cell of the row
      allocated it. */
  lemma {:induction false} RowCreatedMembers(outcome: (nat, nat) -> Outcome, x: nat, y: nat, d: int)
    ensures d in RowCreated(outcome, x, y) <==> exists x' :: 0 <= x' < x && d in outcome(x', y).created
  {
    if x > 0 {
      RowCreatedMembers(outcome, x - 1, y, d);
      if d in outcome(x - 1, y).created {
        assert 0 <= x - 1 < x;
      }
    }
  }

  /** A layer is in the grid union exactly when some cell of the rows
      allocated it. */
  lemma {:induction false} GridCreatedMembers(outcome: (nat, nat) -> Outcome, width: nat, y: nat, d: int)
    ensures d in GridCreated(outcome, width, y) <==>
      exists x', y' :: 0 <= x' < width && 0 <= y' < y && d in outcome(x', y').created
  {
    if y > 0 {
      GridCreatedMembers(outcome, width, y - 1, d);
      RowCreatedMembers(outcome, width, y - 1, d);
      if d in RowCreated(outcome, width, y - 1) {
        var x' :| 0 <= x' < width && d in outcome(x', y - 1).created;
        assert 0 <= y - 1 < y;
      }
      if exists x', y' :: 0 <= x' < width && 0 <= y' < y && d in outcome(x', y').created {
        var x', y' :| 0 <= x' < width && 0 <= y' < y && d in outcome(x', y').created;
        if y' == y - 1 {
          assert d in RowCreated(outcome, width, y - 1);
        }
      }
    }
  }

  /** Cell `(x', y')` comes before cell `(x, y)` in row-major order. */
  predicate Before(x': nat, y': nat, x: nat, y: nat) {
    y' < y || (y' == y && x' < x)
  }

  /** The `[layer][x][y]` arrays hold the outcome of every cell before
      `(x, y)` and zero elsewhere. */
  predicate PaintedUpTo(layers: seq<seq<seq<int>>>, outcome: (nat, nat) -> Outcome,
                        width: nat, height: nat, x: nat, y: nat)
  {
    && Shaped(layers, |layers|, width, height)
    && forall d: int, x': nat, y': nat :: 0 <= d < |layers| && 0 <= x' < width && 0 <= y' < height ==>
         layers[d][x'][y'] == if Before(x', y', x, y) then ValueIn(outcome(x', y'), d) else 0
  }

  /** Recording cell `(x, y)` moves the painted frontier one cell on. */
  lemma RecordAdvances(layers: seq<seq<seq<int>>>, outcome: (nat, nat) -> Outcome,
                       width: nat, height: nat, x: nat, y: nat, next: nat)
    requires x < width && y < height && next == x + 1
    requires PaintedUpTo(layers, outcome, width, height, x, y)
    ensures PaintedUpTo(Record(layers, outcome(x, y), x, y, width, height), outcome, width, height, next, y)
  {
    var r := Record(layers, outcome(x, y), x, y, width, height);
    forall d: int, x': nat, y': nat | 0 <= d < |r| && 0 <= x' < width && 0 <= y' < height
      ensures r[d][x'][y'] == if Before(x', y', next, y) then ValueIn(outcome(x', y'), d) else 0
    {
      assert layers[d][x'][y'] == if Before(x', y', x, y) then ValueIn(outcome(x', y'), d) else 0;
    }
  }

  /** A row painted to its end is the start of the next row. */
  lemma RowCompleted(layers: seq<seq<seq<int>>>, outcome: (nat, nat) -> Outcome, width: nat, height: nat,
                     y: nat, next: nat)
    requires next == y + 1
    requires PaintedUpTo(layers, outcome, width, height, width, y)
    ensures PaintedUpTo(layers, outcome, width, height, 0, next)
  {
    forall d: int, x': nat, y': nat | 0 <= d < |layers| && 0 <= x' < width && 0 <= y' < height
      ensures layers[d][x'][y'] == if Before(x', y', 0, next) then ValueIn(outcome(x', y'), d) else 0
    {
      assert layers[d][x'][y'] == if Before(x', y', width, y) then ValueIn(outcome(x', y'), d) else 0;
    }
  }

  /** Paints row `y`, columns `0 .. width-1`. */
  method PaintRow(outcome: (nat, nat) -> Outcome, width: nat, height: nat, y: nat,
                  layers: seq<seq<seq<int>>>, created: set<int>)
    returns (layers': seq<seq<seq<int>>>, created': set<int>)
    requires y < height
    requires PaintedUpTo(layers, outcome, width, height, 0, y)
    requires created == GridCreated(outcome, width, y)
    ensures |layers'| == |layers|
    ensures PaintedUpTo(layers', outcome, width, height, 0, y + 1)
    ensures created' == GridCreated(outcome, width, y + 1)
  {
    layers', created' := layers, created;
    for x := 0 to width
      invariant |layers'| == |layers|
      invariant PaintedUpTo(layers', outcome, width, height, x, y)
      invariant created' == created + RowCreated(outcome, x, y)
    {
      var o := outcome(x, y);
      RecordAdvances(layers', outcome, width, height, x, y, x + 1);
      layers' := Record(layers', o, x, y, width, height);
      created' := created' + o.created;
    }
    RowCompleted(layers', outcome, width, height, y, y + 1);
  }

  /** Paints every cell of a `width` by `height` grid, rows (`y`) outer and
      columns (`x`) inner, given each cell's rule-loop outcome. */
  method PaintGrid(outcome: (nat, nat) -> Outcome, prototypes: nat, width: nat, height: nat)
    returns (details: seq<Option<seq<seq<int>>>>)
    ensures |details| == prototypes
    ensures forall d :: 0 <= d < prototypes ==>
      (details[d].Some? <==> exists x, y :: 0 <= x < width && 0 <= y < height && d in outcome(x, y).created)
    ensures forall d :: 0 <= d < prototypes && details[d].Some? ==>
      && |details[d].value| == width
      && forall x :: 0 <= x < width ==> |details[d].value[x]| == height
    ensures forall d: int, x: nat, y: nat | 0 <= d < prototypes && details[d].Some? && x < width && y < height ::
      details[d].value[x][y] == ValueIn(outcome(x, y), d)
  {
    var layers := Blank(prototypes, width, height);
    var created: set<int> := {};
    for y := 0 to height
      invariant |layers| == prototypes
      invariant PaintedUpTo(layers, outcome, width, height, 0, y)
      invariant created == GridCreated(outcome, width, y)
    {
      layers, created := PaintRow(outcome, width, height, y, layers, created);
    }
    details := seq(prototypes, d requires 0 <= d < prototypes => if d in created then Some(layers[d]) else None);
    forall d | 0 <= d < prototypes
      ensures details[d].Some? <==> exists x, y :: 0 <= x < width && 0 <= y < height && d in outcome(x, y).created
    {
      GridCreatedMembers(outcome, width, height, d);
    }
  }

  /** The detail painter: paints every detail cell and returns, per detail
      prototype, `None` for a layer never allocated and otherwise its
      `[x][y]` densities. */
  method Apply(rules: seq<DetailRule>, t: Terrain, prototypes: nat,
               roll: (nat, nat, nat) -> real, count: (nat, nat, nat) -> int)
    returns (details: seq<Option<seq<seq<int>>>>)
    requires t.geometry.Valid()
    requires forall k :: 0 <= k < |rules| ==> 0 <= rules[k].detailIndex < prototypes
    ensures |details| == prototypes
    ensures forall d :: 0 <= d < prototypes ==>
      (details[d].Some? <==> exists x, y :: 0 <= x < t.geometry.detailWidth && 0 <= y < t.geometry.detailHeight
                                          && d in OutcomeAt(rules, t, roll, count, x, y).created)
    ensures forall d :: 0 <= d < prototypes && details[d].Some? ==>
      && |details[d].value| == t.geometry.detailWidth
      && forall x :: 0 <= x < t.geometry.detailWidth ==> |details[d].value[x]| == t.geometry.detailHeight
    ensures forall d: int, x: nat, y: nat | 0 <= d < prototypes && details[d].Some?
      && x < t.geometry.detailWidth && y < t.geometry.detailHeight ::
      details[d].value[x][y] == ValueIn(OutcomeAt(rules, t, roll, count, x, y), d)
  {
    var outcome := (x: nat, y: nat) => if t.geometry.Valid() then OutcomeAt(rules, t, roll, count, x, y) else Untouched;
    assert forall x: nat, y: nat :: outcome(x, y) == OutcomeAt(rules, t, roll, count, x, y);
    details := PaintGrid(outcome, prototypes, t.geometry.detailWidth, t.geometry.detailHeight);
  }
}
