/** The three painters' rule records, the tree rule's `Clone`, and the
    rule-list edits (up, down, remove, clone, area slots) the inspectors
    offer.  Every painter component is just an ordered list of its rules. */
module Rules {
  import opened Wrappers
  import opened Ranges
  import opened Polygons
  import ArrayEx
  import Common

  /** The height and slope settings all three rule kinds carry. */
  datatype RangeFilter = RangeFilter(
    useHeightRange: bool,
    minimumHeight: real,
    maximumHeight: real,
    useSlopeRange: bool,
    minimumSlope: real,
    maximumSlope: real)
  {
    /** Neither range is enabled. */
    predicate Unranged() {
      !useHeightRange && !useSlopeRange
    }

    function HeightRange(): RangeF {
      RangeF(minimumHeight, maximumHeight)
    }

    function SlopeRange(): RangeF {
      RangeF(minimumSlope, maximumSlope)
    }

    /** Every enabled range contains its sample, as half-open intervals. */
    predicate Admits(height: real, slope: real) {
      (!useHeightRange || HeightRange().Contains(height))
      && (!useSlopeRange || SlopeRange().Contains(slope))
    }
  }

  /** A rule with all settings at their field defaults. */
  const NoFilter := RangeFilter(false, 0.0, 0.0, false, 0.0, 0.0)

  /** `TerrainPainterRule`: paints splat layer `splatIndex`. */
  datatype SplatRule = SplatRule(filter: RangeFilter, splatIndex: int)

  /** `TerrainDetailsPainterRule`: paints detail layer `detailIndex` with
      probability `chance`. */
  datatype DetailRule = DetailRule(filter: RangeFilter, detailIndex: int, chance: real)

  /** `TerrainTreesPainterRule`: targets tree prototype `treeIndex` inside the
      listed area polygons; `None` stands for an empty (null) slot. */
  datatype TreeRule = TreeRule(
    filter: RangeFilter,
    treeIndex: int,
    density: real,
    areaPolygons: seq<Option<AreaPolygon>>)

  /** A new splat rule: every field at its default, so no range is
      enabled and the target is layer 0. */
  function NewSplatRule(): (r: SplatRule)
    ensures r.filter.Unranged() && r.splatIndex == 0
  {
    SplatRule(NoFilter, 0)
  }

  /** A new detail rule: every field at its default, so no range is
      enabled, the target is layer 0 and the chance is 0. */
  function NewDetailRule(): (r: DetailRule)
    ensures r.filter.Unranged() && r.detailIndex == 0 && r.chance == 0.0
  {
    DetailRule(NoFilter, 0, 0.0)
  }

  /** A new tree rule: default fields and one empty area slot. */
  function NewTreeRule(): (r: TreeRule)
    ensures r.areaPolygons == [None]
    ensures r.filter.Unranged() && r.treeIndex == 0 && r.density == 0.0
  {
    TreeRule(NoFilter, 0, 0.0, [None])
  }

  /** A copy of the rule: every scalar field copied and a new area array
      holding the same polygon references (a shallow copy). */
  function Clone(rule: TreeRule): (r: TreeRule)
    ensures r.filter == rule.filter && r.treeIndex == rule.treeIndex && r.density == rule.density
    ensures |r.areaPolygons| == |rule.areaPolygons|
    ensures forall k :: 0 <= k < |rule.areaPolygons| ==> r.areaPolygons[k] == rule.areaPolygons[k]
  {
    TreeRule(rule.filter, rule.treeIndex, rule.density, rule.areaPolygons[..])
  }

  /** Choosing a polygon for area slot `areaIndex`. */
  function SetArea(rule: TreeRule, areaIndex: nat, area: Option<AreaPolygon>): (r: TreeRule)
    requires areaIndex < |rule.areaPolygons|
    ensures r.filter == rule.filter && r.treeIndex == rule.treeIndex && r.density == rule.density
    ensures |r.areaPolygons| == |rule.areaPolygons| && r.areaPolygons[areaIndex] == area
    ensures forall k :: 0 <= k < |rule.areaPolygons| && k != areaIndex ==> r.areaPolygons[k] == rule.areaPolygons[k]
  {
    rule.(areaPolygons := rule.areaPolygons[areaIndex := area])
  }

  /** Editing a slot of a clone changes only that slot of the clone; the
      original rule, a separate value, keeps all of its slots. */
  lemma CloneSlotsIndependent(rule: TreeRule, areaIndex: nat, area: Option<AreaPolygon>)
    requires areaIndex < |rule.areaPolygons|
    ensures var c := SetArea(Clone(rule), areaIndex, area);
      c.areaPolygons[areaIndex] == area
      && forall k :: 0 <= k < |rule.areaPolygons| && k != areaIndex ==> c.areaPolygons[k] == rule.areaPolygons[k]
  {
  }

  /** The "+" button: an empty slot is put in front of the area list. */
  function AddArea(rule: TreeRule): (r: TreeRule)
    ensures |r.areaPolygons| == |rule.areaPolygons| + 1
    ensures r.areaPolygons[0] == None
    ensures forall k :: 0 <= k < |rule.areaPolygons| ==> r.areaPolygons[k + 1] == rule.areaPolygons[k]
    ensures r.filter == rule.filter && r.treeIndex == rule.treeIndex && r.density == rule.density
  {
    rule.(areaPolygons := ArrayEx.Insert(rule.areaPolygons, 0, None))
  }

  /** The "X" button of slot `areaIndex`: disabled while only one slot is
      left, so the list never becomes empty through it. */
  function RemoveArea(rule: TreeRule, areaIndex: nat): (r: TreeRule)
    requires areaIndex < |rule.areaPolygons|
    ensures |rule.areaPolygons| <= 1 ==> r == rule
    ensures |rule.areaPolygons| > 1 ==> r.areaPolygons == ArrayEx.Remove(rule.areaPolygons, areaIndex)
    ensures |r.areaPolygons| >= 1
    ensures r.filter == rule.filter && r.treeIndex == rule.treeIndex && r.density == rule.density
  {
    if |rule.areaPolygons| > 1 then rule.(areaPolygons := ArrayEx.Remove(rule.areaPolygons, areaIndex))
    else rule
  }

  // ---------------------------------------------------------------------
  // Rule-list edits shared by the three inspectors
  // ---------------------------------------------------------------------

  /** "Up": rule `index` trades places with the rule before it. */
  function MoveUp<R>(rules: seq<R>, index: nat): (r: seq<R>)
    requires 0 < index < |rules|
    ensures |r| == |rules|
    ensures r[index - 1] == rules[index] && r[index] == rules[index - 1]
    ensures forall k :: 0 <= k < |rules| && k != index && k != index - 1 ==> r[k] == rules[k]
    ensures multiset(r) == multiset(rules)
  {
    Common.SwapPermutes(rules, index, index - 1);
    Common.Swap(rules, index, index - 1)
  }

  /** "Down": rule `index` trades places with the rule after it. */
  function MoveDown<R>(rules: seq<R>, index: nat): (r: seq<R>)
    requires index < |rules| - 1
    ensures |r| == |rules|
    ensures r[index + 1] == rules[index] && r[index] == rules[index + 1]
    ensures forall k :: 0 <= k < |rules| && k != index && k != index + 1 ==> r[k] == rules[k]
    ensures multiset(r) == multiset(rules)
  {
    Common.SwapPermutes(rules, index, index + 1);
    Common.Swap(rules, index, index + 1)
  }

  /** Moving a rule up and then back down restores the list. */
  lemma MoveUpThenDown<R>(rules: seq<R>, index: nat)
    requires 0 < index < |rules|
    ensures MoveDown(MoveUp(rules, index), index - 1) == rules
  {
    var r := MoveDown(MoveUp(rules, index), index - 1);
    assert forall k :: 0 <= k < |rules| ==> r[k] == rules[k];
  }

  /** "Remove": rule `index` is deleted and the others keep their order.
      The trees inspector removes the rule object itself; rule objects are
      distinct references, so that is the rule at `index`. */
  function RemoveRule<R>(rules: seq<R>, index: nat): (r: seq<R>)
    requires index < |rules|
    ensures |r| == |rules| - 1
    ensures r == rules[..index] + rules[index + 1..]
    ensures multiset(r) + multiset{rules[index]} == multiset(rules)
  {
    ArrayEx.RemoveMultiset(rules, index);
    ArrayEx.Remove(rules, index)
  }

  /** "Add Rule" in the splat inspector: a fresh default rule goes last,
      and removing it again gives back the list. */
  function AddSplatRule(rules: seq<SplatRule>): (r: seq<SplatRule>)
    ensures |r| == |rules| + 1 && r[..|rules|] == rules && r[|rules|] == NewSplatRule()
    ensures RemoveRule(r, |rules|) == rules
  {
    AppendThenRemove(rules, NewSplatRule());
    rules + [NewSplatRule()]
  }

  /** "Add Rule" in the details inspector. */
  function AddDetailRule(rules: seq<DetailRule>): (r: seq<DetailRule>)
    ensures |r| == |rules| + 1 && r[..|rules|] == rules && r[|rules|] == NewDetailRule()
    ensures RemoveRule(r, |rules|) == rules
  {
    AppendThenRemove(rules, NewDetailRule());
    rules + [NewDetailRule()]
  }

  /** "Add Rule" in the trees inspector. */
  function AddTreeRule(rules: seq<TreeRule>): (r: seq<TreeRule>)
    ensures |r| == |rules| + 1 && r[..|rules|] == rules && r[|rules|] == NewTreeRule()
    ensures RemoveRule(r, |rules|) == rules
  {
    AppendThenRemove(rules, NewTreeRule());
    rules + [NewTreeRule()]
  }

  /** Removing the last rule undoes appending it. */
  lemma AppendThenRemove<R>(rules: seq<R>, rule: R)
    ensures RemoveRule(rules + [rule], |rules|) == rules
  {
    assert (rules + [rule])[..|rules|] == rules;
  }

  /** "Clone" on tree rule `ruleIndex`: the copy is inserted at
      `ruleIndex`, so the original moves to `ruleIndex + 1`. */
  function CloneRule(rules: seq<TreeRule>, ruleIndex: nat): (r: seq<TreeRule>)
    requires ruleIndex < |rules|
    ensures |r| == |rules| + 1
    ensures r[ruleIndex] == Clone(rules[ruleIndex]) && r[ruleIndex + 1] == rules[ruleIndex]
    ensures r[..ruleIndex] == rules[..ruleIndex] && r[ruleIndex + 1..] == rules[ruleIndex..]
  {
    ArrayEx.Insert(rules, ruleIndex, Clone(rules[ruleIndex]))
  }

  /** Removing a fresh clone restores the rule list. */
  lemma CloneThenRemove(rules: seq<TreeRule>, ruleIndex: nat)
    requires ruleIndex < |rules|
    ensures RemoveRule(CloneRule(rules, ruleIndex), ruleIndex) == rules
  {
    ArrayEx.RemoveInsert(rules, ruleIndex, Clone(rules[ruleIndex]));
  }
}
