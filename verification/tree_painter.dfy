/** `TerrainTreesPainterEditor.Apply` / `ApplyAll`: the tree painter.  As
    written it filters the terrain's tree instances with `Common.RemoveAll`
    and then only computes (and logs) the area of every polygon of the
    rules for the painted prototype; it places no trees. */
module TreePainting {
  import opened Vectors
  import opened Wrappers
  import opened Polygons
  import opened Common
  import opened Rules

  /** One placed tree: its position, scales and prototype. */
  datatype TreeInstance = TreeInstance(position: Vector3, widthScale: real, heightScale: real, prototypeIndex: int)

  /** What one painting run leaves: the terrain's new instance list, the
      polygon areas it logged, in order, and whether it `failed` because an
      empty (null) area slot made `CalculateAreaSize` throw.  The instance
      list is replaced before any area is computed, so a failed run has
      already filtered the trees. */
  datatype TreePaint = TreePaint(instances: seq<TreeInstance>, logged: seq<real>, failed: bool)

  /** Every area slot of every rule for prototype `t` holds a polygon; an
      empty slot makes `CalculateAreaSize` dereference null. */
  predicate AreasPresent(rules: seq<TreeRule>, t: int) {
    forall k, a :: 0 <= k < |rules| && rules[k].treeIndex == t && 0 <= a < |rules[k].areaPolygons| ==>
      rules[k].areaPolygons[a].Some?
  }

  /** The area of every slot, in slot order. */
  function SlotAreas(slots: seq<Option<AreaPolygon>>): (r: seq<real>)
    requires forall a :: 0 <= a < |slots| ==> slots[a].Some?
    ensures |r| == |slots|
    ensures forall a :: 0 <= a < |slots| ==> r[a] == AreaSize(slots[a].value.points)
  {
    seq(|slots|, a requires 0 <= a < |slots| => AreaSize(slots[a].value.points))
  }

  /** The areas the loop over `rules.Where(r => r.TreeIndex == t)` logs. */
  function LoggedAreas(rules: seq<TreeRule>, t: int): (r: seq<real>)
    requires AreasPresent(rules, t)
  {
    if |rules| == 0 then []
    else
      assert AreasPresent(rules[1..], t) by {
        forall k, a | 0 <= k < |rules[1..]| && rules[1..][k].treeIndex == t && 0 <= a < |rules[1..][k].areaPolygons|
          ensures rules[1..][k].areaPolygons[a].Some?
        {
          assert rules[1..][k] == rules[k + 1];
        }
      }
      var rest := LoggedAreas(rules[1..], t);
      if rules[0].treeIndex == t then SlotAreas(rules[0].areaPolygons) + rest else rest
  }

  /** Only the rules for prototype `t` contribute to the log, in their
      order: the log is the same for the rules filtered down to `t`. */
  lemma {:induction false} LoggedAreasOnlyFromTarget(rules: seq<TreeRule>, t: int)
    requires AreasPresent(rules, t)
    ensures AreasPresent(RemoveAll(rules, (r: TreeRule) => r.treeIndex == t), t)
    ensures LoggedAreas(rules, t) == LoggedAreas(RemoveAll(rules, (r: TreeRule) => r.treeIndex == t), t)
    decreases |rules|
  {
    var test := (r: TreeRule) => r.treeIndex == t;
    var kept := RemoveAll(rules, test);
    assert AreasPresent(kept, t) by {
      forall k, a | 0 <= k < |kept| && kept[k].treeIndex == t && 0 <= a < |kept[k].areaPolygons|
        ensures kept[k].areaPolygons[a].Some?
      {
        assert kept[k] in multiset(kept);
        assert kept[k] in multiset(rules);
        var i :| 0 <= i < |rules| && rules[i] == kept[k];
      }
    }
    if |rules| > 0 {
      assert AreasPresent(rules[1..], t) by {
        forall k, a | 0 <= k < |rules[1..]| && rules[1..][k].treeIndex == t && 0 <= a < |rules[1..][k].areaPolygons|
          ensures rules[1..][k].areaPolygons[a].Some?
        {
          assert rules[1..][k] == rules[k + 1];
        }
      }
      LoggedAreasOnlyFromTarget(rules[1..], t);
      var rest := RemoveAll(rules[1..], test);
      if rules[0].treeIndex == t {
        assert kept == [rules[0]] + rest;
        assert kept[1..] == rest;
      } else {
        assert kept == rest;
      }
    }
  }

  /** With no rule for prototype `t` nothing is logged. */
  lemma {:induction false} NoRuleLogsNothing(rules: seq<TreeRule>, t: int)
    requires forall k :: 0 <= k < |rules| ==> rules[k].treeIndex != t
    ensures AreasPresent(rules, t)
    ensures LoggedAreas(rules, t) == []
    decreases |rules|
  {
    if |rules| > 0 {
      NoRuleLogsNothing(rules[1..], t);
    }
  }

  /** The area loop over one rule's slots: the areas of the slots before
      the first empty one, and whether an empty slot stopped it. */
  function SlotsRun(slots: seq<Option<AreaPolygon>>): (r: (seq<real>, bool))
    ensures |r.0| <= |slots|
    ensures forall a :: 0 <= a < |r.0| ==> slots[a].Some? && r.0[a] == AreaSize(slots[a].value.points)
    ensures r.1 <==> |r.0| < |slots|
    ensures r.1 ==> slots[|r.0|].None?
  {
    if |slots| == 0 then ([], false)
    else if slots[0].None? then ([], true)
    else
      var rest := SlotsRun(slots[1..]);
      var areas := [AreaSize(slots[0].value.points)] + rest.0;
      assert forall a :: 1 <= a < |areas| ==> areas[a] == rest.0[a - 1] && slots[a] == slots[1..][a - 1];
      (areas, rest.1)
  }

  /** `AreasPresent` splits into the first rule and the rest. */
  lemma AreasPresentCons(rules: seq<TreeRule>, t: int)
    requires |rules| > 0
    ensures AreasPresent(rules, t) <==>
      && (rules[0].treeIndex == t ==> forall a :: 0 <= a < |rules[0].areaPolygons| ==> rules[0].areaPolygons[a].Some?)
      && AreasPresent(rules[1..], t)
  {
    if AreasPresent(rules[1..], t) {
      forall k, a | 1 <= k < |rules| && rules[k].treeIndex == t && 0 <= a < |rules[k].areaPolygons|
        ensures rules[k].areaPolygons[a].Some?
      {
        assert rules[k] == rules[1..][k - 1];
      }
    }
    if AreasPresent(rules, t) {
      forall k, a | 0 <= k < |rules[1..]| && rules[1..][k].treeIndex == t && 0 <= a < |rules[1..][k].areaPolygons|
        ensures rules[1..][k].areaPolygons[a].Some?
      {
        assert rules[1..][k] == rules[k + 1];
      }
    }
  }

  /** The source's loop over `rules.Where(r => r.TreeIndex == t)` and their
      slots, stopping at the first empty slot: it fails exactly when some
      rule for `t` has an empty slot, and otherwise logs `LoggedAreas`. */
  function LogRun(rules: seq<TreeRule>, t: int): (r: (seq<real>, bool))
    ensures !r.1 <==> AreasPresent(rules, t)
    ensures !r.1 ==> r.0 == LoggedAreas(rules, t)
  {
    if |rules| == 0 then ([], false)
    else
      AreasPresentCons(rules, t);
      if rules[0].treeIndex != t then LogRun(rules[1..], t)
      else
        var own := SlotsRun(rules[0].areaPolygons);
        if own.1 then own
        else
          var rest := LogRun(rules[1..], t);
          assert own.0 == SlotAreas(rules[0].areaPolygons);
          (own.0 + rest.0, rest.1)
  }

  /** The test `i => i.prototypeIndex == t`. */
  function OfPrototype(t: int): TreeInstance -> bool {
    (i: TreeInstance) => i.prototypeIndex == t
  }

  // ---------------------------------------------------------------------
  // As written
  // ---------------------------------------------------------------------

  /** `Apply(t)` as written: the keep-filter `RemoveAll` leaves exactly the
      instances OF prototype `t`, in their order, and nothing is added; the
      instance list is replaced whether or not the area loop then fails. */
  function ApplyAsWritten(instances: seq<TreeInstance>, rules: seq<TreeRule>, t: int): (r: TreePaint)
    ensures forall k :: 0 <= k < |r.instances| ==> r.instances[k].prototypeIndex == t
    ensures forall i | i in instances :: multiset(r.instances)[i] == if i.prototypeIndex == t then multiset(instances)[i] else 0
    ensures multiset(r.instances) <= multiset(instances)
    ensures r.failed <==> !AreasPresent(rules, t)
    ensures !r.failed ==> r.logged == LoggedAreas(rules, t)
  {
    var log := LogRun(rules, t);
    TreePaint(RemoveAll(instances, OfPrototype(t)), log.0, log.1)
  }

  /** `ApplyAll` as written: `Apply(t)` for every prototype `t` in turn,
      from `t` up to `prototypes - 1`, logs concatenated; a failing step
      ends the loop with its instance list already replaced.  Every
      surviving tree is of prototype `t`, the first one painted. */
  function ApplyAllAsWrittenFrom(instances: seq<TreeInstance>, rules: seq<TreeRule>, t: nat, prototypes: nat): (r: TreePaint)
    decreases prototypes - t
    ensures multiset(r.instances) <= multiset(instances)
    ensures t < prototypes ==> forall k :: 0 <= k < |r.instances| ==> r.instances[k].prototypeIndex == t
    ensures !r.failed <==> forall u :: t <= u < prototypes ==> AreasPresent(rules, u)
  {
    if t >= prototypes then TreePaint(instances, [], false)
    else
      var step := ApplyAsWritten(instances, rules, t);
      if step.failed then step
      else
        var rest := ApplyAllAsWrittenFrom(step.instances, rules, t + 1, prototypes);
        assert forall k :: 0 <= k < |rest.instances| ==> rest.instances[k] in multiset(step.instances);
        TreePaint(rest.instances, step.logged + rest.logged, rest.failed)
  }

  function ApplyAllAsWritten(instances: seq<TreeInstance>, rules: seq<TreeRule>, prototypes: nat): TreePaint {
    ApplyAllAsWrittenFrom(instances, rules, 0, prototypes)
  }

  /** With at least two prototypes, and prototype 0's rules free of empty
      slots, `ApplyAll` as written deletes every tree: the first step keeps
      only prototype 0 and everything after keeps only prototype 1 of
      those, which is none. */
  lemma ApplyAllAsWrittenClearsEverything(instances: seq<TreeInstance>, rules: seq<TreeRule>, prototypes: nat)
    requires prototypes >= 2
    requires AreasPresent(rules, 0)
    ensures ApplyAllAsWritten(instances, rules, prototypes).instances == []
  {
    var step := ApplyAsWritten(instances, rules, 0);
    var rest := ApplyAllAsWrittenFrom(step.instances, rules, 1, prototypes);
    assert ApplyAllAsWritten(instances, rules, prototypes).instances == rest.instances;
  }

  /** The discrepancy on a concrete input: painting prototype 0 over one
      tree of prototype 0 and one of prototype 1 deletes the prototype-1
      tree and keeps the prototype-0 tree it was meant to clear. */
  lemma ApplyAsWrittenCounterexample()
    ensures var a := TreeInstance(Zero, 1.0, 1.0, 0);
      var b := TreeInstance(Zero, 1.0, 1.0, 1);
      ApplyAsWritten([a, b], [], 0).instances == [a]
  {
    var a := TreeInstance(Zero, 1.0, 1.0, 0);
    var b := TreeInstance(Zero, 1.0, 1.0, 1);
    var test := OfPrototype(0);
    assert [a, b][1..] == [b];
    assert [b][1..] == [];
    assert RemoveAll([b], test) == [] + RemoveAll([], test);
  }

  /** A freshly added rule has an empty slot, so painting with it fails;
      but the keep-filter has already run, and `ApplyAll` stops at that
      first failure with the prototype-1 tree already gone. */
  lemma FreshRuleFailsAfterFiltering()
    ensures var a := TreeInstance(Zero, 1.0, 1.0, 0);
      var b := TreeInstance(Zero, 1.0, 1.0, 1);
      && ApplyAsWritten([a, b], AddTreeRule([]), 0) == TreePaint([a], [], true)
      && ApplyAllAsWritten([a, b], AddTreeRule([]), 2) == TreePaint([a], [], true)
  {
    var a := TreeInstance(Zero, 1.0, 1.0, 0);
    var b := TreeInstance(Zero, 1.0, 1.0, 1);
    var rules := AddTreeRule([]);
    assert rules == [NewTreeRule()];
    ApplyAsWrittenCounterexample();
    assert SlotsRun(rules[0].areaPolygons) == ([], true);
    assert LogRun(rules, 0) == ([], true);
  }

  // ---------------------------------------------------------------------
  // Corrected
  // ---------------------------------------------------------------------

  /** `Apply(t)` as intended: clears the instances of prototype `t` and
      keeps every other instance, in order; the area loop is unchanged. */
  function Apply(instances: seq<TreeInstance>, rules: seq<TreeRule>, t: int): (r: TreePaint)
    ensures forall k :: 0 <= k < |r.instances| ==> r.instances[k].prototypeIndex != t
    ensures forall i | i in instances :: multiset(r.instances)[i] == if i.prototypeIndex == t then 0 else multiset(instances)[i]
    ensures multiset(r.instances) <= multiset(instances)
    ensures r.failed <==> !AreasPresent(rules, t)
    ensures !r.failed ==> r.logged == LoggedAreas(rules, t)
  {
    var log := LogRun(rules, t);
    TreePaint(RemoveWhere(instances, OfPrototype(t)), log.0, log.1)
  }

  /** Repainting the same prototype twice is the same as once. */
  lemma ApplyIdempotent(instances: seq<TreeInstance>, rules: seq<TreeRule>, t: int)
    ensures Apply(Apply(instances, rules, t).instances, rules, t) == Apply(instances, rules, t)
  {
    RemoveWhereIdempotent(instances, OfPrototype(t));
  }

  /** Painting keeps the relative order of the surviving instances: it
      distributes over concatenation. */
  lemma ApplyKeepsOrder(a: seq<TreeInstance>, b: seq<TreeInstance>, rules: seq<TreeRule>, t: int)
    ensures Apply(a + b, rules, t).instances == Apply(a, rules, t).instances + Apply(b, rules, t).instances
  {
    RemoveWhereAppend(a, b, OfPrototype(t));
  }

  /** The prototypes `ApplyAll` paints from `t` on, as the range
      `[t, Cleared(...))`: every one up to and including the first whose
      rules hold an empty slot, or all of them. */
  function Cleared(rules: seq<TreeRule>, t: nat, prototypes: nat): (c: nat)
    decreases prototypes - t
    ensures t <= c
    ensures t < prototypes ==> t < c <= prototypes
    ensures (forall u :: t <= u < prototypes ==> AreasPresent(rules, u)) ==> c == if t < prototypes then prototypes else t
  {
    if t >= prototypes then t
    else if !AreasPresent(rules, t) then t + 1
    else Cleared(rules, t + 1, prototypes)
  }

  /** `ApplyAll` as intended, from prototype `t` on. */
  function ApplyAllFrom(instances: seq<TreeInstance>, rules: seq<TreeRule>, t: nat, prototypes: nat): (r: TreePaint)
    decreases prototypes - t
    ensures multiset(r.instances) <= multiset(instances)
    ensures !r.failed <==> forall u :: t <= u < prototypes ==> AreasPresent(rules, u)
    ensures forall i | i in instances ::
      multiset(r.instances)[i] == if t <= i.prototypeIndex < Cleared(rules, t, prototypes) then 0 else multiset(instances)[i]
  {
    if t >= prototypes then TreePaint(instances, [], false)
    else
      var step := Apply(instances, rules, t);
      if step.failed then step
      else
        var rest := ApplyAllFrom(step.instances, rules, t + 1, prototypes);
        TreePaint(rest.instances, step.logged + rest.logged, rest.failed)
  }

  /** `ApplyAll` as intended: every instance of a painted prototype is
      cleared and instances of other prototypes survive with their
      multiplicity; with no empty slot anywhere every prototype is
      painted. */
  function ApplyAll(instances: seq<TreeInstance>, rules: seq<TreeRule>, prototypes: nat): (r: TreePaint)
    ensures !r.failed <==> forall u :: 0 <= u < prototypes ==> AreasPresent(rules, u)
    ensures forall k :: 0 <= k < |r.instances| ==> !(0 <= r.instances[k].prototypeIndex < Cleared(rules, 0, prototypes))
    ensures !r.failed ==> forall k :: 0 <= k < |r.instances| ==> !(0 <= r.instances[k].prototypeIndex < prototypes)
    ensures forall i | i in instances ::
      multiset(r.instances)[i] == if 0 <= i.prototypeIndex < Cleared(rules, 0, prototypes) then 0 else multiset(instances)[i]
  {
    var r := ApplyAllFrom(instances, rules, 0, prototypes);
    assert forall k :: 0 <= k < |r.instances| ==> r.instances[k] in multiset(r.instances);
    r
  }
}
