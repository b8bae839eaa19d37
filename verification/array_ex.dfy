/** `ArrayEx`: copy-on-write splices of an array.  Both operations build a
    new array and never touch their source; with sequences as values that is
    automatic, so only the index arithmetic is stated. */
module ArrayEx {

  /** The array without the element at `index`: the prefix stays in place and
      the suffix after `index` moves one slot to the left. */
  function Remove<T>(source: seq<T>, index: int): (r: seq<T>)
    requires 0 <= index < |source|
    ensures |r| == |source| - 1
    ensures forall k :: 0 <= k < index ==> r[k] == source[k]
    ensures forall k :: index <= k < |r| ==> r[k] == source[k + 1]
  {
    source[..index] + source[index + 1..]
  }

  /** The array with `element` placed at `index`: the prefix stays in place
      and the old suffix from `index` on moves one slot to the right. */
  function Insert<T>(source: seq<T>, index: int, element: T): (r: seq<T>)
    requires 0 <= index <= |source|
    ensures |r| == |source| + 1
    ensures r[index] == element
    ensures forall k :: 0 <= k < index ==> r[k] == source[k]
    ensures forall k :: index < k < |r| ==> r[k] == source[k - 1]
  {
    source[..index] + [element] + source[index..]
  }

  /** Removing what was just inserted gives back the original array. */
  lemma RemoveInsert<T>(source: seq<T>, index: int, element: T)
    requires 0 <= index <= |source|
    ensures Remove(Insert(source, index, element), index) == source
  {
    var r := Remove(Insert(source, index, element), index);
    assert forall k :: 0 <= k < |source| ==> r[k] == source[k];
  }

  /** Re-inserting a removed element at its old place gives back the original array. */
  lemma InsertRemove<T>(source: seq<T>, index: int)
    requires 0 <= index < |source|
    ensures Insert(Remove(source, index), index, source[index]) == source
  {
    var r := Insert(Remove(source, index), index, source[index]);
    assert forall k :: 0 <= k < |source| ==> r[k] == source[k];
  }

  /** Removal takes exactly one occurrence of the removed element away. */
  lemma RemoveMultiset<T>(source: seq<T>, index: int)
    requires 0 <= index < |source|
    ensures multiset(Remove(source, index)) + multiset{source[index]} == multiset(source)
  {
    assert source == source[..index] + [source[index]] + source[index + 1..];
  }
}
