/**
 * CollectionExt (the copy at the top of the source tree): emptiness checks
 * for a nullable array and a nullable list, swap-with-last removal and
 * grouping by a computed key. The grouping is returned as a DkHashMap whose
 * values are the groups.
 */
module CollectionExt {
  import opened Lists
  import opened DkHashMap

  /** An array is empty when it is null or holds no element. */
  function IsEmptyArrayDk<T>(list: array?<T>): (r: bool)
    reads list
    ensures r <==> list == null || list[..] == []
  {
    list == null || list.Length == 0
  }

  /** A list is empty when it is null or holds no element. */
  function IsEmptyDk<T>(list: List?<T>): (r: bool)
    reads list
    ensures r <==> list == null || list.items == []
  {
    list == null || list.Count() == 0
  }

  /**
   * Removes position `index` by moving the last element into it; an index
   * outside the list changes nothing.
   */
  method FastRemoveDk<T>(list: List<T>, index: int)
    modifies list
    ensures list.items == FastRemoved(old(list.items), index)
  {
    var lastIndex := list.Count() - 1;
    if index >= 0 {
      if index == lastIndex {
        list.RemoveAt(index);
      } else if index < lastIndex {
        list.SetAt(index, list.items[lastIndex]);
        list.RemoveAt(lastIndex);
      }
    }
  }

  /** The items of `values` grouped by `calcKey`, each group in input order. */
  method GroupByDk<K(==), V>(values: seq<V>, calcKey: V -> K) returns (key2values: DkHashMap<K, seq<V>>)
    ensures fresh(key2values)
    ensures key2values.entries == Grouped(values, calcKey)
  {
    key2values := new DkHashMap<K, seq<V>>();
    for i := 0 to |values|
      invariant key2values.entries == Grouped(values[..i], calcKey)
    {
      var item := values[i];
      var key := calcKey(item);
      GroupedSnoc(values[..i], calcKey, item);
      assert values[..i + 1] == values[..i] + [item];
      if key in key2values.entries {
        key2values.Set(key, key2values.entries[key] + [item]);
      } else {
        assert [] + [item] == [item];
        key2values.Set(key, [item]);
      }
    }
    assert values[..|values|] == values;
  }
}
