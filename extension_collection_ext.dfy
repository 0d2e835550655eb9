/**
 * CollectionExt (the copy under Extension/): the emptiness check for a
 * nullable list, swap-with-last removal, removal of the last element and
 * grouping by a computed key.
 */
module ExtensionCollectionExt {
  import opened Common
  import opened Lists
  import opened DkHashMap
  import CollectionExt

  /** A list is empty when it is null or holds no element. */
  function IsEmptyDk<T>(list: List?<T>): (r: bool)
    reads list
    ensures r <==> list == null || list.items == []
  {
    list == null || list.Count() == 0
  }

  /** The same answer as the list check in the top-level CollectionExt. */
  lemma IsEmptyAgrees<T>(list: List?<T>)
    ensures IsEmptyDk(list) == CollectionExt.IsEmptyDk(list)
  {
  }

  /**
   * Removes position `index` by moving the last element into it; an index
   * outside the list changes nothing.
   */
  method FastRemoveDk<T>(list: List<T>, index: int)
    modifies list
    ensures list.items == FastRemoved(old(list.items), index)
  {
    var lastIndex := list.Count() - 1;
    if index >= 0 {
      if index == lastIndex {
        list.RemoveAt(index);
      } else if index < lastIndex {
        list.SetAt(index, list.items[lastIndex]);
        list.RemoveAt(lastIndex);
      }
    }
  }

  /**
   * Removes and returns the last element. On an empty list the index
   * `^1` is out of range: the list is unchanged and the result an error.
   */
  method RemoveLastDk<T>(list: List<T>) returns (r: Result<T>)
    modifies list
    ensures r.Err? <==> old(list.items) == []
    ensures r.Err? ==> r.error == ArgumentOutOfRange && list.items == old(list.items)
    ensures r.Ok? ==>
      var n := |old(list.items)|;
      r.value == old(list.items)[n - 1] && list.items == old(list.items)[..n - 1]
  {
    if list.Count() == 0 {
      return Err(ArgumentOutOfRange);
    }
    var last := list.items[list.Count() - 1];
    list.RemoveAt(list.Count() - 1);
    return Ok(last);
  }

  /** The items of `values` grouped by `calcKey`, each group in input order. */
  method GroupByDk<K(==), V>(values: seq<V>, calcKey: V -> K) returns (key2values: DkHashMap<K, seq<V>>)
    ensures fresh(key2values)
    ensures key2values.entries == Grouped(values, calcKey)
  {
    key2values := new DkHashMap<K, seq<V>>();
    for i := 0 to |values|
      invariant key2values.entries == Grouped(values[..i], calcKey)
    {
      var item := values[i];
      var key := calcKey(item);
      GroupedSnoc(values[..i], calcKey, item);
      assert values[..i + 1] == values[..i] + [item];
      if key in key2values.entries {
        key2values.Set(key, key2values.entries[key] + [item]);
      } else {
        assert [] + [item] == [item];
        key2values.Set(key, [item]);
      }
    }
    assert values[..|values|] == values;
  }
}
