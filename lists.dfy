/**
 * A .NET List<T> (a growable sequence updated in place), and the meaning of
 * the two list operations the collection extensions perform: swap-with-last
 * removal and grouping by a computed key.
 */
module Lists {
  class List<T> {
    var items: seq<T>

    constructor (items: seq<T>)
      ensures this.items == items
    {
      this.items := items;
    }

    function Count(): nat
      reads this
    {
      |items|
    }

    /** List.RemoveAt: the element at index goes, later ones move down. */
    method RemoveAt(index: int)
      requires 0 <= index < |items|
      modifies this
      ensures items == old(items[..index] + items[index + 1..])
    {
      items := items[..index] + items[index + 1..];
    }

    /** The indexer setter. */
    method SetAt(index: int, value: T)
      requires 0 <= index < |items|
      modifies this
      ensures items == old(items[index := value])
    {
      items := items[index := value];
    }

    method Add(value: T)
      modifies this
      ensures items == old(items) + [value]
    {
      items := items + [value];
    }
  }

  // ---------------------------------------------------------------------
  // Swap-with-last removal
  // ---------------------------------------------------------------------

  /**
   * The list after removing position `index` by moving the last element
   * into it; an index outside the list leaves it as it is.
   */
  function FastRemoved<T>(s: seq<T>, index: int): seq<T> {
    var last := |s| - 1;
    if 0 <= index == last then s[..last]
    else if 0 <= index < last then s[..index] + [s[last]] + s[index + 1..last]
    else s
  }

  /** Removing the last position drops it and keeps the prefix. */
  lemma FastRemovedLast<T>(s: seq<T>)
    requires s != []
    ensures FastRemoved(s, |s| - 1) == s[..|s| - 1]
  {
  }

  /**
   * Removing an inner position puts the old last element there, shrinks
   * the list by one and keeps every other position.
   */
  lemma FastRemovedInner<T>(s: seq<T>, index: int)
    requires 0 <= index < |s| - 1
    ensures |FastRemoved(s, index)| == |s| - 1
    ensures FastRemoved(s, index)[index] == s[|s| - 1]
    ensures forall i :: 0 <= i < |s| - 1 && i != index ==> FastRemoved(s, index)[i] == s[i]
  {
  }

  /** A negative index, or one past the last position, changes nothing. */
  lemma FastRemovedOutside<T>(s: seq<T>, index: int)
    requires index < 0 || index >= |s|
    ensures FastRemoved(s, index) == s
  {
  }

  /** Exactly one occurrence of the removed element leaves the multiset. */
  lemma FastRemovedMultiset<T>(s: seq<T>, index: int)
    requires 0 <= index < |s|
    ensures multiset(FastRemoved(s, index)) == multiset(s) - multiset{s[index]}
  {
    if index == |s| - 1 {
      DropLastMultiset(s);
    } else {
      var before, middle, last := s[..index], s[index + 1..|s| - 1], s[|s| - 1];
      assert FastRemoved(s, index) == before + [last] + middle;
      assert s == before + [s[index]] + middle + [last];
      MoveLastMultiset(before, s[index], middle, last);
    }
  }

  lemma DropLastMultiset<T>(s: seq<T>)
    requires s != []
    ensures multiset(s[..|s| - 1]) == multiset(s) - multiset{s[|s| - 1]}
  {
    assert s == s[..|s| - 1] + [s[|s| - 1]];
  }

  /** Moving the last element into the hole of `x` removes one `x`. */
  lemma MoveLastMultiset<T>(before: seq<T>, x: T, middle: seq<T>, last: T)
    ensures multiset(before + [last] + middle)
      == multiset(before + [x] + middle + [last]) - multiset{x}
  {
    assert multiset(before + [x] + middle + [last])
      == multiset(before) + multiset{x} + multiset(middle) + multiset{last};
    assert multiset(before + [last] + middle) == multiset(before) + multiset{last} + multiset(middle);
  }

  // ---------------------------------------------------------------------
  // Grouping by a computed key
  // ---------------------------------------------------------------------

  /** The items of `values` whose key is `key`, in input order. */
  function Filter<K(==), V>(values: seq<V>, calcKey: V -> K, key: K): seq<V> {
    if values == [] then []
    else
      var rest, x := values[..|values| - 1], values[|values| - 1];
      Filter(rest, calcKey, key) + if calcKey(x) == key then [x] else []
  }

  /** The keys of the items: the image of `calcKey` on `values`. */
  function KeysOf<K(==), V>(values: seq<V>, calcKey: V -> K): set<K> {
    set i | 0 <= i < |values| :: calcKey(values[i])
  }

  /** The grouping: each key of an item, mapped to the items with that key. */
  function Grouped<K(==), V>(values: seq<V>, calcKey: V -> K): map<K, seq<V>> {
    map k | k in KeysOf(values, calcKey) :: Filter(values, calcKey, k)
  }

  /** One more item is appended to the group of its key, created if new. */
  lemma GroupedSnoc<K, V>(values: seq<V>, calcKey: V -> K, x: V)
    ensures var g, key := Grouped(values, calcKey), calcKey(x);
      Grouped(values + [x], calcKey)
        == g[key := (if key in g then g[key] else []) + [x]]
  {
    var all := values + [x];
    assert all[..|all| - 1] == values;
    var g, key := Grouped(values, calcKey), calcKey(x);
    assert KeysOf(all, calcKey) == KeysOf(values, calcKey) + {key} by {
      forall k | k in KeysOf(all, calcKey)
        ensures k in KeysOf(values, calcKey) + {key}
      {
        var i :| 0 <= i < |all| && calcKey(all[i]) == k;
        if i < |values| {
          assert calcKey(values[i]) == k;
        }
      }
      forall k | k in KeysOf(values, calcKey)
        ensures k in KeysOf(all, calcKey)
      {
        var i :| 0 <= i < |values| && calcKey(values[i]) == k;
        assert all[i] == values[i];
      }
      assert calcKey(all[|values|]) == key;
    }
    if key !in g {
      FilterEmpty(values, calcKey, key);
    }
    var lhs, rhs := Grouped(all, calcKey), g[key := (if key in g then g[key] else []) + [x]];
    assert lhs.Keys == rhs.Keys;
    forall k | k in lhs
      ensures lhs[k] == rhs[k]
    {
      if k == key {
        assert lhs[k] == Filter(values, calcKey, key) + [x];
      } else {
        assert lhs[k] == Filter(values, calcKey, k);
      }
    }
    assert lhs == rhs;
  }

  /** A key no item has selects nothing. */
  lemma {:induction false} FilterEmpty<K, V>(values: seq<V>, calcKey: V -> K, key: K)
    requires key !in KeysOf(values, calcKey)
    ensures Filter(values, calcKey, key) == []
  {
    if values != [] {
      var rest := values[..|values| - 1];
      assert KeysOf(rest, calcKey) <= KeysOf(values, calcKey) by {
        forall k | k in KeysOf(rest, calcKey)
          ensures k in KeysOf(values, calcKey)
        {
          var i :| 0 <= i < |rest| && calcKey(rest[i]) == k;
          assert values[i] == rest[i];
        }
      }
      assert calcKey(values[|values| - 1]) in KeysOf(values, calcKey);
      FilterEmpty(rest, calcKey, key);
    }
  }

  /** The items in a group are exactly the input items with that key. */
  lemma {:induction false} FilterMember<K, V>(values: seq<V>, calcKey: V -> K, key: K, v: V)
    ensures v in Filter(values, calcKey, key) <==> v in values && calcKey(v) == key
  {
    if values != [] {
      var rest := values[..|values| - 1];
      FilterMember(rest, calcKey, key, v);
      assert values == rest + [values[|values| - 1]];
    }
  }

  /** Every group is non-empty, and each item is in the group of its key and no other. */
  lemma GroupedGroups<K, V>(values: seq<V>, calcKey: V -> K)
    ensures Grouped(values, calcKey).Keys == KeysOf(values, calcKey)
    ensures forall k :: k in Grouped(values, calcKey) ==> Grouped(values, calcKey)[k] != []
    ensures forall k, v :: k in Grouped(values, calcKey) && v in Grouped(values, calcKey)[k] ==>
              v in values && calcKey(v) == k
    ensures forall i :: 0 <= i < |values| ==> values[i] in Grouped(values, calcKey)[calcKey(values[i])]
  {
    forall k | k in KeysOf(values, calcKey)
      ensures Grouped(values, calcKey)[k] == Filter(values, calcKey, k) != []
    {
      var i :| 0 <= i < |values| && calcKey(values[i]) == k;
      FilterMember(values, calcKey, k, values[i]);
    }
    forall k, v | k in Grouped(values, calcKey) && v in Grouped(values, calcKey)[k]
      ensures v in values && calcKey(v) == k
    {
      FilterMember(values, calcKey, k, v);
    }
    forall i | 0 <= i < |values|
      ensures values[i] in Grouped(values, calcKey)[calcKey(values[i])]
    {
      var k := calcKey(values[i]);
      assert k in KeysOf(values, calcKey);
      FilterMember(values, calcKey, k, values[i]);
    }
  }

  /** The total length of the groups of the keys in ks. */
  function GroupSizes<K(==), V>(values: seq<V>, calcKey: V -> K, ks: seq<K>): nat {
    if ks == [] then 0 else |Filter(values, calcKey, ks[0])| + GroupSizes(values, calcKey, ks[1..])
  }

  /** How many times k occurs in ks. */
  function Occurrences<K(==)>(ks: seq<K>, k: K): nat {
    if ks == [] then 0 else (if ks[0] == k then 1 else 0) + Occurrences(ks[1..], k)
  }

  lemma {:induction false} GroupSizesSnoc<K, V>(values: seq<V>, calcKey: V -> K, ks: seq<K>, x: V)
    ensures GroupSizes(values + [x], calcKey, ks)
      == GroupSizes(values, calcKey, ks) + Occurrences(ks, calcKey(x))
  {
    if ks != [] {
      GroupSizesSnoc(values, calcKey, ks[1..], x);
      assert (values + [x])[..|values + [x]| - 1] == values;
    }
  }

  lemma {:induction false} OccursOnce<K>(ks: seq<K>, k: K)
    requires forall i, j :: 0 <= i < j < |ks| ==> ks[i] != ks[j]
    requires k in ks
    ensures Occurrences(ks, k) == 1
  {
    if ks[0] == k {
      OccursNot(ks[1..], k);
    } else {
      OccursOnce(ks[1..], k);
    }
  }

  lemma {:induction false} OccursNot<K>(ks: seq<K>, k: K)
    requires k !in ks
    ensures Occurrences(ks, k) == 0
  {
    if ks != [] {
      OccursNot(ks[1..], k);
    }
  }

  /**
   * Listing every key of the grouping once, the group sizes add up to the
   * number of input items: nothing is lost or duplicated.
   */
  lemma {:induction false} GroupedTotal<K, V>(values: seq<V>, calcKey: V -> K, ks: seq<K>)
    requires forall i, j :: 0 <= i < j < |ks| ==> ks[i] != ks[j]
    requires KeysOf(values, calcKey) <= set k | k in ks
    ensures GroupSizes(values, calcKey, ks) == |values|
  {
    if values == [] {
      GroupSizesOfNothing(calcKey, ks);
    } else {
      var rest, x := values[..|values| - 1], values[|values| - 1];
      assert KeysOf(rest, calcKey) <= KeysOf(values, calcKey) by {
        forall k | k in KeysOf(rest, calcKey)
          ensures k in KeysOf(values, calcKey)
        {
          var i :| 0 <= i < |rest| && calcKey(rest[i]) == k;
          assert values[i] == rest[i];
        }
      }
      GroupedTotal(rest, calcKey, ks);
      assert values == rest + [x];
      GroupSizesSnoc(rest, calcKey, ks, x);
      assert calcKey(x) in KeysOf(values, calcKey) by {
        assert calcKey(values[|values| - 1]) == calcKey(x);
      }
      OccursOnce(ks, calcKey(x));
    }
  }

  lemma {:induction false} GroupSizesOfNothing<K, V>(calcKey: V -> K, ks: seq<K>)
    ensures GroupSizes([], calcKey, ks) == 0
  {
    if ks != [] {
      GroupSizesOfNothing(calcKey, ks[1..]);
    }
  }
}
