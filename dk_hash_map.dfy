/**
 * DkHashMap: a dictionary whose indexer getter answers the default value for
 * an absent key instead of failing, plus GetOrSet. The default of the value
 * type is the parameter `zero`.
 */
module DkHashMap {
  class DkHashMap<K(==), V> {
    var entries: map<K, V>

    constructor ()
      ensures entries == map[]
    {
      entries := map[];
    }

    /** The indexer getter: the stored value, or `zero`; nothing is inserted. */
    function Get(key: K, zero: V): (r: V)
      reads this
      ensures key in entries ==> r == entries[key]
      ensures key !in entries ==> r == zero
    {
      if key in entries then entries[key] else zero
    }

    /** The indexer setter: stores or overwrites one entry. */
    method Set(key: K, value: V)
      modifies this
      ensures entries == old(entries)[key := value]
      ensures forall k :: k != key && k in old(entries) ==> k in entries && entries[k] == old(entries[k])
    {
      entries := entries[key := value];
    }

    /** The stored value; an absent key is first stored with `initValue`. */
    method GetOrSet(key: K, initValue: V) returns (r: V)
      modifies this
      ensures old(key in entries) ==> r == old(entries[key]) && entries == old(entries)
      ensures old(key !in entries) ==> r == initValue && entries == old(entries)[key := initValue]
      ensures key in entries && entries[key] == r
    {
      if key in entries {
        return entries[key];
      }
      entries := entries[key := initValue];
      return initValue;
    }
  }

  /** A second GetOrSet on the same key returns the first one's value. */
  method GetOrSetTwice<K, V>(m: DkHashMap<K, V>, key: K, first: V, second: V)
      returns (a: V, b: V)
    modifies m
    ensures b == a
  {
    a := m.GetOrSet(key, first);
    b := m.GetOrSet(key, second);
  }
}
