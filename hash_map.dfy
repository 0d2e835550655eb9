/**
 * HashMap: a dictionary with nullable values whose indexer getter answers
 * the default for an absent key. A value type with null is any `V`; the
 * default of it is the parameter `zero`.
 */
module HashMap {
  class HashMap<K(==), V> {
    var entries: map<K, V>

    constructor ()
      ensures entries == map[]
    {
      entries := map[];
    }

    /** The indexer getter: the stored value, or `zero`; nothing is inserted. */
    function Get(key: K, zero: V): (r: V)
      reads this
      ensures key in entries ==> r == entries[key]
      ensures key !in entries ==> r == zero
    {
      if key in entries then entries[key] else zero
    }

    /**
     * The indexer setter: stores the value, overwriting an existing one;
     * every other key reads as before.
     */
    method Set(key: K, value: V)
      modifies this
      ensures entries == old(entries)[key := value]
      ensures forall k :: k != key && k in old(entries) ==> k in entries && entries[k] == old(entries[k])
    {
      entries := entries[key := value];
    }
  }

  /** Set then get returns the value set, even over an earlier value. */
  method SetThenGet<K, V>(m: HashMap<K, V>, key: K, earlier: V, value: V, zero: V)
      returns (r: V)
    modifies m
    ensures r == value
  {
    m.Set(key, earlier);
    m.Set(key, value);
    r := m.Get(key, zero);
  }
}
