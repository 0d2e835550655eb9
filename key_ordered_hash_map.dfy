/**
 * DkKeyOrderedHashMap: a dictionary from string keys that also keeps the
 * keys in the order they were added. `keys` is the key list and `entries`
 * the dictionary; both are replaced in place by the methods. The indexer
 * setter writes the dictionary only, so a key stored through it is looked
 * up like any other but never listed or counted.
 */
module KeyOrderedHashMap {
  import opened Common

  /** Distinct keys that all lie in `present` are no more than its size. */
  lemma {:induction false} DistinctKeysFit(keys: seq<string>, present: set<string>)
    ensures
      (forall i, j :: 0 <= i < j < |keys| ==> keys[i] != keys[j]) &&
      (forall i :: 0 <= i < |keys| ==> keys[i] in present)
      ==> |keys| <= |present|
  {
    if keys != [] &&
      (forall i, j :: 0 <= i < j < |keys| ==> keys[i] != keys[j]) &&
      (forall i :: 0 <= i < |keys| ==> keys[i] in present)
    {
      var last := keys[|keys| - 1];
      var rest := keys[..|keys| - 1];
      forall i | 0 <= i < |rest|
        ensures rest[i] in present - {last}
      {
        assert rest[i] == keys[i];
      }
      DistinctKeysFit(rest, present - {last});
    }
  }

  class KeyOrderedHashMap<T> {
    var keys: seq<string>
    var entries: map<string, T>

    /** The key list has no duplicates and every listed key has an entry. */
    ghost predicate Valid()
      reads this
    {
      && (forall i, j :: 0 <= i < j < |keys| ==> keys[i] != keys[j])
      && (forall i :: 0 <= i < |keys| ==> keys[i] in entries)
    }

    constructor ()
      ensures Valid()
      ensures keys == [] && entries == map[]
    {
      keys := [];
      entries := map[];
    }

    /** The indexer getter: the stored value, or KeyNotFound. */
    function Get(key: string): (r: Result<T>)
      reads this
      ensures r.Ok? <==> key in entries
      ensures r.Ok? ==> r.value == entries[key]
      ensures r.Err? ==> r.error == KeyNotFound
    {
      if key in entries then Ok(entries[key]) else Err(KeyNotFound)
    }

    /** The indexer setter: the dictionary only; the key list is untouched. */
    method Set(key: string, value: T)
      requires Valid()
      modifies this
      ensures Valid()
      ensures entries == old(entries)[key := value]
      ensures keys == old(keys)
    {
      entries := entries[key := value];
    }

    /** The stored value, or `zero` (the type's default) when the key is absent. */
    function GetValueOrDefault(key: string, zero: T): (r: T)
      reads this
      ensures key in entries ==> r == entries[key]
      ensures key !in entries ==> r == zero
    {
      if key in entries then entries[key] else zero
    }

    /**
     * Add: a key that already has an entry fails with DuplicateKey before
     * anything changes; a new key is stored and appended to the key order.
     */
    method Add(key: string, value: T) returns (outcome: Outcome)
      requires Valid()
      modifies this
      ensures Valid()
      ensures outcome.Fail? <==> old(key in entries)
      ensures outcome.Fail? ==>
        outcome.error == DuplicateKey && entries == old(entries) && keys == old(keys)
      ensures outcome.Pass? ==>
        entries == old(entries)[key := value] && keys == old(keys) + [key]
    {
      if key in entries {
        return Fail(DuplicateKey);
      }
      entries := entries[key := value];
      keys := keys + [key];
      return Pass;
    }

    /** TryAdd: as Add, reporting a duplicate by returning false. */
    method TryAdd(key: string, value: T) returns (added: bool)
      requires Valid()
      modifies this
      ensures Valid()
      ensures added <==> old(key !in entries)
      ensures !added ==> entries == old(entries) && keys == old(keys)
      ensures added ==> entries == old(entries)[key := value] && keys == old(keys) + [key]
    {
      if key in entries {
        return false;
      }
      entries := entries[key := value];
      keys := keys + [key];
      return true;
    }

    /**
     * Count (and LongCount): the length of the key list; on a valid map
     * never more than the number of dictionary entries.
     */
    function Count(): (n: nat)
      reads this
      ensures n == |keys|
      ensures Valid() ==> n <= |entries.Keys|
    {
      DistinctKeysFit(keys, entries.Keys);
      |keys|
    }

    /** Keys: a fresh array holding the key list, filled from the back. */
    method Keys() returns (arr: array<string>)
      ensures fresh(arr)
      ensures arr.Length == Count()
      ensures arr[..] == keys
    {
      arr := new string[|keys|];
      var index := |keys| - 1;
      while index >= 0
        invariant -1 <= index < |keys|
        invariant forall i :: index < i < |keys| ==> arr[i] == keys[i]
      {
        arr[index] := keys[index];
        index := index - 1;
      }
    }

    method Clear()
      modifies this
      ensures Valid()
      ensures keys == [] && entries == map[]
    {
      entries := map[];
      keys := [];
    }
  }

  /**
   * A value stored through the indexer setter under a new key can be read
   * back, but the key is not counted.
   */
  method IndexerKeyNotCounted<T>(value: T) returns (count: nat, got: Result<T>)
    ensures count == 0 && got == Ok(value)
  {
    var m := new KeyOrderedHashMap<T>();
    m.Set("a", value);
    count := m.Count();
    got := m.Get("a");
  }

  /** After Clear, the getter fails and GetValueOrDefault gives the default. */
  method ClearForgets<T>(m: KeyOrderedHashMap<T>, key: string, zero: T)
      returns (got: Result<T>, orDefault: T)
    requires m.Valid()
    modifies m
    ensures got == Err(KeyNotFound) && orDefault == zero && m.Count() == 0
  {
    m.Clear();
    got := m.Get(key);
    orDefault := m.GetValueOrDefault(key, zero);
  }
}
