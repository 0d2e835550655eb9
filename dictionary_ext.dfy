/**
 * DictionaryExt: bulk upsert and bulk try-add from one dictionary into
 * another. A .NET Dictionary is a class holding a `map`; each method walks
 * the entries of `elements` one key at a time.
 */
module DictionaryExt {
  class Dictionary<K(==), V> {
    var entries: map<K, V>

    constructor (entries: map<K, V>)
      ensures this.entries == entries
    {
      this.entries := entries;
    }
  }

  /** What PutElementsDk leaves in `me`: every pair of `elements` upserted. */
  function Upserted<K, V>(me: map<K, V>, elements: map<K, V>): map<K, V> {
    me + elements
  }

  /** What TryAddElementsDk leaves in `me`: only the keys `me` lacks are added. */
  function TryAdded<K, V>(me: map<K, V>, elements: map<K, V>): map<K, V> {
    elements + me
  }

  /**
   * After an upsert the key set is the union; keys of `elements` take their
   * value there, keys only in `me` keep theirs.
   */
  lemma UpsertedEntries<K, V>(me: map<K, V>, elements: map<K, V>)
    ensures Upserted(me, elements).Keys == me.Keys + elements.Keys
    ensures forall k :: k in elements ==> Upserted(me, elements)[k] == elements[k]
    ensures forall k :: k in me && k !in elements ==> Upserted(me, elements)[k] == me[k]
  {
  }

  /**
   * After a try-add the key set is the union; keys of `me` keep their value,
   * keys only in `elements` take theirs.
   */
  lemma TryAddedEntries<K, V>(me: map<K, V>, elements: map<K, V>)
    ensures TryAdded(me, elements).Keys == me.Keys + elements.Keys
    ensures forall k :: k in me ==> TryAdded(me, elements)[k] == me[k]
    ensures forall k :: k in elements && k !in me ==> TryAdded(me, elements)[k] == elements[k]
  {
  }

  /** Doing either operation a second time changes nothing. */
  lemma Idempotent<K, V>(me: map<K, V>, elements: map<K, V>)
    ensures Upserted(Upserted(me, elements), elements) == Upserted(me, elements)
    ensures TryAdded(TryAdded(me, elements), elements) == TryAdded(me, elements)
  {
  }

  /** The part of `source` whose keys are in `done`. */
  function Restrict<K, V>(source: map<K, V>, done: set<K>): map<K, V> {
    map k | k in source.Keys * done :: source[k]
  }

  lemma RestrictStep<K, V>(me: map<K, V>, source: map<K, V>, done: set<K>, k: K)
    requires k in source
    ensures me + Restrict(source, done + {k}) == (me + Restrict(source, done))[k := source[k]]
    ensures Restrict(source, done + {k}) + me
      == if k in me then Restrict(source, done) + me else (Restrict(source, done) + me)[k := source[k]]
  {
  }

  /**
   * PutElementsDk: `me[key] = value` for each pair of `elements`. The pairs
   * are read from the entries `elements` held on entry.
   */
  method PutElementsDk<K, V>(me: Dictionary<K, V>, elements: Dictionary<K, V>)
    modifies me
    ensures me.entries == Upserted(old(me.entries), old(elements.entries))
    ensures elements.entries == old(elements.entries)
  {
    var source := elements.entries;
    var pending := source.Keys;
    ghost var done: set<K> := {};
    while pending != {}
      invariant pending !! done && pending + done == source.Keys
      invariant me.entries == old(me.entries) + Restrict(source, done)
      invariant me != elements ==> elements.entries == source
      decreases pending
    {
      var key :| key in pending;
      RestrictStep(old(me.entries), source, done, key);
      me.entries := me.entries[key := source[key]];
      pending := pending - {key};
      done := done + {key};
    }
    assert Restrict(source, done) == source;
  }

  /**
   * TryAddElementsDk: `me.TryAdd(key, value)` for each pair of `elements`;
   * a key `me` already has keeps its value.
   */
  method TryAddElementsDk<K, V>(me: Dictionary<K, V>, elements: Dictionary<K, V>)
    modifies me
    ensures me.entries == TryAdded(old(me.entries), old(elements.entries))
    ensures elements.entries == old(elements.entries)
  {
    var source := elements.entries;
    var pending := source.Keys;
    ghost var done: set<K> := {};
    while pending != {}
      invariant pending !! done && pending + done == source.Keys
      invariant me.entries == Restrict(source, done) + old(me.entries)
      invariant me != elements ==> elements.entries == source
      decreases pending
    {
      var key :| key in pending;
      RestrictStep(old(me.entries), source, done, key);
      if key !in me.entries {
        me.entries := me.entries[key := source[key]];
      }
      pending := pending - {key};
      done := done + {key};
    }
    assert Restrict(source, done) == source;
  }
}
