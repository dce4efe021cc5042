/**
 * DictionaryExt.cs: `TryCreate`, get-or-insert on an `IDictionary`, as
 * extension methods over a dictionary object that is updated in place.
 */
module DictionaryExt {
  import opened Base
  import opened Collections

  /** The part of `IDictionary<K, V>` that `TryCreate` uses. */
  class Dictionary<K(==), V> {
    var entries: map<K, V>

    constructor ()
      ensures entries == map[]
    {
      entries := map[];
    }

    /** `TryGetValue(key, out value)`, the out value given as an Option. */
    method TryGetValue(key: K) returns (r: Option<V>)
      ensures r.Some? <==> key in entries
      ensures r.Some? ==> r.value == entries[key]
    {
      r := if key in entries then Some(entries[key]) else None;
    }

    /** The indexer `this[key] = value`: adds or replaces. */
    method Set(key: K, value: V)
      modifies this
      ensures entries == old(entries)[key := value]
    {
      entries := entries[key := value];
    }
  }

  /**
   * What `TryCreate` does to a map, given the value `create()` would yield:
   * the new map and the value returned.
   */
  function TryCreateSpec<K, V>(m: map<K, V>, key: K, created: V): (r: (map<K, V>, V))
    ensures key in r.0 && r.0[key] == r.1
    ensures key in m ==> r == (m, m[key])
    ensures key !in m ==> r.1 == created
    ensures r.0.Keys == m.Keys + {key}
    ensures forall k :: k in m && k != key ==> r.0[k] == m[k]
  {
    if key in m then (m, m[key]) else (m[key := created], created)
  }

  /** The dictionary grows by at most one entry, and by one exactly when the key was absent. */
  lemma TryCreateGrowsByAtMostOne<K, V>(m: map<K, V>, key: K, created: V)
    ensures |TryCreateSpec(m, key, created).0| == if key in m then |m| else |m| + 1
  {
    if key !in m {
      assert (m[key := created]).Keys == m.Keys + {key};
    }
  }

  /**
   * A second `TryCreate` with the same key is a pure lookup: the map is
   * unchanged and the same value comes back, whatever the second `create` would make.
   */
  lemma TryCreateIdempotent<K, V>(m: map<K, V>, key: K, created1: V, created2: V)
    ensures var (m1, v1) := TryCreateSpec(m, key, created1);
      TryCreateSpec(m1, key, created2) == (m1, v1)
  {
  }

  /** After `TryCreate`, `GetOrDefault` finds the value it returned. */
  lemma TryCreateThenGetOrDefault<K, V>(m: map<K, V>, key: K, created: V, dflt: V)
    ensures var (m1, v1) := TryCreateSpec(m, key, created);
      GetOrDefault(m1, key, dflt) == v1
  {
  }

  /**
   * `TryCreate(dict, key, create)`: an existing value is returned and the
   * dictionary left alone, without calling `create`; otherwise `create` is
   * called once, its result stored under `key` and returned. `invoked` tells
   * whether `create` was called.
   */
  method TryCreate<K(==), V>(dict: Dictionary<K, V>, key: K, create: () -> V) returns (ret: V, invoked: bool)
    modifies dict
    ensures invoked <==> key !in old(dict.entries)
    ensures (dict.entries, ret) == TryCreateSpec(old(dict.entries), key, create())
  {
    var val := dict.TryGetValue(key);
    if val.Some? {
      return val.value, false;
    }
    ret := create();
    invoked := true;
    dict.Set(key, ret);
  }

  /** The parameterless overload: `TryCreate(dict, key, () => new V())`, a new V being V's default value. */
  method TryCreateNew<K(==), V(0)>(dict: Dictionary<K, V>, key: K) returns (ret: V)
    modifies dict
    ensures key in old(dict.entries) ==> dict.entries == old(dict.entries) && ret == old(dict.entries)[key]
    ensures key !in old(dict.entries) ==> dict.entries == old(dict.entries)[key := ret]
  {
    var newValue: V := *;
    var invoked;
    ret, invoked := TryCreate(dict, key, () => newValue);
  }

  /** Two calls with the same key return the same value; the second one never calls `create`. */
  method TryCreateTwice<K(==), V>(dict: Dictionary<K, V>, key: K, create1: () -> V, create2: () -> V)
    returns (first: V, second: V, invokedAgain: bool)
    modifies dict
    ensures first == second && !invokedAgain
    ensures key in dict.entries && dict.entries[key] == first
  {
    var invoked;
    first, invoked := TryCreate(dict, key, create1);
    second, invokedAgain := TryCreate(dict, key, create2);
  }
}
