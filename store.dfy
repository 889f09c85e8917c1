/**
 KVMemoryStore from store.go as a class. The sync.Map becomes the map field
 `entries`; each removeValueAfterTimeout goroutine becomes a record in
 `watchers`, keyed by the identity of the entry it was started for; real
 time becomes the logical clock `now`, moved on by Advance, which lets every
 watcher that may finish run. Every method is specified by the matching
 transition of StoreSpec.
 */
module Store {
  import S = StoreSpec

  class KVMemoryStore<K(==), V> {
    const ttl: int
    var entries: map<K, S.Entry<V>>
    var watchers: map<nat, S.Watcher<K>>
    var now: int
    var nextId: nat

    /** The store's state as a value. */
    ghost function Model(): S.State<K, V>
      reads this
    {
      S.State(ttl, now, entries, watchers, nextId)
    }

    ghost predicate Valid()
      reads this
    {
      S.Inv(Model())
    }

    /** The struct literal of NewKVStoreWithTtl: an empty map and the given TTL. */
    constructor (ttl: int)
      ensures Valid()
      ensures Model() == S.New(ttl)
    {
      this.ttl := ttl;
      entries := map[];
      watchers := map[];
      now := 0;
      nextId := 0;
    }

    /** Load the entry; if present, Remove it, signal its watcher and return its value. */
    method Get(key: K) returns (r: S.Option<V>)
      requires Valid()
      modifies this
      ensures Valid()
      ensures r == S.Lookup(old(Model()), key)
      ensures Model() == S.Get(old(Model()), key)
    {
      if key !in entries {
        return S.None;
      }
      var storeValue := entries[key];
      Remove(key);
      // The send on storeValue.read: its watcher is still waiting for it.
      watchers := watchers[storeValue.id := watchers[storeValue.id].(consumed := true)];
      r := S.Some(storeValue.value);
    }

    /** Store a fresh entry under `key`, replacing any other, and start its watcher. */
    method Put(key: K, value: V)
      requires Valid()
      modifies this
      ensures Valid()
      ensures Model() == S.Put(old(Model()), key, value)
    {
      entries := entries[key := S.Entry(value, nextId)];
      watchers := watchers[nextId := S.Watcher(key, now + ttl, false)];
      nextId := nextId + 1;
    }

    /** Delete `key` unconditionally. */
    method Remove(key: K)
      requires Valid()
      modifies this
      ensures Valid()
      ensures Model() == S.Remove(old(Model()), key)
    {
      entries := entries - {key};
    }

    /**
     The watcher `id` finishes: on the signal it returns, on timeout it
     calls Remove with its key.
     */
    method RemoveValueAfterTimeout(id: nat)
      requires Valid()
      requires id in watchers && S.Due(watchers[id], now)
      modifies this
      ensures Valid()
      ensures Model() == S.Fire(old(Model()), id)
    {
      var w := watchers[id];
      if !w.consumed {
        Remove(w.key);
      }
      watchers := watchers - {id};
    }

    /** Let `d` nanoseconds pass, then run every watcher that may finish, one at a time. */
    method Advance(d: nat)
      requires Valid()
      modifies this
      ensures Valid()
      ensures Model() == S.Advance(old(Model()), d)
    {
      now := now + d;
      ghost var w0 := watchers;
      ghost var e0 := entries;
      ghost var all := S.DueIds(w0, now);
      var due := S.DueIds(watchers, now);
      while due != {}
        invariant Valid()
        invariant due <= all
        invariant now == old(now) + d && nextId == old(nextId)
        invariant watchers == w0 - (all - due)
        invariant entries == e0 - S.Victims(w0, all - due)
        decreases due
      {
        var id :| id in due;
        RemoveValueAfterTimeout(id);
        due := due - {id};
      }
    }
  }

  /** A store with the thirty-second default TTL. */
  method NewKVStore<K(==), V>() returns (s: KVMemoryStore<K, V>)
    ensures fresh(s) && s.Valid()
    ensures s.Model() == S.New(S.DefaultTtl)
  {
    s := NewKVStoreWithTtl(S.DefaultTtl);
  }

  /** A store whose entries expire `ttl` nanoseconds after their Put. */
  method NewKVStoreWithTtl<K(==), V>(ttl: int) returns (s: KVMemoryStore<K, V>)
    ensures fresh(s) && s.Valid()
    ensures s.Model() == S.New(ttl)
  {
    s := new KVMemoryStore(ttl);
  }
}
