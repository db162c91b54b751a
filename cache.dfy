/**
 * The in-memory expiring key-value store of app/lib/cache.ts. Each entry keeps a
 * value and an absolute deadline in milliseconds; an entry whose deadline has
 * passed is dropped when it is read (`get`) or swept (`cleanup`). The source reads
 * `Date.now()`; here every operation that needs the time takes it as `now`.
 */
module Cache {
  import opened Wrappers

  datatype CacheItem<V> = CacheItem(value: V, expiresAt: int)

  /** `set`'s default time to live, in seconds. */
  const DefaultTtlSeconds: int := 300

  /** The deadline `set` stores: `Date.now() + ttlSeconds * 1000`. */
  function ExpiryOf(now: int, ttlSeconds: int): int {
    now + ttlSeconds * 1000
  }

  /** The strict test of `get` and `cleanup`: an entry lives up to and including its deadline. */
  predicate Expired<V>(item: CacheItem<V>, now: int) {
    now > item.expiresAt
  }

  /** What `get(key)` returns at time `now`. */
  function Read<V>(m: map<string, CacheItem<V>>, key: string, now: int): (r: Option<V>)
    ensures r.Some? <==> key in m && !Expired(m[key], now)
    ensures r.Some? ==> r.value == m[key].value
  {
    if key !in m then None
    else if Expired(m[key], now) then None
    else Some(m[key].value)
  }

  /** The entries after `get(key)` at time `now`: an expired entry for `key` is gone. */
  function AfterRead<V>(m: map<string, CacheItem<V>>, key: string, now: int): (r: map<string, CacheItem<V>>)
    ensures r.Keys == if key in m && Expired(m[key], now) then m.Keys - {key} else m.Keys
    ensures forall k :: k in r ==> r[k] == m[k]
  {
    if key in m && Expired(m[key], now) then m - {key} else m
  }

  /** The entries `cleanup` keeps at time `now`. */
  function Live<V>(m: map<string, CacheItem<V>>, now: int): (r: map<string, CacheItem<V>>)
    ensures forall k :: k in r <==> k in m && !Expired(m[k], now)
    ensures forall k :: k in r ==> r[k] == m[k]
  {
    map k | k in m && !Expired(m[k], now) :: m[k]
  }

  /** A sweep hides nothing `get` could see: reading before or after it agrees. */
  lemma SweepIsInvisible<V>(m: map<string, CacheItem<V>>, key: string, now: int)
    ensures Read(Live(m, now), key, now) == Read(m, key, now)
  {
  }

  /** Reading drops only what a sweep at the same time would drop. */
  lemma ReadThenSweep<V>(m: map<string, CacheItem<V>>, key: string, now: int)
    ensures Live(AfterRead(m, key, now), now) == Live(m, now)
  {
  }

  /** A value set with a non-negative time to live is read back until its deadline, and not after. */
  lemma SetThenRead<V>(m: map<string, CacheItem<V>>, key: string, value: V, setAt: int, ttlSeconds: int, now: int)
    ensures var m' := m[key := CacheItem(value, ExpiryOf(setAt, ttlSeconds))];
      Read(m', key, now) == if now <= setAt + ttlSeconds * 1000 then Some(value) else None
  {
  }

  /** A read drops nothing a later read at the same time could see, whichever key it read. */
  lemma ReadAfterRead<V>(m: map<string, CacheItem<V>>, read: string, key: string, now: int)
    ensures Read(AfterRead(m, read, now), key, now) == Read(m, key, now)
  {
  }

  /** Setting one key does not change what another key reads. */
  lemma ReadOtherKey<V>(m: map<string, CacheItem<V>>, written: string, item: CacheItem<V>, key: string, now: int)
    requires written != key
    ensures Read(m[written := item], key, now) == Read(m, key, now)
  {
  }

  class MemoryCache<V> {
    /** The source's private `Map<string, CacheItem>`. */
    var entries: map<string, CacheItem<V>>

    constructor ()
      ensures entries == map[]
    {
      entries := map[];
    }

    /** Stores `value` under `key` until `now + ttlSeconds * 1000`, replacing any entry. */
    method Set(key: string, value: V, now: int, ttlSeconds: int := DefaultTtlSeconds)
      modifies this
      ensures entries == old(entries)[key := CacheItem(value, ExpiryOf(now, ttlSeconds))]
      ensures Read(entries, key, now) == (if ttlSeconds >= 0 then Some(value) else None)
    {
      entries := entries[key := CacheItem(value, ExpiryOf(now, ttlSeconds))];
    }

    /** Returns the live value for `key`; an expired entry is deleted on the way. */
    method Get(key: string, now: int) returns (r: Option<V>)
      modifies this
      ensures key !in old(entries) ==> r == None && entries == old(entries)
      ensures key in old(entries) && !Expired(old(entries)[key], now) ==>
        r == Some(old(entries)[key].value) && entries == old(entries)
      ensures key in old(entries) && Expired(old(entries)[key], now) ==>
        r == None && entries == old(entries) - {key}
      ensures r == Read(old(entries), key, now) && entries == AfterRead(old(entries), key, now)
    {
      if key !in entries {
        return None;
      }
      var item := entries[key];
      if now > item.expiresAt {
        entries := entries - {key};
        return None;
      }
      r := Some(item.value);
    }

    /** Removes `key`; tells whether it was there. */
    method Delete(key: string) returns (existed: bool)
      modifies this
      ensures existed == (key in old(entries))
      ensures entries == old(entries) - {key}
    {
      existed := key in entries;
      entries := entries - {key};
    }

    method Clear()
      modifies this
      ensures entries == map[]
    {
      entries := map[];
    }

    /** Walks the entries and deletes every one whose deadline is before `now`. */
    method Cleanup(now: int)
      modifies this
      ensures entries == Live(old(entries), now)
    {
      var pending := entries.Keys;
      ghost var start := entries;
      while pending != {}
        invariant pending <= start.Keys
        invariant forall k :: k in entries <==> k in start && (k in pending || !Expired(start[k], now))
        invariant forall k :: k in entries ==> entries[k] == start[k]
        decreases pending
      {
        var key :| key in pending;
        if now > entries[key].expiresAt {
          entries := entries - {key};
        }
        pending := pending - {key};
      }
      assert entries.Keys == Live(start, now).Keys;
    }

    /** All keys currently stored (expired ones included), each once. */
    method GetAllKeys() returns (keys: seq<string>)
      ensures forall k :: k in keys <==> k in entries
      ensures forall i, j :: 0 <= i < j < |keys| ==> keys[i] != keys[j]
    {
      keys := [];
      var pending := entries.Keys;
      while pending != {}
        invariant pending <= entries.Keys
        invariant forall k :: k in keys <==> k in entries && k !in pending
        invariant forall i, j :: 0 <= i < j < |keys| ==> keys[i] != keys[j]
        decreases pending
      {
        var key :| key in pending;
        keys := keys + [key];
        pending := pending - {key};
      }
    }
  }
}
