/** The backend's expiring key-value caches (dropboxRoutes.js lines 23-48).
    `_CACHE` (read by `_get`) and `ORDER_INDEX_CACHE` (read by
    `_getOrderIndex`) are both maps from a string key to
    `{value, expires}`; a read past expiry deletes the entry and reports a
    miss, a write always overwrites with `expires = now + ttl`. The two
    readers differ in one guard: `_get` treats `expires == 0` as "never
    expires", `_getOrderIndex` does not. The clock is the explicit `now`. */
module Ttl {

  import opened Wrappers

  /** `_set`'s default time to live: ten minutes. */
  const DEFAULT_TTL_MS: int := 10 * 60 * 1000
  /** `ORDER_INDEX_TTL_MS`: thirty minutes. */
  const ORDER_INDEX_TTL_MS: int := 30 * 60 * 1000

  datatype Entry<V> = Entry(value: V, expires: int)

  /** Whether a reader evicts the entry at time `now`. */
  predicate Expired<V>(e: Entry<V>, now: int, zeroNeverExpires: bool)
  {
    (!zeroNeverExpires || e.expires != 0) && e.expires < now
  }

  /** A live entry is one the reader would return. */
  predicate Live<K, V>(m: map<K, Entry<V>>, key: K, now: int, zeroNeverExpires: bool)
  {
    key in m && !Expired(m[key], now, zeroNeverExpires)
  }

  /** A read: the value of a live entry, or a miss that evicts an expired
      entry and leaves every other key alone. */
  function Read<K, V>(m: map<K, Entry<V>>, key: K, now: int, zeroNeverExpires: bool)
    : (r: (Option<V>, map<K, Entry<V>>))
    ensures r.0.Some? <==> Live(m, key, now, zeroNeverExpires)
    ensures r.0.Some? ==> r.0.value == m[key].value && r.1 == m
    ensures r.0.None? ==> r.1 == m - {key}
  {
    if key !in m then (None, m)
    else if Expired(m[key], now, zeroNeverExpires) then (None, m - {key})
    else (Some(m[key].value), m)
  }

  /** A write: overwrite unconditionally with a fresh expiry. */
  function Write<K, V>(m: map<K, Entry<V>>, key: K, value: V, ttl: int, now: int)
    : (r: map<K, Entry<V>>)
    ensures r.Keys == m.Keys + {key}
    ensures r[key] == Entry(value, now + ttl)
    ensures forall k | k in m && k != key :: r[k] == m[k]
  {
    m[key := Entry(value, now + ttl)]
  }

  /** A value written at `now` is read back up to and including the instant
      `now + ttl` (the test is `expires < now`, so equality still hits). */
  lemma WriteThenRead<K, V>(m: map<K, Entry<V>>, key: K, value: V, ttl: int, now: int,
                            later: int, zeroNeverExpires: bool)
    requires later <= now + ttl
    ensures Read(Write(m, key, value, ttl, now), key, later, zeroNeverExpires)
            == (Some(value), Write(m, key, value, ttl, now))
  {
  }

  /** Past its expiry a written value is gone and its key is evicted, except
      for `_get`'s "expires == 0 never expires" reading. */
  lemma WriteThenReadExpired<K, V>(m: map<K, Entry<V>>, key: K, value: V, ttl: int,
                                   now: int, later: int, zeroNeverExpires: bool)
    requires later > now + ttl
    requires zeroNeverExpires ==> now + ttl != 0
    ensures Read(Write(m, key, value, ttl, now), key, later, zeroNeverExpires).0 == None
    ensures key !in Read(Write(m, key, value, ttl, now), key, later, zeroNeverExpires).1
  {
  }

  /** A miss only ever evicts an entry that was not live, so reading never
      changes which keys are live. */
  lemma ReadKeepsLiveness<K, V>(m: map<K, Entry<V>>, key: K, now: int, zeroNeverExpires: bool,
                                other: K)
    ensures Live(Read(m, key, now, zeroNeverExpires).1, other, now, zeroNeverExpires)
            == Live(m, other, now, zeroNeverExpires)
  {
  }

  /** The mutable cache object: the backend's `Map` of `{value, expires}`
      records. */
  class TtlCache<V> {
    /** Which of the two readers this cache uses (`_get`: true,
        `_getOrderIndex`: false). */
    const zeroNeverExpires: bool
    var entries: map<string, Entry<V>>

    constructor (zeroNeverExpires: bool)
      ensures this.zeroNeverExpires == zeroNeverExpires
      ensures entries == map[]
    {
      this.zeroNeverExpires := zeroNeverExpires;
      entries := map[];
    }

    /** `_get(key)` / `_getOrderIndex(key)`. */
    method Get(key: string, now: int) returns (r: Option<V>)
      modifies this
      ensures (r, entries) == Read(old(entries), key, now, zeroNeverExpires)
    {
      if key !in entries {
        return None;
      }
      var x := entries[key];
      if (!zeroNeverExpires || x.expires != 0) && x.expires < now {
        entries := entries - {key};
        return None;
      }
      r := Some(x.value);
    }

    /** `_set(key, value, ttl)` / `_setOrderIndex(key, value)`. */
    method Set(key: string, value: V, ttl: int, now: int)
      modifies this
      ensures entries == Write(old(entries), key, value, ttl, now)
    {
      entries := entries[key := Entry(value, now + ttl)];
    }
  }
}
