/**
 * The application cache as `Rails.cache.fetch(key, expires_in: ttl) { ... }`
 * uses it: a map from key to a stored value and the time it expires. Time is
 * an integer clock in seconds, passed in by the caller. An entry is live
 * until its expiry time; reading at or after that time is a miss.
 */
module CacheStore {
  import opened Optional

  datatype Entry<V> = Entry(value: V, expiresAt: int)

  class Cache<V> {
    var entries: map<string, Entry<V>>

    constructor ()
      ensures entries == map[]
    {
      entries := map[];
    }

    predicate Live(key: string, now: int)
      reads this
    {
      key in entries && now < entries[key].expiresAt
    }

    /** `Rails.cache.read(key)` at time `now`. */
    function Read(key: string, now: int): (r: Option<V>)
      reads this
      ensures r.Some? <==> key in entries && now < entries[key].expiresAt
      ensures r.Some? ==> r.value == entries[key].value
    {
      if Live(key, now) then Some(entries[key].value) else None
    }

    /**
     * `fetch`: a live entry is returned as stored and nothing is computed or
     * written; otherwise `compute` runs, its value is stored under `key` to
     * expire `expiresIn` seconds from now, and returned. No other key changes.
     */
    method Fetch(key: string, now: int, expiresIn: nat, compute: () -> V) returns (v: V)
      modifies this
      ensures old(Live(key, now)) ==> v == old(entries[key].value) && entries == old(entries)
      ensures !old(Live(key, now)) ==> v == compute() && entries == old(entries)[key := Entry(v, now + expiresIn)]
      ensures forall k :: k != key ==> (k in entries <==> k in old(entries))
      ensures forall k :: k != key && k in entries ==> entries[k] == old(entries[k])
    {
      var hit := Read(key, now);
      if hit.Some? {
        v := hit.value;
      } else {
        v := compute();
        entries := entries[key := Entry(v, now + expiresIn)];
      }
    }
  }
}
