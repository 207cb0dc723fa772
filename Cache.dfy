/**
 * The process-wide key/value cache (`src/lib/cache.ts`): a map from key to a
 * timestamped value. A read is a hit while `now - timestamp <= duration`
 * (inclusive); reads never evict. The clock is the `now` argument.
 */
module Cache {
  import opened Wrappers

  /** `DEFAULT_CACHE_DURATION`: ten minutes in milliseconds. */
  const DefaultDuration: int := 10 * 60000

  datatype Entry<T> = Entry(timestamp: int, data: T)

  /** What `getCache(key, duration)` answers at time `now` over the entries `m`; `null` is `None`. */
  function Read<T>(m: map<string, Entry<T>>, key: string, now: int, duration: int): Option<T> {
    if key in m && now - m[key].timestamp <= duration then Some(m[key].data) else None
  }

  class TtlCache<T> {
    var entries: map<string, Entry<T>>

    /** The cache starts empty when the module is loaded. */
    constructor()
      ensures entries == map[]
    {
      entries := map[];
    }

    /** `getCache`: reads without changing the map, so stale entries stay in place. */
    method Get(key: string, now: int, duration: int) returns (r: Option<T>)
      ensures r == Read(entries, key, now, duration)
    {
      if key in entries && now - entries[key].timestamp <= duration {
        r := Some(entries[key].data);
      } else {
        r := None;
      }
    }

    /** `setCache`: replaces any entry for `key`, stamped with `now`; other keys keep theirs. */
    method Set(key: string, data: T, now: int)
      modifies this
      ensures entries == old(entries)[key := Entry(now, data)]
    {
      entries := entries[key := Entry(now, data)];
    }
  }

  /** A value written at `t` is read back exactly while `now - t <= duration`. */
  lemma ReadAfterWrite<T>(m: map<string, Entry<T>>, key: string, data: T, t: int, now: int, duration: int)
    ensures now - t <= duration ==> Read(m[key := Entry(t, data)], key, now, duration) == Some(data)
    ensures now - t > duration ==> Read(m[key := Entry(t, data)], key, now, duration) == None
  {
  }

  /** A key that was never written always misses. */
  lemma ReadUnwritten<T>(m: map<string, Entry<T>>, key: string, now: int, duration: int)
    requires key !in m
    ensures Read(m, key, now, duration) == None
  {
  }

  /** Writing one key leaves every other key's reads as they were. */
  lemma ReadOtherKey<T>(m: map<string, Entry<T>>, key: string, other: string, e: Entry<T>, now: int, duration: int)
    requires other != key
    ensures Read(m[key := e], other, now, duration) == Read(m, other, now, duration)
  {
  }

  /** Two writes to the same key: the second value and timestamp win. */
  lemma LastWriteWins<T>(m: map<string, Entry<T>>, key: string, v1: T, t1: int, v2: T, t2: int, now: int, duration: int)
    requires now - t2 <= duration
    ensures Read(m[key := Entry(t1, v1)][key := Entry(t2, v2)], key, now, duration) == Some(v2)
  {
  }

  /** The default window is inclusive: exactly 600000 ms later is a hit, one more is a miss. */
  lemma DefaultWindowInclusive<T>(m: map<string, Entry<T>>, key: string, data: T, t: int)
    ensures DefaultDuration == 600000
    ensures Read(m[key := Entry(t, data)], key, t + DefaultDuration, DefaultDuration) == Some(data)
    ensures Read(m[key := Entry(t, data)], key, t + DefaultDuration + 1, DefaultDuration) == None
  {
  }

  /** Freshness is per call: a hit for a long duration can be a miss for a shorter one, never the reverse. */
  lemma DurationMonotone<T>(m: map<string, Entry<T>>, key: string, now: int, d1: int, d2: int)
    requires d1 <= d2 && Read(m, key, now, d1).Some?
    ensures Read(m, key, now, d2) == Read(m, key, now, d1)
  {
  }

  lemma ShorterDurationCanMiss(t: int)
    ensures Read(map["k" := Entry(t, 1)], "k", t + 60000, 30000) == None
    ensures Read(map["k" := Entry(t, 1)], "k", t + 60000, DefaultDuration) == Some(1)
  {
  }
}
