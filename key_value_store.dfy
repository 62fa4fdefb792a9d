/**
 * The Redis string store the services share (`RedisService`, and the legacy OTP service
 * that writes to the same template directly). Every write carries the fixed five-minute
 * time-to-live; a key reads as absent once its expiry instant has passed.
 */
module KeyValue {
  import opened Wrappers

  /** `Duration.ofMinutes(5)`, in milliseconds. */
  const TTL_MS: int := 5 * 60 * 1000

  datatype Entry = Entry(value: string, expiresAt: int)

  /** What a GET of `key` at instant `now` answers: the value while it has not expired. */
  function Live(entries: map<string, Entry>, key: string, now: int): Option<string>
  {
    if key in entries && now <= entries[key].expiresAt then Some(entries[key].value) else None
  }

  /** The store after `SET key value EX ttl` at instant `now`. */
  function Saved(entries: map<string, Entry>, key: string, value: string, now: int): map<string, Entry>
  {
    entries[key := Entry(value, now + TTL_MS)]
  }

  class KeyValueStore {
    var entries: map<string, Entry>

    constructor ()
      ensures entries == map[]
    {
      entries := map[];
    }

    /** `saveValue`: overwrites the key and restarts its five-minute lifetime. */
    method SaveValue(key: string, value: string, now: int)
      modifies this
      ensures entries == Saved(old(entries), key, value, now)
    {
      entries := entries[key := Entry(value, now + TTL_MS)];
    }

    /** `getValue`: the stored value while it is live; null (None) when missing or expired. */
    method GetValue(key: string, now: int) returns (v: Option<string>)
      ensures v.Some? <==> key in entries && now <= entries[key].expiresAt
      ensures v.Some? ==> v.value == entries[key].value
    {
      if key in entries && now <= entries[key].expiresAt {
        v := Some(entries[key].value);
      } else {
        v := None;
      }
    }

    /** `deleteValue`: removes the key; deleting a missing key is a no-op. */
    method DeleteValue(key: string)
      modifies this
      ensures entries == old(entries) - {key}
    {
      entries := entries - {key};
    }
  }

  /** A value saved at `now` reads back unchanged for five minutes, and not after. */
  lemma SaveThenGet(entries: map<string, Entry>, key: string, value: string, now: int, t: int)
    ensures now <= t <= now + TTL_MS ==> Live(Saved(entries, key, value, now), key, t) == Some(value)
    ensures t > now + TTL_MS ==> Live(Saved(entries, key, value, now), key, t) == None
  {
  }

  /** Saving one key leaves every other key as it was. */
  lemma SaveKeepsOthers(entries: map<string, Entry>, key: string, value: string, now: int, other: string, t: int)
    requires other != key
    ensures Live(Saved(entries, key, value, now), other, t) == Live(entries, other, t)
  {
  }

  /** A deleted key reads as absent; other keys are untouched. */
  lemma DeleteThenGet(entries: map<string, Entry>, key: string, other: string, t: int)
    ensures Live(entries - {key}, key, t) == None
    ensures other != key ==> Live(entries - {key}, other, t) == Live(entries, other, t)
  {
  }

  /** Expiry is permanent: once a key reads as absent it stays absent until written again. */
  lemma ExpiredStaysExpired(entries: map<string, Entry>, key: string, t1: int, t2: int)
    requires t1 <= t2 && Live(entries, key, t1) == None
    ensures Live(entries, key, t2) == None
  {
  }
}
