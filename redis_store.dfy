/**
 * The expiring key-value store the service talks to (Redis, reached through a
 * `RedisTemplate<String, String>`), reduced to the four commands the service
 * issues: SET with an expiry, GET, DEL and TTL. Time is a whole number of
 * seconds; a key whose expiry second has been reached is gone.
 */
module RedisStore {
  import opened Wrappers

  /** A stored string and the second at which it expires; `None` is a key stored without expiry. */
  datatype Entry = Entry(value: string, expiry: Option<int>)

  type Entries = map<string, Entry>

  /** What TTL reports for a key that does not exist (or has expired). */
  const NO_SUCH_KEY := -2
  /** What TTL reports for a key that exists but has no expiry. */
  const NO_EXPIRY := -1

  predicate Expired(entry: Entry, now: int) {
    entry.expiry.Some? && now >= entry.expiry.value
  }

  predicate IsLive(entries: Entries, now: int, key: string) {
    key in entries && !Expired(entries[key], now)
  }

  /** GET: the stored value while the key is live. */
  function Read(entries: Entries, now: int, key: string): (r: Option<string>)
    ensures r.Some? <==> IsLive(entries, now, key)
    ensures r.Some? ==> r.value == entries[key].value
  {
    if IsLive(entries, now, key) then Some(entries[key].value) else None
  }

  /** TTL: seconds left before the key expires, or one of the two sentinels. */
  function RemainingTtl(entries: Entries, now: int, key: string): (ttl: int)
    ensures ttl == NO_SUCH_KEY <==> Read(entries, now, key).None?
    ensures ttl == NO_EXPIRY <==> IsLive(entries, now, key) && entries[key].expiry.None?
    ensures ttl == NO_SUCH_KEY || ttl == NO_EXPIRY || ttl > 0
  {
    if !IsLive(entries, now, key) then NO_SUCH_KEY
    else match entries[key].expiry
      case None => NO_EXPIRY
      case Some(expiry) => expiry - now
  }

  /** The store after SET `key` `value` with an expiry `ttl` seconds from `now`. */
  function Written(entries: Entries, now: int, key: string, value: string, ttl: int): Entries {
    entries[key := Entry(value, Some(now + ttl))]
  }

  /** The store after DEL `key`. */
  function Removed(entries: Entries, key: string): Entries {
    entries - {key}
  }

  /** SET with expiry: the key reads back its value, with the full TTL, until it expires; other keys are unaffected. */
  lemma ReadAfterWrite(entries: Entries, now: int, key: string, value: string, ttl: int, k: string, t: int)
    requires ttl > 0 && now <= t
    ensures Read(Written(entries, now, key, value, ttl), t, k) ==
      if k != key then Read(entries, t, k)
      else if t < now + ttl then Some(value)
      else None
    ensures RemainingTtl(Written(entries, now, key, value, ttl), t, k) ==
      if k != key then RemainingTtl(entries, t, k)
      else if t < now + ttl then now + ttl - t
      else NO_SUCH_KEY
  {
  }

  /** DEL: the key is absent from then on; other keys are unaffected. */
  lemma ReadAfterRemove(entries: Entries, key: string, k: string, t: int)
    ensures Read(Removed(entries, key), t, k) == if k == key then None else Read(entries, t, k)
    ensures RemainingTtl(Removed(entries, key), t, k) ==
      if k == key then NO_SUCH_KEY else RemainingTtl(entries, t, k)
  {
  }

  /** DEL of a key that is missing or already expired changes nothing any later GET or TTL can see. */
  lemma RemoveAbsentIsNoOp(entries: Entries, now: int, key: string, k: string, t: int)
    requires Read(entries, now, key).None? && now <= t
    ensures key !in entries ==> Removed(entries, key) == entries
    ensures Read(Removed(entries, key), t, k) == Read(entries, t, k)
    ensures RemainingTtl(Removed(entries, key), t, k) == RemainingTtl(entries, t, k)
  {
    if k == key {
      assert Read(entries, t, key).None?;
    }
  }

  /** The store as the service sees it: a mutable map from key to entry, and the store's clock. */
  class Store {
    var entries: Entries
    var now: int

    /** A store holding whatever other clients left in it. */
    constructor (initial: Entries, clock: int)
      ensures entries == initial && now == clock
    {
      entries := initial;
      now := clock;
    }

    /** SET key value EX ttl: overwrites any previous value and expiry. */
    method Set(key: string, value: string, ttl: int)
      requires ttl > 0
      modifies this
      ensures entries == Written(old(entries), old(now), key, value, ttl)
      ensures now == old(now)
      ensures Read(entries, now, key) == Some(value) && RemainingTtl(entries, now, key) == ttl
    {
      entries := entries[key := Entry(value, Some(now + ttl))];
    }

    /** GET key. */
    method Get(key: string) returns (value: Option<string>)
      ensures value == Read(entries, now, key)
    {
      if key in entries && !Expired(entries[key], now) {
        value := Some(entries[key].value);
      } else {
        value := None;
      }
    }

    /** TTL key, in seconds. */
    method GetExpire(key: string) returns (ttl: int)
      ensures ttl == RemainingTtl(entries, now, key)
      ensures ttl == NO_SUCH_KEY || ttl == NO_EXPIRY || ttl > 0
    {
      if key !in entries || Expired(entries[key], now) {
        ttl := NO_SUCH_KEY;
      } else if entries[key].expiry.None? {
        ttl := NO_EXPIRY;
      } else {
        ttl := entries[key].expiry.value - now;
      }
    }

    /** DEL key: reports whether a live key was removed. */
    method Delete(key: string) returns (removed: bool)
      modifies this
      ensures entries == Removed(old(entries), key)
      ensures now == old(now)
      ensures removed == old(Read(entries, now, key)).Some?
      ensures Read(entries, now, key).None?
    {
      removed := key in entries && !Expired(entries[key], now);
      entries := entries - {key};
    }

    /** The passage of `seconds` seconds. */
    method Advance(seconds: nat)
      modifies this
      ensures now == old(now) + seconds
      ensures entries == old(entries)
    {
      now := now + seconds;
    }
  }
}
