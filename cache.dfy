/**
 * The distributed cache the SQL adapter reads through: string keys, values
 * that are serialized greetings or greeting lists, and an absolute expiry.
 * Serialization is the identity here, so a stored value is never the empty
 * string and every live entry is a hit.
 */
module Cache {
  import opened Wrappers
  import opened Domain

  /** What a key holds: one serialized greeting or a serialized list. */
  datatype Payload = Single(greeting: Greeting) | Listing(greetings: seq<Greeting>)

  datatype Entry = Entry(payload: Payload, expiresAt: int)

  /** `AbsoluteExpirationRelativeToNow = TimeSpan.FromMinutes(5)`, in milliseconds. */
  const TtlMs: int := 5 * 60 * 1000

  class DistributedCache {
    var entries: map<string, Entry>

    constructor ()
      ensures entries == map[]
    {
      entries := map[];
    }

    /** `GetString`: the value under `key` until its expiry time, then nothing. */
    function Get(key: string, now: int): (r: Option<Payload>)
      reads this
      ensures r.Some? <==> key in entries && now < entries[key].expiresAt
      ensures r.Some? ==> r.value == entries[key].payload
    {
      if key in entries && now < entries[key].expiresAt then Some(entries[key].payload) else None
    }

    /** `SetString` with a five-minute absolute expiry. */
    method Set(key: string, payload: Payload, now: int)
      modifies this
      ensures entries == old(entries)[key := Entry(payload, now + TtlMs)]
    {
      entries := entries[key := Entry(payload, now + TtlMs)];
    }

    /** `Remove`. */
    method Remove(key: string)
      modifies this
      ensures entries == old(entries) - {key}
    {
      entries := entries - {key};
    }
  }
}
