/** The Redis instance behind RedisTemplate<String, Object>: a map from keys to string
    values. Expiry (the TTL each set passes) is not modelled, so a key stays until deleted. */
module KeyValue {
  import opened Wrappers

  class Store {
    var entries: map<string, string>

    constructor ()
      ensures entries == map[]
    {
      entries := map[];
    }

    /** opsForValue().get(key): the value, or null when the key is absent. */
    function Get(key: string): (r: Option<string>)
      reads this
      ensures r.Some? <==> key in entries
      ensures r.Some? ==> r.value == entries[key]
    {
      if key in entries then Some(entries[key]) else None
    }

    /** opsForValue().set(key, value, ttl): adds the key or replaces its value. */
    method Set(key: string, value: string)
      modifies this
      ensures entries == old(entries)[key := value]
    {
      entries := entries[key := value];
    }

    /** delete(key): removes the key; the result says whether it was there. */
    method Delete(key: string) returns (deleted: bool)
      modifies this
      ensures entries == old(entries) - {key}
      ensures deleted <==> key in old(entries)
    {
      deleted := key in entries;
      entries := entries - {key};
    }

    /** hasKey(key). */
    function HasKey(key: string): (b: bool)
      reads this
      ensures b <==> key in entries
    {
      key in entries
    }
  }
}
