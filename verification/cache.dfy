/** Redis as the code uses it: GET, SET with an expiry, DEL. A server error on
    any call is an explicit flag; expiry timing is not modelled, only the TTL
    each entry was written with. */
module Cache {
  import opened Wrappers
  import opened Json

  datatype Entry = Entry(blob: Blob, ttlSeconds: nat)

  type CacheMap = map<string, Entry>

  /** GET: a missing key and an unreachable server both come back as an error. */
  function Get(c: CacheMap, key: string, unavailable: bool): Option<Blob> {
    if !unavailable && key in c then Some(c[key].blob) else None
  }

  /** SET key value EX ttl; a failed call leaves the cache as it was. */
  function Set(c: CacheMap, key: string, blob: Blob, ttlSeconds: nat, fails: bool): (r: CacheMap)
    ensures fails ==> r == c
    ensures !fails ==> key in r && r[key] == Entry(blob, ttlSeconds) && AgreeExcept(r, c, key)
  {
    if fails then c else c[key := Entry(blob, ttlSeconds)]
  }

  /** DEL key; a failed call leaves the cache as it was. */
  function Del(c: CacheMap, key: string, fails: bool): (r: CacheMap)
    ensures fails ==> r == c
    ensures !fails ==> key !in r && AgreeExcept(r, c, key)
  {
    if fails then c else c - {key}
  }

  /** The two caches hold the same entries under every key but `key`. */
  ghost predicate AgreeExcept(c1: CacheMap, c2: CacheMap, key: string) {
    forall k :: k != key ==> (k in c1 <==> k in c2) && (k in c1 ==> c1[k] == c2[k])
  }
}
