/** The article service (internal/article/service/service.go): cache-aside
    reads of one article and of the front-page listing, and soft deletion
    followed by cache invalidation. Every Redis and store failure is an
    explicit flag. */
module ArticleService {
  import opened Wrappers
  import opened Models
  import opened Text
  import opened Json
  import opened Store
  import opened Cache

  /** 30*time.Minute, the expiry of every cache write, in seconds. */
  const CacheTtl: nat := 1800

  const ListKey := "articles:list"

  /** Limit(10) of the listing query. */
  const ListLimit: nat := 10

  const ArticlePrefix := "article:"

  /** The key GetArticleByID reads and fills: the code's fmt.Sprint(id), or
      the "article:<id>" key that invalidation deletes. */
  datatype KeyScheme = AsWritten | Prefixed

  function ReadKey(scheme: KeyScheme, id: nat): string {
    match scheme
    case AsWritten => NatToString(id)
    case Prefixed => ArticlePrefix + NatToString(id)
  }

  /** fmt.Sprintf("article:%d", id), the key invalidateArticleCache deletes. */
  function InvalidateKey(id: nat): string {
    ArticlePrefix + NatToString(id)
  }

  datatype ServiceError = NotFound | StoreError

  /** Injected failures: Redis GET unavailable, SET or DEL failing, the store failing. */
  datatype Faults = Faults(cacheGet: bool, cacheSet: bool, cacheDel: bool, store: bool)

  const NoFaults := Faults(false, false, false, false)

  /** A read: its result, the cache afterwards, and whether the store was queried. */
  datatype Fetch<T> = Fetch(result: Result<T, ServiceError>, cache: CacheMap, storeRead: bool)

  /** A deletion: its result, the store and cache afterwards, and whether any
      cache call was made. */
  datatype Removal = Removal(result: Result<(), ServiceError>, db: Db, cache: CacheMap, cacheCalled: bool)

  /** The cache holds a decodable article under key. */
  predicate ArticleCached(c: CacheMap, key: string) {
    key in c && c[key].blob.ArticleBlob?
  }

  predicate ListCached(c: CacheMap) {
    ListKey in c && c[ListKey].blob.ListBlob?
  }

  /** GetArticleByID (lines 70-95). */
  function GetArticleByID(db: Db, c: CacheMap, scheme: KeyScheme, id: nat, f: Faults): (r: Fetch<Article>)
    ensures var key := ReadKey(scheme, id);
            && (!r.storeRead <==> !f.cacheGet && ArticleCached(c, key))
            && (!r.storeRead ==> r.cache == c && r.result == Ok(Unmarshal(c[key].blob.doc)))
            && (r.storeRead ==> (r.result.Ok? <==> !f.store && Live(db, id)))
            && (r.storeRead && r.result.Ok? ==> LoadArticle(db, id, true, true) == Some(r.result.value))
            && (r.storeRead && r.result.Err? ==> r.result.error == (if f.store then StoreError else NotFound))
            && (r.result.Err? ==> r.cache == c)
            && (r.storeRead && r.result.Ok? ==>
                  && AgreeExcept(r.cache, c, key)
                  && (f.cacheSet ==> r.cache == c)
                  && (!f.cacheSet ==> key in r.cache && r.cache[key] == Entry(ArticleBlob(Marshal(r.result.value)), CacheTtl)))
  {
    var key := ReadKey(scheme, id);
    var hit := Get(c, key, f.cacheGet);
    if hit.Some? && DecodeArticle(hit.value).Some? then Fetch(Ok(DecodeArticle(hit.value).value), c, false)
    else if f.store then Fetch(Err(StoreError), c, true)
    else
      match LoadArticle(db, id, true, true)
      case None => Fetch(Err(NotFound), c, true)
      case Some(a) => Fetch(Ok(a), Set(c, key, ArticleBlob(Marshal(a)), CacheTtl, f.cacheSet), true)
  }

  /** GetArticlesWithDetails (lines 16-52): the ten newest live articles,
      without view counts or password hashes. */
  function GetArticlesWithDetails(db: Db, c: CacheMap, f: Faults): (r: Fetch<seq<Article>>)
    ensures !r.storeRead <==> !f.cacheGet && ListCached(c)
    ensures !r.storeRead ==> r.cache == c && r.result == Ok(UnmarshalList(c[ListKey].blob.docs))
    ensures r.storeRead ==> (r.result.Ok? <==> !f.store)
    ensures r.result.Err? ==> r.result.error == StoreError && r.cache == c
    ensures r.storeRead && r.result.Ok? ==> r.result.value == RecentArticles(db, ListLimit)
    ensures r.storeRead && r.result.Ok? ==>
              && |r.result.value| <= ListLimit
              && (forall i :: 0 <= i < |r.result.value| ==> r.result.value[i] == Summary(db, r.result.value[i].base.id))
              && (forall i :: 0 <= i < |r.result.value| ==> Live(db, r.result.value[i].base.id))
              && (forall i, j :: 0 <= i < j < |r.result.value| ==> r.result.value[i].base.id > r.result.value[j].base.id)
              && AgreeExcept(r.cache, c, ListKey)
              && (f.cacheSet ==> r.cache == c)
              && (!f.cacheSet ==> ListKey in r.cache && r.cache[ListKey] == Entry(ListBlob(MarshalList(r.result.value)), CacheTtl))
  {
    var hit := Get(c, ListKey, f.cacheGet);
    if hit.Some? && DecodeList(hit.value).Some? then Fetch(Ok(DecodeList(hit.value).value), c, false)
    else if f.store then Fetch(Err(StoreError), c, true)
    else
      var articles := RecentArticles(db, ListLimit);
      Fetch(Ok(articles), Set(c, ListKey, ListBlob(MarshalList(articles)), CacheTtl, f.cacheSet), true)
  }

  /** DeleteArticleByID (lines 54-68): soft delete, then a best-effort DEL of
      "article:<id>" whose failure is swallowed. */
  function DeleteArticleByID(db: Db, c: CacheMap, id: nat, now: int, f: Faults): (r: Removal)
    ensures r.result.Err? <==> f.store
    ensures r.result.Err? ==> r.result.error == StoreError && r.db == db && r.cache == c && !r.cacheCalled
    ensures r.result.Ok? ==>
              && r.cacheCalled
              && r.db == SoftDelete(db, id, now)
              && AgreeExcept(r.cache, c, InvalidateKey(id))
              && (f.cacheDel ==> r.cache == c)
              && (!f.cacheDel ==> InvalidateKey(id) !in r.cache)
  {
    if f.store then Removal(Err(StoreError), db, c, false)
    else Removal(Ok(()), SoftDelete(db, id, now), Del(c, InvalidateKey(id), f.cacheDel), true)
  }

  // ------------------------------------------------------------- properties

  /** A bare decimal id never spells "article:<id>" or "articles:list". */
  lemma KeysNeverMeet(readId: nat, deletedId: nat)
    ensures ReadKey(AsWritten, readId) != InvalidateKey(deletedId)
    ensures ReadKey(AsWritten, readId) != ListKey
    ensures InvalidateKey(deletedId) != ListKey
  {
    var k := ReadKey(AsWritten, readId);
    assert IsDigit(k[0]);
    assert InvalidateKey(deletedId)[0] == 'a';
    assert ListKey[0] == 'a';
    assert InvalidateKey(deletedId)[7] == ':' != ListKey[7];
  }

  /** Distinct ids have distinct cache keys under either scheme. */
  lemma ReadKeysDistinct(scheme: KeyScheme, a: nat, b: nat)
    requires a != b
    ensures ReadKey(scheme, a) != ReadKey(scheme, b)
  {
    if ReadKey(scheme, a) == ReadKey(scheme, b) {
      if scheme == Prefixed {
        assert ReadKey(scheme, a)[|ArticlePrefix|..] == NatToString(a);
        assert ReadKey(scheme, b)[|ArticlePrefix|..] == NatToString(b);
      }
      NatToStringInjective(a, b);
    }
  }

  /** Deleting an article never touches the entry GetArticleByID reads, nor
      the listing. */
  lemma DeleteLeavesReadEntry(db: Db, c: CacheMap, id: nat, now: int, f: Faults)
    ensures var r := DeleteArticleByID(db, c, id, now, f);
            && (ReadKey(AsWritten, id) in c ==> ReadKey(AsWritten, id) in r.cache && r.cache[ReadKey(AsWritten, id)] == c[ReadKey(AsWritten, id)])
            && (ListKey in c ==> ListKey in r.cache && r.cache[ListKey] == c[ListKey])
  {
    KeysNeverMeet(id, id);
  }

  /** As written: once an article is cached under its bare id, deleting it
      does not stop GetArticleByID from serving it, although the store no
      longer has it. */
  lemma StaleReadAfterDelete(db: Db, c: CacheMap, id: nat, now: int, f: Faults, g: Faults)
    requires ArticleCached(c, ReadKey(AsWritten, id)) && !g.cacheGet
    ensures var d := DeleteArticleByID(db, c, id, now, f);
            var r := GetArticleByID(d.db, d.cache, AsWritten, id, g);
            && (d.result.Ok? ==> LoadArticle(d.db, id, true, true).None?)
            && r.result == Ok(Unmarshal(c[ReadKey(AsWritten, id)].blob.doc))
            && !r.storeRead
  {
    DeleteLeavesReadEntry(db, c, id, now, f);
  }

  /** The same with concrete values: article 1 read into the cache, deleted,
      and still served. */
  lemma StaleReadExample()
    ensures var author := UserRow("alice", "h", 0);
            var db := Db([author], [], [ArticleRow(1, "t", "c", 0, 0, None)], []);
            var first := GetArticleByID(db, map[], AsWritten, 1, NoFaults);
            var d := DeleteArticleByID(db, first.cache, 1, 5, NoFaults);
            var again := GetArticleByID(d.db, d.cache, AsWritten, 1, NoFaults);
            && d.result.Ok?
            && LoadArticle(d.db, 1, true, true).None?
            && again.result.Ok? && again.result.value.base.id == 1
  {
    var author := UserRow("alice", "h", 0);
    var db := Db([author], [], [ArticleRow(1, "t", "c", 0, 0, None)], []);
    var first := GetArticleByID(db, map[], AsWritten, 1, NoFaults);
    assert Live(db, 1);
    assert ArticleCached(first.cache, ReadKey(AsWritten, 1));
    StaleReadAfterDelete(db, first.cache, 1, 5, NoFaults, NoFaults);
  }

  /** Corrected: reading under "article:<id>", a successful deletion and
      invalidation make the next read miss and report the article gone. */
  lemma DeleteThenReadIsFresh(db: Db, c: CacheMap, id: nat, now: int, f: Faults, g: Faults)
    requires !f.store && !f.cacheDel && !g.store
    ensures var d := DeleteArticleByID(db, c, id, now, f);
            var r := GetArticleByID(d.db, d.cache, Prefixed, id, g);
            r.storeRead && r.result == Err(NotFound) && r.cache == d.cache
  {
  }

  /** The listing is never invalidated: a cached listing survives the
      deletion of any article and is served as before. */
  lemma ListingStaleAfterDelete(db: Db, c: CacheMap, id: nat, now: int, f: Faults, g: Faults)
    requires ListCached(c) && !g.cacheGet
    ensures var d := DeleteArticleByID(db, c, id, now, f);
            var r := GetArticlesWithDetails(d.db, d.cache, g);
            !r.storeRead && r.result == Ok(UnmarshalList(c[ListKey].blob.docs))
  {
    DeleteLeavesReadEntry(db, c, id, now, f);
  }

  /** A read that filled the cache is answered by the cache next time, with
      the same article less its password hash. */
  lemma ReadAfterRead(db: Db, c: CacheMap, scheme: KeyScheme, id: nat, f: Faults, g: Faults)
    requires !f.cacheSet && !g.cacheGet
    requires GetArticleByID(db, c, scheme, id, f).storeRead && GetArticleByID(db, c, scheme, id, f).result.Ok?
    ensures var first := GetArticleByID(db, c, scheme, id, f);
            var again := GetArticleByID(db, first.cache, scheme, id, g);
            !again.storeRead && again.result == Ok(Scrub(first.result.value))
  {
    ArticleRoundTrip(GetArticleByID(db, c, scheme, id, f).result.value);
  }

  /** The same for the listing. */
  lemma ListReadAfterRead(db: Db, c: CacheMap, f: Faults, g: Faults)
    requires !f.cacheSet && !g.cacheGet
    requires GetArticlesWithDetails(db, c, f).storeRead && GetArticlesWithDetails(db, c, f).result.Ok?
    ensures var first := GetArticlesWithDetails(db, c, f);
            var again := GetArticlesWithDetails(db, first.cache, g);
            && !again.storeRead && again.result.Ok?
            && |again.result.value| == |first.result.value|
            && forall i :: 0 <= i < |again.result.value| ==> again.result.value[i] == Scrub(first.result.value[i])
  {
    ListRoundTrip(GetArticlesWithDetails(db, c, f).result.value);
  }

  /** A failed cache write changes the cache, never the answer. */
  lemma CacheWriteFailureInvisible(db: Db, c: CacheMap, scheme: KeyScheme, id: nat, f: Faults)
    ensures GetArticleByID(db, c, scheme, id, f.(cacheSet := true)).result == GetArticleByID(db, c, scheme, id, f.(cacheSet := false)).result
    ensures GetArticlesWithDetails(db, c, f.(cacheSet := true)).result == GetArticlesWithDetails(db, c, f.(cacheSet := false)).result
  {
  }
}
