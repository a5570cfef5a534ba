/** The article service's HTTP handlers (internal/article/handler/handler.go):
    AddArticle with its post-commit cache invalidation, GetArticle,
    DeleteArticle and SearchArticles. The caller is identified through the
    jwt cookie; which cache key GetArticle reads is the scheme parameter. */
module ArticleHandler {
  import opened Wrappers
  import opened Models
  import opened Store
  import opened Text
  import opened Http
  import opened Json
  import opened Cache
  import opened Tags
  import opened Writer
  import opened Submission
  import opened ArticleService
  import opened Middleware
  import opened Pagination

  /** AddArticle's answer, and the cache after it. */
  datatype Added = Added(reply: Publication, cache: CacheMap)

  /** The answer of AddArticle (lines 18-121, 130-133), which the cache
      invalidation after the commit does not influence. */
  function Answer(db: Db, req: Option<ArticleRequest>, cookies: map<string, string>, validate: Validator,
                  now: int, f: WriteFaults, reloadFails: bool): (r: Publication)
    ensures r.status == StatusOK ==> r.article.Some?
    ensures req.Some? && Complete(Trimmed(req.value)) && !GetUserIDFromToken(cookies, validate).failed ==>
              var fs := Trimmed(req.value);
              var cr := CreateArticle(db, GetUserIDFromToken(cookies, validate).id, fs.title, fs.content, fs.tags, now, f);
              && r.session == cr.session && r.trace == cr.trace
              && (r.status == StatusOK <==> cr.outcome.Ok? && !reloadFails)
              && (cr.outcome.Err? ==> r.status == StatusInternalServerError && r.session.committed == db)
  {
    if req.None? then Refuse(db, StatusBadRequest)
    else
      var fs := Trimmed(req.value);
      if !Complete(fs) then Refuse(db, StatusBadRequest)
      else
        var caller := GetUserIDFromToken(cookies, validate);
        if caller.failed then Refuse(db, StatusUnauthorized)
        else
          PublishOutcome(db, caller.id, fs, now, f, reloadFails);
          Publish(db, caller.id, fs, now, f, reloadFails)
  }

  /** AddArticle (lines 18-134). req is None when the body does not bind. */
  function AddArticle(db: Db, c: CacheMap, req: Option<ArticleRequest>, cookies: map<string, string>, validate: Validator,
                      now: int, f: WriteFaults, reloadFails: bool, delFails: bool): (r: Added)
    ensures r.reply.status in {StatusOK, StatusBadRequest, StatusUnauthorized, StatusInternalServerError}
    ensures r.reply.status == StatusBadRequest <==> req.None? || !Complete(Trimmed(req.value))
    ensures r.reply.status == StatusUnauthorized <==>
              req.Some? && Complete(Trimmed(req.value)) && GetUserIDFromToken(cookies, validate).failed
    ensures r.reply.status in {StatusBadRequest, StatusUnauthorized} ==>
              r.reply.trace == [] && r.reply.session == Session(db, None) && r.cache == c
    ensures r.reply.status != StatusOK ==> r.cache == c
    ensures req.Some? && Complete(Trimmed(req.value)) && !GetUserIDFromToken(cookies, validate).failed ==>
              var fs := Trimmed(req.value);
              var cr := CreateArticle(db, GetUserIDFromToken(cookies, validate).id, fs.title, fs.content, fs.tags, now, f);
              && r.reply.session == cr.session && r.reply.trace == cr.trace
              && (r.reply.status == StatusOK <==> cr.outcome.Ok? && !reloadFails)
              && (cr.outcome.Err? ==> r.reply.status == StatusInternalServerError && r.reply.session.committed == db)
    ensures r.reply.status == StatusOK ==>
              r.reply.article.Some? && r.cache == Del(c, InvalidateKey(r.reply.article.value.base.id), delFails)
  {
    var p := Answer(db, req, cookies, validate, now, f, reloadFails);
    if p.status != StatusOK then Added(p, c)
    else Added(p, Del(c, InvalidateKey(p.article.value.base.id), delFails))
  }

  /** GetArticle (lines 159-174): a malformed id and every service error
      answer 400. */
  datatype Shown = Shown(status: nat, article: Option<Article>, cache: CacheMap)

  function GetArticle(db: Db, c: CacheMap, scheme: KeyScheme, param: string, f: Faults): (r: Shown)
    ensures r.status in {StatusOK, StatusBadRequest}
    ensures ParseUint32(param).None? ==> r == Shown(StatusBadRequest, None, c)
    ensures ParseUint32(param).Some? ==>
              var fetch := GetArticleByID(db, c, scheme, ParseUint32(param).value, f);
              && r.cache == fetch.cache
              && (r.status == StatusOK <==> fetch.result.Ok?)
              && (r.status == StatusOK ==> r.article == Some(fetch.result.value))
  {
    match ParseUint32(param)
    case None => Shown(StatusBadRequest, None, c)
    case Some(id) =>
      var fetch := GetArticleByID(db, c, scheme, id, f);
      if fetch.result.Err? then Shown(StatusBadRequest, None, fetch.cache)
      else Shown(StatusOK, Some(fetch.result.value), fetch.cache)
  }

  /** DeleteArticle's answer: status, redirect target, store and cache after it. */
  datatype Deleted = Deleted(status: nat, location: string, db: Db, cache: CacheMap)

  /** DeleteArticle (lines 176-202): 400, then 500 without a caller, 404, 403,
      500 when the delete fails, and a 302 back to the referer. */
  function DeleteArticle(db: Db, c: CacheMap, param: string, referer: string, cookies: map<string, string>,
                         validate: Validator, lookupFails: bool, now: int, f: Faults): (r: Deleted)
    ensures r.status in {StatusFound, StatusBadRequest, StatusForbidden, StatusNotFound, StatusInternalServerError}
    ensures r.status != StatusFound ==> r.db == db && r.cache == c
    ensures r.status == StatusBadRequest <==> ParseUint32(param).None?
    ensures ParseUint32(param).Some? ==>
              var id := ParseUint32(param).value;
              var caller := GetUserIDFromToken(cookies, validate);
              && (r.status == StatusNotFound <==> !caller.failed && OwnerCheck(db, id, caller.id, lookupFails) == Missing)
              && (r.status == StatusForbidden <==> !caller.failed && OwnerCheck(db, id, caller.id, lookupFails) == NotAuthor)
              && (r.status == StatusInternalServerError <==>
                    caller.failed || (OwnerCheck(db, id, caller.id, lookupFails) == Owner && f.store))
              && (r.status == StatusFound <==>
                    !caller.failed && OwnerCheck(db, id, caller.id, lookupFails) == Owner && !f.store)
    ensures r.status == StatusFound ==>
              && ParseUint32(param).Some?
              && var id := ParseUint32(param).value;
                 && LoadArticle(db, id, false, false).Some?
                 && db.articles[id - 1].authorId == GetUserIDFromToken(cookies, validate).id
                 && r.location == referer
                 && r == Deleted(StatusFound, referer, SoftDelete(db, id, now), Del(c, InvalidateKey(id), f.cacheDel))
  {
    match ParseUint32(param)
    case None => Deleted(StatusBadRequest, "", db, c)
    case Some(id) =>
      var caller := GetUserIDFromToken(cookies, validate);
      if caller.failed then Deleted(StatusInternalServerError, "", db, c)
      else
        match OwnerCheck(db, id, caller.id, lookupFails)
        case Missing => Deleted(StatusNotFound, "", db, c)
        case NotAuthor => Deleted(StatusForbidden, "", db, c)
        case Owner =>
          var d := DeleteArticleByID(db, c, id, now, f);
          if d.result.Err? then Deleted(StatusInternalServerError, "", db, c)
          else Deleted(StatusFound, referer, d.db, d.cache)
  }

  /** SearchArticles' answer. The article service installs no panic recovery,
      so log.Panicf ends the request without a response. */
  datatype Searched = Rejected(status: nat) | Rendered(articles: seq<Article>, username: string) | Panicked

  /** SearchArticles (lines 204-266). ranked holds the live articles matching
      the query in rank order, as the database returns them. */
  function SearchArticles(db: Db, query: string, pageParam: string, ranked: seq<Article>, searchFails: bool,
                          cookies: map<string, string>, validate: Validator, userLookupFails: bool): (r: Searched)
    ensures r == Rejected(StatusBadRequest) <==> query == ""
    ensures r.Rejected? ==> r.status in {StatusBadRequest, StatusInternalServerError}
    ensures r == Rejected(StatusInternalServerError) <==>
              query != "" && (searchFails || GetUserIDFromToken(cookies, validate).failed)
    ensures r.Rendered? <==>
              query != "" && !searchFails && !GetUserIDFromToken(cookies, validate).failed
              && !userLookupFails && UserAt(db, GetUserIDFromToken(cookies, validate).id).Some?
    ensures r.Rendered? ==> r.articles == SearchPage(ranked, pageParam) && |r.articles| <= PageSize
    ensures r.Rendered? ==> r.username == UserAt(db, GetUserIDFromToken(cookies, validate).id).value.username
    ensures r.Panicked? <==>
              query != "" && !searchFails && !GetUserIDFromToken(cookies, validate).failed
              && (userLookupFails || UserAt(db, GetUserIDFromToken(cookies, validate).id).None?)
  {
    if query == "" then Rejected(StatusBadRequest)
    else
      var page := SearchPage(ranked, pageParam);
      if searchFails then Rejected(StatusInternalServerError)
      else
        var caller := GetUserIDFromToken(cookies, validate);
        if caller.failed then Rejected(StatusInternalServerError)
        else if userLookupFails then Panicked
        else
          match UserAt(db, caller.id)
          case None => Panicked
          case Some(u) => Rendered(page, u.username)
  }

  // ------------------------------------------------------------- properties

  /** A request that passes validation and commits stores the trimmed fields,
      its tag candidates, and the caller as author. */
  lemma AddArticleStoresRequest(db: Db, c: CacheMap, req: Option<ArticleRequest>, cookies: map<string, string>,
                                validate: Validator, now: int, f: WriteFaults, reloadFails: bool, delFails: bool)
    requires Valid(db)
    requires AddArticle(db, c, req, cookies, validate, now, f, reloadFails, delFails).reply.status == StatusOK
    ensures var r := AddArticle(db, c, req, cookies, validate, now, f, reloadFails, delFails);
            var a := r.reply.article.value;
            var fs := Trimmed(req.value);
            && a.authorId == GetUserIDFromToken(cookies, validate).id
            && a.title == TrimSpace(req.value.title) && a.content == TrimSpace(req.value.content)
            && multiset(TagContents(a.tags)) == multiset(Candidates(fs.tags))
            && Valid(r.reply.session.committed)
  {
    PublishedArticle(db, GetUserIDFromToken(cookies, validate).id, Trimmed(req.value), now, f, reloadFails);
  }

  /** A failed cache delete is only logged: the answer is the same. */
  lemma InvalidationFailureInvisible(db: Db, c: CacheMap, req: Option<ArticleRequest>, cookies: map<string, string>,
                                     validate: Validator, now: int, f: WriteFaults, reloadFails: bool)
    ensures AddArticle(db, c, req, cookies, validate, now, f, reloadFails, true).reply
            == AddArticle(db, c, req, cookies, validate, now, f, reloadFails, false).reply
  {
  }

  /** AddArticle deletes "article:<id>" and so never touches an entry that
      GetArticleByID reads under a bare id. */
  lemma AddArticleKeepsReadEntries(db: Db, c: CacheMap, req: Option<ArticleRequest>, cookies: map<string, string>,
                                   validate: Validator, now: int, f: WriteFaults, reloadFails: bool, delFails: bool, id: nat)
    requires ReadKey(AsWritten, id) in c
    ensures var r := AddArticle(db, c, req, cookies, validate, now, f, reloadFails, delFails);
            ReadKey(AsWritten, id) in r.cache && r.cache[ReadKey(AsWritten, id)] == c[ReadKey(AsWritten, id)]
  {
    var r := AddArticle(db, c, req, cookies, validate, now, f, reloadFails, delFails);
    if r.reply.status == StatusOK {
      KeysNeverMeet(id, r.reply.article.value.base.id);
    }
  }

  /** The formatted id of an article reaches the service unchanged. */
  lemma FormattedIdReachesService(db: Db, c: CacheMap, scheme: KeyScheme, id: nat, f: Faults)
    requires id <= MaxUint32
    ensures var r := GetArticle(db, c, scheme, NatToString(id), f);
            var fetch := GetArticleByID(db, c, scheme, id, f);
            r.cache == fetch.cache && (r.status == StatusOK <==> fetch.result.Ok?)
  {
    ParseFormattedId(id);
  }

  /** Only the author deletes, and the deletion hides exactly that article. */
  lemma OnlyAuthorDeletes(db: Db, c: CacheMap, param: string, referer: string, cookies: map<string, string>,
                          validate: Validator, lookupFails: bool, now: int, f: Faults, other: nat)
    requires DeleteArticle(db, c, param, referer, cookies, validate, lookupFails, now, f).status == StatusFound
    ensures var r := DeleteArticle(db, c, param, referer, cookies, validate, lookupFails, now, f);
            var id := ParseUint32(param).value;
            && !GetUserIDFromToken(cookies, validate).failed
            && OwnerCheck(db, id, GetUserIDFromToken(cookies, validate).id, lookupFails) == Owner
            && LoadArticle(r.db, id, true, true).None?
            && (other != id ==> LoadArticle(r.db, other, true, true) == LoadArticle(db, other, true, true))
  {
    var id := ParseUint32(param).value;
    if other != id {
      SoftDeleteHidesOnlyTarget(db, id, now, other, true, true);
    }
  }

  /** The author of a live article, with no store or cache fault, always
      deletes it. */
  lemma AuthorCanDelete(db: Db, c: CacheMap, id: nat, referer: string, cookies: map<string, string>,
                        validate: Validator, now: int)
    requires id <= MaxUint32 && Live(db, id)
    requires !GetUserIDFromToken(cookies, validate).failed
    requires db.articles[id - 1].authorId == GetUserIDFromToken(cookies, validate).id
    ensures DeleteArticle(db, c, NatToString(id), referer, cookies, validate, false, now, ArticleService.NoFaults).status == StatusFound
  {
    ParseFormattedId(id);
  }

  /** Search pages below 1, unparsable ones included, show the first page. */
  lemma SearchClampsPage(db: Db, query: string, pageParam: string, ranked: seq<Article>, searchFails: bool,
                         cookies: map<string, string>, validate: Validator, userLookupFails: bool)
    requires Atoi(pageParam) < 1
    ensures SearchArticles(db, query, pageParam, ranked, searchFails, cookies, validate, userLookupFails)
            == SearchArticles(db, query, "1", ranked, searchFails, cookies, validate, userLookupFails)
  {
    PageBelowOneIsFirstPage(ranked, pageParam);
  }
}
