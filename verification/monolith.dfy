/** The monolith's handlers (internal/handler/handler.go) that differ from the
    article service's: AddArticle and DeleteArticle take the caller from the
    userID the middleware put in the context, neither touches a cache, and
    SearchArticles looks the caller up without checking for errors. Register
    and Login are the ones of the Auth module. */
module Monolith {
  import opened Wrappers
  import opened Models
  import opened Store
  import opened Text
  import opened Tags
  import opened Http
  import opened Writer
  import opened Submission
  import opened Pagination

  /** AddArticle (lines 95-201); userId is the context's userID, None when
      it is missing or not a uint. */
  function AddArticle(db: Db, req: Option<ArticleRequest>, userId: Option<nat>, now: int, f: WriteFaults,
                      reloadFails: bool): (r: Publication)
    ensures r.status in {StatusOK, StatusBadRequest, StatusInternalServerError}
    ensures r.status == StatusBadRequest <==> req.None? || !Complete(Trimmed(req.value))
    ensures req.Some? && Complete(Trimmed(req.value)) && userId.None? ==> r == Refuse(db, StatusInternalServerError)
    ensures r.status != StatusOK && r.trace == [] ==> r.session == Session(db, None)
    ensures r.status == StatusOK ==> userId.Some? && r.article.Some? && r.article.value.base.id == |db.articles| + 1
    ensures req.Some? && Complete(Trimmed(req.value)) && userId.Some? ==>
              var fs := Trimmed(req.value);
              var cr := CreateArticle(db, userId.value, fs.title, fs.content, fs.tags, now, f);
              && r.session == cr.session && r.trace == cr.trace
              && (r.status == StatusOK <==> cr.outcome.Ok? && !reloadFails)
              && (cr.outcome.Err? ==> r.status == StatusInternalServerError && r.session.committed == db)
  {
    if req.None? then Refuse(db, StatusBadRequest)
    else
      var fs := Trimmed(req.value);
      if !Complete(fs) then Refuse(db, StatusBadRequest)
      else if userId.None? then Refuse(db, StatusInternalServerError)
      else
        PublishOutcome(db, userId.value, fs, now, f, reloadFails);
        Publish(db, userId.value, fs, now, f, reloadFails)
  }

  /** DeleteArticle's answer: status, redirect target, store after it. */
  datatype Deleted = Deleted(status: nat, location: string, db: Db)

  /** DeleteArticle (lines 270-304): 400, 401 without a caller, 404, 403,
      500 when the delete fails, and a 302 back to the referer. */
  function DeleteArticle(db: Db, param: string, referer: string, userId: Option<nat>, lookupFails: bool,
                         deleteFails: bool, now: int): (r: Deleted)
    ensures r.status in {StatusFound, StatusBadRequest, StatusUnauthorized, StatusForbidden, StatusNotFound, StatusInternalServerError}
    ensures r.status != StatusFound ==> r.db == db
    ensures r.status == StatusBadRequest <==> ParseUint32(param).None?
    ensures r.status == StatusUnauthorized <==> ParseUint32(param).Some? && userId.None?
    ensures r.status == StatusForbidden <==>
              ParseUint32(param).Some? && userId.Some? && OwnerCheck(db, ParseUint32(param).value, userId.value, lookupFails) == NotAuthor
    ensures r.status == StatusNotFound <==>
              ParseUint32(param).Some? && userId.Some? && OwnerCheck(db, ParseUint32(param).value, userId.value, lookupFails) == Missing
    ensures r.status == StatusInternalServerError <==>
              && ParseUint32(param).Some? && userId.Some?
              && OwnerCheck(db, ParseUint32(param).value, userId.value, lookupFails) == Owner
              && deleteFails
    ensures r.status == StatusFound <==>
              && ParseUint32(param).Some? && userId.Some?
              && OwnerCheck(db, ParseUint32(param).value, userId.value, lookupFails) == Owner
              && !deleteFails
    ensures r.status == StatusFound ==> r.location == referer && r.db == SoftDelete(db, ParseUint32(param).value, now)
  {
    match ParseUint32(param)
    case None => Deleted(StatusBadRequest, "", db)
    case Some(id) =>
      if userId.None? then Deleted(StatusUnauthorized, "", db)
      else
        match OwnerCheck(db, id, userId.value, lookupFails)
        case Missing => Deleted(StatusNotFound, "", db)
        case NotAuthor => Deleted(StatusForbidden, "", db)
        case Owner =>
          if deleteFails then Deleted(StatusInternalServerError, "", db)
          else Deleted(StatusFound, referer, SoftDelete(db, id, now))
  }

  /** The context's userID as SearchArticles sees it. */
  datatype ContextUser = NoUser | UserId(id: nat)

  datatype Searched = Rejected(status: nat) | Rendered(articles: seq<Article>, username: string)

  /** The username SearchArticles renders. The guard userID != 0 compares an
      interface holding a uint (or nothing) with the int 0, so it always
      holds; the lookup's error is ignored and leaves the name empty. */
  function CurrentUsername(db: Db, user: ContextUser, lookupFails: bool): (name: string)
    ensures user.UserId? && !lookupFails && UserAt(db, user.id).Some? ==> name == UserAt(db, user.id).value.username
    ensures user.NoUser? || lookupFails || UserAt(db, user.id).None? ==> name == ""
  {
    match user
    case NoUser => ""
    case UserId(id) =>
      if lookupFails then ""
      else
        match UserAt(db, id)
        case None => ""
        case Some(u) => u.username
  }

  /** SearchArticles (lines 306-361); ranked holds the live matches in rank order. */
  function SearchArticles(db: Db, query: string, pageParam: string, ranked: seq<Article>, searchFails: bool,
                          user: ContextUser, lookupFails: bool): (r: Searched)
    ensures r == Rejected(StatusBadRequest) <==> query == ""
    ensures r == Rejected(StatusInternalServerError) <==> query != "" && searchFails
    ensures r.Rejected? ==> r.status in {StatusBadRequest, StatusInternalServerError}
    ensures r.Rendered? <==> query != "" && !searchFails
    ensures r.Rendered? ==> r.articles == SearchPage(ranked, pageParam) && r.username == CurrentUsername(db, user, lookupFails)
  {
    if query == "" then Rejected(StatusBadRequest)
    else if searchFails then Rejected(StatusInternalServerError)
    else Rendered(SearchPage(ranked, pageParam), CurrentUsername(db, user, lookupFails))
  }

  // ------------------------------------------------------------- properties

  /** Without a caller the transaction never begins. */
  lemma NoCallerNoTransaction(db: Db, req: ArticleRequest, now: int, f: WriteFaults, reloadFails: bool)
    ensures var r := AddArticle(db, Some(req), None, now, f, reloadFails);
            r.trace == [] && r.session == Session(db, None) && r.status in {StatusBadRequest, StatusInternalServerError}
  {
  }

  /** A committed request stores the trimmed fields, the tag candidates and the
      caller as author, like the article service's handler. */
  lemma AddArticleStoresRequest(db: Db, req: Option<ArticleRequest>, userId: Option<nat>, now: int, f: WriteFaults,
                                reloadFails: bool)
    requires Valid(db)
    requires AddArticle(db, req, userId, now, f, reloadFails).status == StatusOK
    ensures var r := AddArticle(db, req, userId, now, f, reloadFails);
            var a := r.article.value;
            var fs := Trimmed(req.value);
            && a.authorId == userId.value && a.title == fs.title && a.content == fs.content
            && multiset(TagContents(a.tags)) == multiset(Candidates(fs.tags))
            && Valid(r.session.committed)
  {
    PublishedArticle(db, userId.value, Trimmed(req.value), now, f, reloadFails);
  }

  /** Any failure of the transaction answers 500 and commits nothing. */
  lemma FailedTransactionCommitsNothing(db: Db, req: ArticleRequest, userId: nat, now: int, f: WriteFaults, reloadFails: bool)
    requires Complete(Trimmed(req))
    requires var fs := Trimmed(req);
             CreateArticle(db, userId, fs.title, fs.content, fs.tags, now, f).outcome.Err?
    ensures var r := AddArticle(db, Some(req), Some(userId), now, f, reloadFails);
            r.status == StatusInternalServerError && r.session.committed == db
  {
    PublishOutcome(db, userId, Trimmed(req), now, f, reloadFails);
  }

  /** A search on a page below 1, an unparsable one included, shows the first page. */
  lemma SearchClampsPage(db: Db, query: string, pageParam: string, ranked: seq<Article>, searchFails: bool,
                         user: ContextUser, lookupFails: bool)
    requires Atoi(pageParam) < 1
    ensures SearchArticles(db, query, pageParam, ranked, searchFails, user, lookupFails)
            == SearchArticles(db, query, "1", ranked, searchFails, user, lookupFails)
  {
    PageBelowOneIsFirstPage(ranked, pageParam);
  }

  /** Deleting hides exactly the caller's article, whose author is the caller. */
  lemma OnlyAuthorDeletes(db: Db, param: string, referer: string, userId: Option<nat>, lookupFails: bool,
                          deleteFails: bool, now: int, other: nat)
    requires DeleteArticle(db, param, referer, userId, lookupFails, deleteFails, now).status == StatusFound
    ensures var r := DeleteArticle(db, param, referer, userId, lookupFails, deleteFails, now);
            var id := ParseUint32(param).value;
            && db.articles[id - 1].authorId == userId.value
            && LoadArticle(r.db, id, true, true).None?
            && (other != id ==> LoadArticle(r.db, other, true, true) == LoadArticle(db, other, true, true))
  {
    var id := ParseUint32(param).value;
    if other != id {
      SoftDeleteHidesOnlyTarget(db, id, now, other, true, true);
    }
  }
}
