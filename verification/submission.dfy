/** The part of AddArticle both variants share around the transaction: the
    request body, its trimmed fields, and the commit followed by the reload
    of the new article for the response (Preload("Tags") only, so the
    response carries no author). */
module Submission {
  import opened Wrappers
  import opened Models
  import opened Store
  import opened Text
  import opened Tags
  import opened Http
  import opened Writer

  /** The bound body: article-title, article-content, tags. */
  datatype ArticleRequest = ArticleRequest(title: string, content: string, tags: string)

  /** Title, content and tag field after strings.TrimSpace. */
  datatype Fields = Fields(title: string, content: string, tags: string)

  function Trimmed(req: ArticleRequest): (r: Fields)
    ensures IsTrimOf(r.title, req.title) && IsTrimOf(r.content, req.content) && IsTrimOf(r.tags, req.tags)
  {
    TrimSpaceIsTrim(req.title);
    TrimSpaceIsTrim(req.content);
    TrimSpaceIsTrim(req.tags);
    Fields(TrimSpace(req.title), TrimSpace(req.content), TrimSpace(req.tags))
  }

  /** Both title and content are required once trimmed. */
  predicate Complete(fs: Fields) {
    fs.title != "" && fs.content != ""
  }

  /** The status, the session afterwards, the transaction's calls and the
      article sent back. */
  datatype Publication = Publication(status: nat, session: Session, trace: seq<Step>, article: Option<Article>)

  /** A request answered before the transaction begins. */
  function Refuse(db: Db, status: nat): Publication {
    Publication(status, Session(db, None), [], None)
  }

  /** The transaction, then First(&article, article.ID) with the tags
      preloaded; a failed reload answers 500 although the article is committed. */
  function Publish(db: Db, authorId: nat, fs: Fields, now: int, f: WriteFaults, reloadFails: bool): (r: Publication)
    ensures r.status in {StatusOK, StatusInternalServerError}
    ensures r.status == StatusOK ==> r.article.Some? && r.article.value.base.id == |db.articles| + 1
    ensures r.status != StatusOK ==> r.article.None?
  {
    var cr := CreateArticle(db, authorId, fs.title, fs.content, fs.tags, now, f);
    if cr.outcome.Err? || reloadFails then Publication(StatusInternalServerError, cr.session, cr.trace, None)
    else
      CommittedStore(db, authorId, fs.title, fs.content, Candidates(fs.tags), now, f);
      match LoadArticle(cr.session.committed, cr.outcome.value, false, true)
      case None => Publication(StatusInternalServerError, cr.session, cr.trace, None)
      case Some(a) => Publication(StatusOK, cr.session, cr.trace, Some(a))
  }

  /** The session and calls are the transaction's; the answer is 200 exactly
      when it commits and the reload succeeds. */
  lemma PublishOutcome(db: Db, authorId: nat, fs: Fields, now: int, f: WriteFaults, reloadFails: bool)
    ensures var r := Publish(db, authorId, fs, now, f, reloadFails);
            var cr := CreateArticle(db, authorId, fs.title, fs.content, fs.tags, now, f);
            && r.session == cr.session && r.trace == cr.trace
            && (r.status == StatusOK <==> cr.outcome.Ok? && !reloadFails)
  {
  }

  /** The article sent back is the request as stored: the requester as author,
      the trimmed title and content, no views, no author loaded, and exactly
      the tag candidates of the trimmed field, each once; the store
      keeps its constraints. */
  lemma PublishedArticle(db: Db, authorId: nat, fs: Fields, now: int, f: WriteFaults, reloadFails: bool)
    requires Valid(db)
    requires Publish(db, authorId, fs, now, f, reloadFails).status == StatusOK
    ensures var r := Publish(db, authorId, fs, now, f, reloadFails);
            var a := r.article.value;
            && a.authorId == authorId && a.title == fs.title && a.content == fs.content
            && a.numViews == NumViewsDefault && a.author == ZeroUser
            && multiset(TagContents(a.tags)) == multiset(Candidates(fs.tags))
            && Valid(r.session.committed)
  {
    CreatedArticleTags(db, authorId, fs.title, fs.content, fs.tags, now, f);
    TransactLoadsBack(db, authorId, fs.title, fs.content, Candidates(fs.tags), now, f);
  }
}
