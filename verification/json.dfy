/** The JSON documents json.Marshal produces for the models, as the cache
    stores them. PasswordHash carries the tag json:"-", so a serialised user
    has no password field at all. */
module Json {
  import opened Wrappers
  import opened Models

  datatype UserDoc = UserDoc(base: Base, username: string)

  datatype ArticleDoc = ArticleDoc(
    base: Base,
    authorId: nat,
    title: string,
    content: string,
    numViews: int,
    author: UserDoc,
    tags: seq<Tag>)

  /** What a cache entry can hold: one article, an article list, or bytes
      that do not decode as either. */
  datatype Blob = ArticleBlob(doc: ArticleDoc) | ListBlob(docs: seq<ArticleDoc>) | Garbage(bytes: string)

  function MarshalUser(u: User): UserDoc {
    UserDoc(u.base, u.username)
  }

  function UnmarshalUser(d: UserDoc): User {
    User(d.base, d.username, "")
  }

  function Marshal(a: Article): ArticleDoc {
    ArticleDoc(a.base, a.authorId, a.title, a.content, a.numViews, MarshalUser(a.author), a.tags)
  }

  function Unmarshal(d: ArticleDoc): Article {
    Article(d.base, d.authorId, d.title, d.content, d.numViews, UnmarshalUser(d.author), d.tags)
  }

  function MarshalList(articles: seq<Article>): (r: seq<ArticleDoc>)
    ensures |r| == |articles|
  {
    seq(|articles|, i requires 0 <= i < |articles| => Marshal(articles[i]))
  }

  function UnmarshalList(docs: seq<ArticleDoc>): (r: seq<Article>)
    ensures |r| == |docs|
  {
    seq(|docs|, i requires 0 <= i < |docs| => Unmarshal(docs[i]))
  }

  /** The article with its author's password hash dropped. */
  function Scrub(a: Article): Article {
    a.(author := a.author.(passwordHash := ""))
  }

  /** json.Unmarshal into an Article: only an object decodes. */
  function DecodeArticle(b: Blob): Option<Article> {
    match b
    case ArticleBlob(d) => Some(Unmarshal(d))
    case _ => None
  }

  /** json.Unmarshal into []Article: only an array decodes. */
  function DecodeList(b: Blob): Option<seq<Article>> {
    match b
    case ListBlob(ds) => Some(UnmarshalList(ds))
    case _ => None
  }

  /** Serialising then deserialising keeps every field but the password hash. */
  lemma ArticleRoundTrip(a: Article)
    ensures DecodeArticle(ArticleBlob(Marshal(a))) == Some(Scrub(a))
    ensures Marshal(Unmarshal(Marshal(a))) == Marshal(a)
  {
  }

  lemma ListRoundTrip(articles: seq<Article>)
    ensures DecodeList(ListBlob(MarshalList(articles))).Some?
    ensures var back := DecodeList(ListBlob(MarshalList(articles))).value;
            |back| == |articles| && forall i :: 0 <= i < |back| ==> back[i] == Scrub(articles[i])
  {
  }

  /** Nothing decoded from the cache carries a password hash. */
  lemma DecodedHasNoHash(b: Blob)
    ensures DecodeArticle(b).Some? ==> DecodeArticle(b).value.author.passwordHash == ""
    ensures DecodeList(b).Some? ==> forall a :: a in DecodeList(b).value ==> a.author.passwordHash == ""
  {
  }
}
