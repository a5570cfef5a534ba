/** The relational store behind GORM: tables users, tags, articles and the
    many-to-many association article_tags. Row k of a table has primary key
    k + 1 (auto-increment from 1). Queries scope out soft-deleted articles, as
    GORM's default scope for models embedding gorm.Model does. */
module Store {
  import opened Wrappers
  import opened Models

  datatype UserRow = UserRow(username: string, passwordHash: string, createdAt: int)
  datatype TagRow = TagRow(content: string, createdAt: int)
  datatype ArticleRow = ArticleRow(
    authorId: nat,
    title: string,
    content: string,
    numViews: int,
    createdAt: int,
    deletedAt: Option<int>)
  datatype Link = Link(articleId: nat, tagId: nat)

  datatype Db = Db(users: seq<UserRow>, tags: seq<TagRow>, articles: seq<ArticleRow>, links: seq<Link>)

  /** The table constraints: unique usernames and tag contents, the author
      foreign key, association rows that point at existing rows, no duplicate pair. */
  predicate Valid(db: Db) {
    && (forall i, j :: 0 <= i < j < |db.users| ==> db.users[i].username != db.users[j].username)
    && (forall i, j :: 0 <= i < j < |db.tags| ==> db.tags[i].content != db.tags[j].content)
    && (forall k :: 0 <= k < |db.articles| ==> 1 <= db.articles[k].authorId <= |db.users|)
    && (forall l :: l in db.links ==> 1 <= l.articleId <= |db.articles| && 1 <= l.tagId <= |db.tags|)
    && (forall i, j :: 0 <= i < j < |db.links| ==> db.links[i] != db.links[j])
  }

  function MkUser(id: nat, row: UserRow): User {
    User(Base(id, row.createdAt, None), row.username, row.passwordHash)
  }

  function MkTag(id: nat, row: TagRow): Tag {
    Tag(Base(id, row.createdAt, None), row.content)
  }

  function UserAt(db: Db, id: nat): Option<User> {
    if 1 <= id <= |db.users| then Some(MkUser(id, db.users[id - 1])) else None
  }

  function TagAt(tags: seq<TagRow>, id: nat): Option<Tag> {
    if 1 <= id <= |tags| then Some(MkTag(id, tags[id - 1])) else None
  }

  /** The article row exists and is not soft-deleted. */
  predicate Live(db: Db, id: nat) {
    1 <= id <= |db.articles| && db.articles[id - 1].deletedAt.None?
  }

  // ------------------------------------------------------------------ users

  predicate UsernameTaken(db: Db, name: string) {
    exists j :: 0 <= j < |db.users| && db.users[j].username == name
  }

  function FirstUserFrom(users: seq<UserRow>, name: string, k: nat): (r: Option<nat>)
    requires k <= |users|
    ensures r.Some? ==> k < r.value <= |users| && users[r.value - 1].username == name
    ensures r.Some? ==> forall j :: k <= j < r.value - 1 ==> users[j].username != name
    ensures r.None? ==> forall j :: k <= j < |users| ==> users[j].username != name
    decreases |users| - k
  {
    if k == |users| then None
    else if users[k].username == name then Some(k + 1)
    else FirstUserFrom(users, name, k + 1)
  }

  /** Where("username = ?", name).First(&user): the matching row with the
      smallest primary key. */
  function FindUserByName(db: Db, name: string): (r: Option<User>)
    ensures r.Some? ==> r.value.username == name && UserAt(db, r.value.base.id) == r
    ensures r.Some? ==> forall j :: 0 <= j < r.value.base.id - 1 ==> db.users[j].username != name
    ensures r.None? <==> !UsernameTaken(db, name)
  {
    match FirstUserFrom(db.users, name, 0)
    case None => None
    case Some(id) => Some(MkUser(id, db.users[id - 1]))
  }

  /** Create(&user): fails on a column too wide or a username already present. */
  function InsertUser(db: Db, username: string, passwordHash: string, now: int): (r: Option<(Db, User)>)
    ensures r.None? <==> !UserFitsSchema(username, passwordHash) || UsernameTaken(db, username)
    ensures r.Some? ==> r.value.0 == db.(users := db.users + [UserRow(username, passwordHash, now)])
    ensures r.Some? ==> r.value.1 == MkUser(|db.users| + 1, UserRow(username, passwordHash, now))
  {
    if !UserFitsSchema(username, passwordHash) || FindUserByName(db, username).Some? then None
    else
      var row := UserRow(username, passwordHash, now);
      Some((db.(users := db.users + [row]), MkUser(|db.users| + 1, row)))
  }

  lemma InsertUserKeepsValid(db: Db, username: string, passwordHash: string, now: int)
    requires Valid(db)
    requires InsertUser(db, username, passwordHash, now).Some?
    ensures Valid(InsertUser(db, username, passwordHash, now).value.0)
  {
    var db' := InsertUser(db, username, passwordHash, now).value.0;
    forall i, j | 0 <= i < j < |db'.users|
      ensures db'.users[i].username != db'.users[j].username
    {
      if j == |db.users| {
        assert db.users[i].username != username;
      }
    }
  }

  // ------------------------------------------------------------------- tags

  /** The tag rows among the first n whose content is one of names, in table order. */
  function TagsMatching(tags: seq<TagRow>, names: seq<string>, n: nat): (r: seq<Tag>)
    requires n <= |tags|
    ensures forall t :: t in r ==> t.content in names && 1 <= t.base.id <= n && TagAt(tags, t.base.id) == Some(t)
    ensures forall k :: 0 <= k < n && tags[k].content in names ==> MkTag(k + 1, tags[k]) in r
  {
    if n == 0 then []
    else
      var prefix := TagsMatching(tags, names, n - 1);
      if tags[n - 1].content in names then prefix + [MkTag(n, tags[n - 1])] else prefix
  }

  /** Where("tag_content IN (?)", names).Find(&existTags), one batched query. */
  function FindTagsByContent(db: Db, names: seq<string>): seq<Tag> {
    TagsMatching(db.tags, names, |db.tags|)
  }

  /** Some tag row already holds this content. */
  predicate TagExists(db: Db, content: string) {
    exists k :: 0 <= k < |db.tags| && db.tags[k].content == content
  }

  function NewTagRows(names: seq<string>, now: int): (r: seq<TagRow>)
    ensures |r| == |names|
  {
    seq(|names|, i requires 0 <= i < |names| => TagRow(names[i], now))
  }

  /** The rows a bulk insert writes, as the slice GORM fills back with their ids. */
  function CreatedTags(first: nat, names: seq<string>, now: int): (r: seq<Tag>)
    ensures |r| == |names|
    ensures forall i :: 0 <= i < |names| ==> r[i].content == names[i] && r[i].base.id == first + i + 1
  {
    seq(|names|, i requires 0 <= i < |names| => MkTag(first + i + 1, TagRow(names[i], now)))
  }

  /** The bulk insert would violate a column type or the unique constraint. */
  predicate TagInsertViolates(db: Db, names: seq<string>) {
    || (exists i :: 0 <= i < |names| && !TagFitsSchema(names[i]))
    || (exists i :: 0 <= i < |names| && TagExists(db, names[i]))
    || (exists i, j :: 0 <= i < j < |names| && names[i] == names[j])
  }

  /** Create(&newTags): all rows or none. */
  function InsertTags(db: Db, names: seq<string>, now: int): (r: Option<(Db, seq<Tag>)>)
    ensures r.None? <==> TagInsertViolates(db, names)
    ensures r.Some? ==> r.value.0 == db.(tags := db.tags + NewTagRows(names, now))
    ensures r.Some? ==> r.value.1 == CreatedTags(|db.tags|, names, now)
  {
    if TagInsertViolates(db, names) then None
    else Some((db.(tags := db.tags + NewTagRows(names, now)), CreatedTags(|db.tags|, names, now)))
  }

  lemma TagAtExtends(tags: seq<TagRow>, more: seq<TagRow>, id: nat)
    requires TagAt(tags, id).Some?
    ensures TagAt(tags + more, id) == TagAt(tags, id)
  {
  }

  /** Every tag the bulk insert reports back is the stored row with that id. */
  lemma CreatedTagsStored(db: Db, names: seq<string>, now: int)
    ensures var tags := db.tags + NewTagRows(names, now);
            forall t :: t in CreatedTags(|db.tags|, names, now) ==> TagAt(tags, t.base.id) == Some(t)
  {
    var tags := db.tags + NewTagRows(names, now);
    forall t | t in CreatedTags(|db.tags|, names, now)
      ensures TagAt(tags, t.base.id) == Some(t)
    {
      var i :| 0 <= i < |names| && CreatedTags(|db.tags|, names, now)[i] == t;
      assert tags[|db.tags| + i] == TagRow(names[i], now);
    }
  }

  // --------------------------------------------------------------- articles

  /** Create(&article): the author foreign key must name an existing user. */
  function InsertArticle(db: Db, row: ArticleRow): (r: Option<(Db, nat)>)
    ensures r.None? <==> !(1 <= row.authorId <= |db.users|)
    ensures r.Some? ==> r.value.0 == db.(articles := db.articles + [row]) && r.value.1 == |db.articles| + 1
  {
    if 1 <= row.authorId <= |db.users| then Some((db.(articles := db.articles + [row]), |db.articles| + 1))
    else None
  }

  function LinksFor(articleId: nat, tags: seq<Tag>): (r: seq<Link>)
    ensures |r| == |tags|
  {
    seq(|tags|, i requires 0 <= i < |tags| => Link(articleId, tags[i].base.id))
  }

  /** Association("Tags").Append(tags): one article_tags row per tag. */
  function AppendLinks(db: Db, articleId: nat, tags: seq<Tag>): Db {
    db.(links := db.links + LinksFor(articleId, tags))
  }

  /** Preload("Tags"): the tags associated with the article. GORM fetches
      them with `id IN (...)` and no ORDER BY, so their order is not
      specified; the model lists them in association-row order, and the
      properties about loaded tags promise only which tags come back. */
  function LinkedTags(tags: seq<TagRow>, links: seq<Link>, articleId: nat): seq<Tag> {
    if links == [] then []
    else
      var l := links[|links| - 1];
      var prefix := LinkedTags(tags, links[..|links| - 1], articleId);
      if l.articleId == articleId && TagAt(tags, l.tagId).Some? then prefix + [TagAt(tags, l.tagId).value] else prefix
  }

  lemma {:induction false} LinkedTagsAppend(tags: seq<TagRow>, xs: seq<Link>, ys: seq<Link>, articleId: nat)
    ensures LinkedTags(tags, xs + ys, articleId) == LinkedTags(tags, xs, articleId) + LinkedTags(tags, ys, articleId)
    decreases |ys|
  {
    if ys == [] {
      assert xs + ys == xs;
    } else {
      assert (xs + ys)[..|xs + ys| - 1] == xs + ys[..|ys| - 1];
      LinkedTagsAppend(tags, xs, ys[..|ys| - 1], articleId);
    }
  }

  lemma {:induction false} LinkedTagsNone(tags: seq<TagRow>, links: seq<Link>, articleId: nat)
    requires forall l :: l in links ==> l.articleId != articleId
    ensures LinkedTags(tags, links, articleId) == []
    decreases |links|
  {
    if links != [] {
      assert forall l :: l in links[..|links| - 1] ==> l in links;
      LinkedTagsNone(tags, links[..|links| - 1], articleId);
    }
  }

  /** The content of each tag in a list. */
  function TagContents(ts: seq<Tag>): (r: seq<string>)
    ensures |r| == |ts|
  {
    seq(|ts|, i requires 0 <= i < |ts| => ts[i].content)
  }

  /** Freshly appended association rows link back exactly the appended tags. */
  lemma {:induction false} LinkedTagsOfLinksFor(tags: seq<TagRow>, ts: seq<Tag>, articleId: nat)
    requires forall t :: t in ts ==> TagAt(tags, t.base.id) == Some(t)
    ensures LinkedTags(tags, LinksFor(articleId, ts), articleId) == ts
    decreases |ts|
  {
    if ts != [] {
      var init := ts[..|ts| - 1];
      assert LinksFor(articleId, ts)[..|ts| - 1] == LinksFor(articleId, init);
      assert forall t :: t in init ==> t in ts;
      LinkedTagsOfLinksFor(tags, init, articleId);
      assert ts[|ts| - 1] in ts;
      assert init + [ts[|ts| - 1]] == ts;
    }
  }

  function AuthorOf(db: Db, authorId: nat): User {
    match UserAt(db, authorId)
    case Some(u) => u
    case None => ZeroUser
  }

  /** First(&article, id) with the chosen preloads; soft-deleted rows are not found. */
  function LoadArticle(db: Db, id: nat, withAuthor: bool, withTags: bool): (r: Option<Article>)
    ensures r.Some? <==> Live(db, id)
    ensures r.Some? ==> r.value.base.id == id && r.value.authorId == db.articles[id - 1].authorId
  {
    if Live(db, id) then
      var row := db.articles[id - 1];
      Some(Article(
        Base(id, row.createdAt, None), row.authorId, row.title, row.content, row.numViews,
        if withAuthor then AuthorOf(db, row.authorId) else ZeroUser,
        if withTags then LinkedTags(db.tags, db.links, id) else []))
    else None
  }

  /** Who may delete an article. */
  datatype Ownership = Missing | NotAuthor | Owner

  /** Preload("Author").First(&article, id) followed by the comparison of its
      author with the requester; any lookup error counts as a missing article. */
  function OwnerCheck(db: Db, id: nat, requester: nat, lookupFails: bool): (r: Ownership)
    ensures r == Owner <==> !lookupFails && Live(db, id) && db.articles[id - 1].authorId == requester
    ensures r == NotAuthor <==> !lookupFails && Live(db, id) && db.articles[id - 1].authorId != requester
  {
    if lookupFails then Missing
    else
      match LoadArticle(db, id, true, false)
      case None => Missing
      case Some(a) => if a.authorId != requester then NotAuthor else Owner
  }

  /** Where("id = ?", id).Delete(&Article{}): sets deleted_at on the live row;
      affects nothing (and is no error) when there is none. */
  function SoftDelete(db: Db, id: nat, now: int): (r: Db)
    ensures |r.articles| == |db.articles| && r.users == db.users && r.tags == db.tags && r.links == db.links
    ensures !Live(r, id)
    ensures forall k :: 0 <= k < |db.articles| && k != id - 1 ==> r.articles[k] == db.articles[k]
    ensures Live(db, id) ==> r.articles[id - 1] == db.articles[id - 1].(deletedAt := Some(now))
  {
    if Live(db, id) then db.(articles := db.articles[id - 1 := db.articles[id - 1].(deletedAt := Some(now))])
    else db
  }

  /** Soft deletion hides exactly the one article and keeps its row. */
  lemma SoftDeleteHidesOnlyTarget(db: Db, id: nat, now: int, other: nat, withAuthor: bool, withTags: bool)
    requires other != id
    ensures LoadArticle(SoftDelete(db, id, now), id, withAuthor, withTags).None?
    ensures LoadArticle(SoftDelete(db, id, now), other, withAuthor, withTags) == LoadArticle(db, other, withAuthor, withTags)
  {
  }

  // ---------------------------------------------------------------- listing

  /** Ids of the live articles among the first k, newest first, at most n of them. */
  function RecentIds(rows: seq<ArticleRow>, k: nat, n: nat): (r: seq<nat>)
    requires k <= |rows|
    ensures |r| <= n
    ensures forall i :: 0 <= i < |r| ==> 1 <= r[i] <= k && rows[r[i] - 1].deletedAt.None?
    ensures forall i, j :: 0 <= i < j < |r| ==> r[i] > r[j]
    ensures forall id :: 1 <= id <= k && rows[id - 1].deletedAt.None? && (|r| < n || (|r| > 0 && id > r[|r| - 1])) ==> id in r
    decreases k
  {
    if k == 0 || n == 0 then []
    else if rows[k - 1].deletedAt.None? then [k] + RecentIds(rows, k - 1, n - 1)
    else RecentIds(rows, k - 1, n)
  }

  /** The listing projection: id, title, content, author id and creation time of
      the article; id and username of the author; id and content of each tag. */
  function Summary(db: Db, id: nat): (r: Article)
    requires Live(db, id)
    ensures r.base.id == id && r.numViews == 0 && r.author.passwordHash == ""
  {
    var row := db.articles[id - 1];
    var author := match UserAt(db, row.authorId)
      case Some(u) => User(Base(u.base.id, 0, None), u.username, "")
      case None => ZeroUser;
    var linked := LinkedTags(db.tags, db.links, id);
    var tags := seq(|linked|, i requires 0 <= i < |linked| => Tag(Base(linked[i].base.id, 0, None), linked[i].content));
    Article(Base(id, row.createdAt, None), row.authorId, row.title, row.content, 0, author, tags)
  }

  /** Order("id DESC").Limit(n).Find(&articles) with the listing projection. */
  function RecentArticles(db: Db, n: nat): (r: seq<Article>)
    ensures |r| <= n
    ensures forall i :: 0 <= i < |r| ==> Live(db, r[i].base.id) && r[i] == Summary(db, r[i].base.id)
    ensures forall i, j :: 0 <= i < j < |r| ==> r[i].base.id > r[j].base.id
  {
    var ids := RecentIds(db.articles, |db.articles|, n);
    seq(|ids|, i requires 0 <= i < |ids| => Summary(db, ids[i]))
  }

  /** The listing holds the newest live articles: every live article newer than
      the oldest one listed is listed, and all of them are when fewer than n are. */
  lemma RecentArticlesAreNewest(db: Db, n: nat, id: nat)
    requires Live(db, id)
    requires var r := RecentArticles(db, n);
             |r| < n || (|r| > 0 && id > r[|r| - 1].base.id)
    ensures exists i :: 0 <= i < |RecentArticles(db, n)| && RecentArticles(db, n)[i].base.id == id
  {
    var ids := RecentIds(db.articles, |db.articles|, n);
    var r := RecentArticles(db, n);
    assert forall i :: 0 <= i < |r| ==> r[i].base.id == ids[i];
    assert id in ids;
    var i :| 0 <= i < |ids| && ids[i] == id;
    assert r[i].base.id == id;
  }
}
