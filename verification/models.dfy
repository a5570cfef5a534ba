/** The GORM model types of pkg/models/models.go: User, Tag and Article with
    the embedded gorm.Model fields, their column constraints, table names and
    User.HashPassword / User.CheckPassword. */
module Models {
  import opened Wrappers

  /** gorm.Model: primary key, creation time and the soft-delete marker
      (UpdatedAt is left out: no modelled operation sets it apart from CreatedAt). */
  datatype Base = Base(id: nat, createdAt: int, deletedAt: Option<int>)

  datatype User = User(base: Base, username: string, passwordHash: string)

  datatype Tag = Tag(base: Base, content: string)

  /** An article as loaded, with its Author and Tags preloaded or left zero. */
  datatype Article = Article(
    base: Base,
    authorId: nat,
    title: string,
    content: string,
    numViews: int,
    author: User,
    tags: seq<Tag>)

  const ZeroBase: Base := Base(0, 0, None)
  const ZeroUser: User := User(ZeroBase, "", "")

  /** Column widths: username varchar(50), password_hash varchar(100),
      tag_content varchar(50). */
  const UsernameMax: nat := 50
  const PasswordHashMax: nat := 100
  const TagContentMax: nat := 50

  /** The row passes the users table's column types. */
  predicate UserFitsSchema(username: string, passwordHash: string) {
    |username| <= UsernameMax && |passwordHash| <= PasswordHashMax
  }

  /** The row passes the tags table's column type. */
  predicate TagFitsSchema(content: string) {
    |content| <= TagContentMax
  }

  /** The default of articles.num_views. */
  const NumViewsDefault: int := 0

  datatype Entity = UserEntity | TagEntity | ArticleEntity

  /** The TableName methods; the association table is article_tags. */
  function TableName(e: Entity): string {
    match e
    case UserEntity => "users"
    case TagEntity => "tags"
    case ArticleEntity => "articles"
  }

  const AssociationTable: string := "article_tags"

  /** User.HashPassword, with bcrypt's outcome as the parameter `hashed`
      (None when bcrypt fails). The boolean is true when no error is returned. */
  function HashPassword(u: User, hashed: Option<string>): (r: (User, bool))
    ensures r.1 <==> hashed.Some?
    ensures r.0.base == u.base && r.0.username == u.username
    ensures r.0.passwordHash == if hashed.Some? then hashed.value else u.passwordHash
  {
    match hashed
    case None => (u, false)
    case Some(h) => (u.(passwordHash := h), true)
  }

  /** User.CheckPassword succeeds when bcrypt accepts the password for the
      stored hash; `matches` stands for bcrypt.CompareHashAndPassword. */
  predicate CheckPassword(u: User, password: string, matches: (string, string) -> bool) {
    matches(u.passwordHash, password)
  }
}
