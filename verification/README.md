# keprNews core in Dafny

A model of the request-handling core of keprNews, a Go news site built on
Echo, GORM (PostgreSQL) and Redis. It covers:

- **Article creation.** Both variants of AddArticle are modelled:
  - the article service's, with the jwt cookie and cache invalidation;
  - the monolith's, with the userID the middleware puts in the context.
  Validation, tag normalisation and resolution, the transaction and the reload are all included.
- **The article service's cache-aside reads.** These are a single article and the front-page listing.
- **Soft deletion followed by cache invalidation.**
- **Ownership-checked deletion and search pagination.** These come in both handler variants.
- **Authentication.** Register, Login and Logout run over the users table. The two JWT middlewares and GetUserIDFromToken are modelled.
- **The GORM model types.** Their column constraints, table names and HashPassword are included.
- **Configuration.** This is GetEnv and LoadConfig.

The model is a set of pure functions over immutable values:

- The database is a `Db` of four row sequences: users, tags, articles and article_tags. Row k has primary key k + 1.
- Redis is a `map<string, Entry>` that keeps each entry's TTL.
- A transaction is a `Session`: the committed store plus, while it is open, its working copy.
- Every request returns its HTTP status together with the new state.

Some behaviour becomes parameters of the functions, because the model cannot compute it:

- every error a database or Redis call can return without a constraint being violated (the `WriteFaults`, `Faults` and `...Fails` flags);
- bcrypt's outcome (`hashed`, `matches`);
- JWT signing and validation (`Signer`, `Validator`);
- the full-text match and its ranking (`ranked`);
- the clock (`now`).

Modules follow the program:

| module | what it holds |
|---|---|
| `Wrappers` | `Option` and `Result` |
| `Http` | status codes and cookies |
| `Text` | Go's TrimSpace, Split, TrimPrefix, id formatting and ParseUint |
| `Models` | pkg/models |
| `Json` | marshalled documents and the dropped password hash |
| `Store` | tables and GORM queries |
| `Cache` | Redis GET, SET and DEL |
| `Tags` | tag normalisation and resolution |
| `Writer` | the AddArticle transaction |
| `Submission` | the request fields, then the commit and reload |
| `ArticleService` | internal/article/service |
| `ArticleHandler` | internal/article/handler |
| `Monolith` | internal/handler |
| `Auth` | Register, Login and Logout |
| `Middleware` | both JWTAuth functions and GetUserIDFromToken |
| `Config` | pkg/config |
| `Pagination` | strconv.Atoi and the page window |

## Model

| member | source | states |
|---|---|---|
| Text.TrimSpaceIsTrim | internal/article/handler/handler.go:30-32 | TrimSpace removes a run of leading and a run of trailing white space and nothing else, and leaves no white space at either end |
| Text.TrimOfUnique | internal/article/handler/handler.go:30-32 | a string has only one trim, so IsTrimOf pins down TrimSpace completely |
| Text.TrimSpaceIdempotent | internal/article/handler/handler.go:72 | trimming a tag piece of an already trimmed field a second time changes nothing |
| Text.Split | internal/article/handler/handler.go:67 | strings.Split gives at least one piece, no piece contains the comma, and joining the pieces with commas gives back the field |
| Text.SplitJoin | internal/article/handler/handler.go:67 | splitting the comma-join of comma-free pieces gives back exactly those pieces |
| Text.NatToStringInjective | internal/article/service/service.go:73 | distinct ids format to distinct decimal strings |
| Text.ParseFormattedId | internal/article/handler/handler.go:161 | every 32-bit id, once formatted, parses back to itself with ParseUint(s, 10, 32) |
| Text.ParsedIdFormatsBack | internal/article/handler/handler.go:179 | the converse of ParseFormattedId: an id parameter that ParseUint(s, 10, 32) accepts and that has no leading zero is exactly fmt.Sprint of the parsed value |
| Models.HashPassword | pkg/models/models.go:15-22 | a bcrypt failure returns the error and leaves PasswordHash as it was; success replaces PasswordHash and nothing else |
| Json.ArticleRoundTrip | internal/article/service/service.go:97-107 | decoding a cached article gives back every field except the author's password hash, which `json:"-"` drops |
| Json.ListRoundTrip | internal/article/service/service.go:21-28 | a cached listing decodes to the same number of articles, each one the original less its password hash |
| Json.DecodedHasNoHash | pkg/models/models.go:11 | nothing read back from the cache carries a password hash |
| Pagination.Atoi | internal/article/handler/handler.go:212 | strconv.Atoi's value, range-clamped result included, always lies within int64 |
| Pagination.AtoiOfDecimal | internal/article/handler/handler.go:212 | on a digit string that fits in an int, Atoi is its decimal value |
| Pagination.AtoiSaturates | internal/article/handler/handler.go:212 | a digit string too large for an int reads as the largest int |
| Pagination.Wrap64 | internal/article/handler/handler.go:217 | the offset is the int64 that equals (page - 1) * 20 modulo 2^64, so it wraps round rather than saturating, and is unchanged whenever it already fits |
| Pagination.PageNumber | internal/article/handler/handler.go:212-215 | the page is Atoi of the parameter when that is at least 1, and otherwise 1 |
| Pagination.Window | internal/article/handler/handler.go:240 | OFFSET/LIMIT returns at most limit rows, starting at the offset, none past the end; a non-positive offset is ignored |
| Pagination.SearchPageIsWindow | internal/article/handler/handler.go:212-240 | whenever (page-1)*20 fits in an int, the page shows rows (page-1)*20 onward, at most 20 of them |
| Pagination.PageBelowOneIsFirstPage | internal/article/handler/handler.go:212-215 | every page parameter whose Atoi value is below 1 shows the same rows as page 1 |
| Pagination.NoDigitReadsZero | internal/article/handler/handler.go:212-215 | a page parameter with no digit, the empty one included, makes Atoi return 0, so page 1 is used |
| Pagination.HugePageWrapsToFirstPage | internal/article/handler/handler.go:212-217 | a page parameter beyond int64 wraps the offset to -40, so the first page is shown again |
| Tags.CandidatesSpec | internal/article/handler/handler.go:66-77 | the tags processed contain no empty name and no repeat; each is a non-empty trimmed piece and every such piece is one; they keep first-seen order |
| Tags.BlankFieldHasNoCandidates | internal/article/handler/handler.go:66-78 | a tag field made only of blanks and commas yields no tag to process |
| Tags.KeepFirstSeen | internal/article/handler/handler.go:71-77 | the loop over the pieces, with its seen-set uniqueTags, appends exactly the names Kept describes: each trimmed piece that is non-empty and not yet seen, in order |
| Tags.CollectTags | internal/article/handler/handler.go:66-77 | splitting the field and running the loop computes exactly the candidates, with no empty name and no repeat |
| Tags.TagMap | internal/article/handler/handler.go:84-87 | the content-to-tag map holds every looked-up tag's content, each mapped to a looked-up tag with that content |
| Tags.NewTagNames | internal/article/handler/handler.go:88-93 | the new tags are exactly the candidates the lookup did not find |
| Tags.NewTagNamesOrder | internal/article/handler/handler.go:88-93 | the new names repeat nothing and keep candidate order |
| Tags.AssocListSpec | internal/article/handler/handler.go:103-106 | the association list holds one tag per candidate, with that candidate's content, in candidate order; distinct candidates give distinct tags |
| Cache.Set | internal/article/service/service.go:97-107 | a failed SET leaves the cache as it was; otherwise the key holds the blob with its TTL and every other key is unchanged |
| Cache.Del | internal/article/service/service.go:109-115 | a failed DEL leaves the cache as it was; otherwise the key is gone and every other key is unchanged |
| Store.FindUserByName | internal/auth/handler/handler.go:30 | the lookup by username finds the lowest-id user with that name, and finds nothing exactly when the name is not taken |
| Store.InsertUser | pkg/models/models.go:10-11 | creating a user fails exactly when a column is too wide or the username is taken; otherwise it appends one row with the next id |
| Store.InsertUserKeepsValid | pkg/models/models.go:10 | a successful user insert keeps usernames unique |
| Store.TagsMatching | internal/article/handler/handler.go:80 | the batched lookup returns exactly the stored tags whose content is requested, each with its id |
| Store.InsertTags | pkg/models/models.go:34 | the bulk tag insert writes all rows or none; it fails exactly on a too-wide name, an existing content or a repeat in the batch |
| Store.InsertArticle | pkg/models/models.go:44-48 | creating an article fails exactly when the author is not an existing user; otherwise the row gets the next id |
| Store.LinkedTagsOfLinksFor | internal/article/handler/handler.go:107 | reading back the association rows appended for an article gives exactly the appended tags, one per row, in row order |
| Store.LoadArticle | internal/article/service/service.go:82 | First finds an article exactly when its row exists and is not soft-deleted, and returns it under that id |
| Store.OwnerCheck | internal/article/handler/handler.go:189-196 | the requester owns the article exactly when the lookup succeeds, the article is live and its author is the requester; a live article by someone else is NotAuthor |
| Store.SoftDelete | internal/article/service/service.go:57 | the delete hides the article, stamps deleted_at only on its row, and changes no other row or table |
| Store.SoftDeleteHidesOnlyTarget | internal/article/service/service.go:57 | after the delete, the article no longer loads and every other article loads as before |
| Store.RecentArticles | internal/article/service/service.go:31-40 | the listing query returns at most n live articles, by id descending, each projected without views or password hash |
| Store.RecentArticlesAreNewest | internal/article/service/service.go:38-39 | every live article newer than the oldest one listed is listed, and all of them are when fewer than n are listed |
| Writer.ResolveTags | internal/article/handler/handler.go:78-106 | tag resolution can fail only when some candidate is not yet stored, because only then is the bulk insert issued |
| Writer.ResolveTagsFailure | internal/article/handler/handler.go:94-97 | resolution fails exactly when some name is new and the bulk insert errors or violates a constraint |
| Writer.ResolveTagsStore | internal/article/handler/handler.go:94-101 | after resolution the store holds the new tag rows appended and nothing else changed |
| Writer.ResolveTagsList | internal/article/handler/handler.go:103-106 | the resolved list has one stored tag per candidate, with the candidate's content, in candidate order |
| Writer.Transact | internal/article/handler/handler.go:46-117 | every failure leaves the committed store unchanged; every failure after Begin except the bulk tag insert rolls back and closes the transaction; a failed Begin opens nothing and issues no rollback; a failed bulk insert leaves it open with no rollback; a commit returns the new id |
| Writer.CreateArticle | internal/article/handler/handler.go:66 | an empty tag field issues no tag lookup, tag insert or association |
| Writer.CommittedCalls | internal/article/handler/handler.go:46-114 | a committed request made only the calls it needed: tag calls only with names to process, the tag insert only when a name was new |
| Writer.CommittedStore | internal/article/handler/handler.go:57-114 | a commit writes the article row, then, when there are names, the new tag rows and the association rows; the author is an existing user |
| Writer.BlankTagsSkipTagWork | internal/article/handler/handler.go:66-78 | an all-blank or comma-only tag field issues no tag lookup, insert or association |
| Writer.NewNamesInsertable | internal/article/handler/handler.go:94-95 | the new names are neither stored already nor repeated, so their insert can fail only on a too-wide name |
| Writer.TagInsertFailureCause | internal/article/handler/handler.go:94-97 | a request stops at the tag insert only on an injected error or a tag wider than the tag_content column |
| Writer.TransactSucceedsWithoutFaults | internal/article/handler/handler.go:46-117 | with no call failing, an existing author and every name fitting its column, the request commits |
| Writer.TransactKeepsValid | internal/article/handler/handler.go:46-117 | a request keeps every table constraint: unique names, author and association foreign keys, no duplicate association |
| Writer.TransactLoadsBack | internal/article/handler/handler.go:114-121 | the committed article loads back with its author id, title, content and zero views, and its tags' contents are the processed names, each exactly once (as a multiset; the order is not promised) |
| Writer.CreatedArticleTags | internal/article/handler/handler.go:66-121 | the created article's tags are exactly the candidates of the tag field, each once, in some order, and the store stays valid |
| Writer.TransactLeavesOthers | internal/article/handler/handler.go:46-117 | creating an article changes no other article as loaded, whatever is preloaded |
| Submission.Trimmed | internal/article/handler/handler.go:30-32 | title, content and tag field are each the trim of the request's field |
| Submission.Publish | internal/article/handler/handler.go:114-133 | the answer is 200 with the article of the next id, or 500 with no article |
| Submission.PublishOutcome | internal/article/handler/handler.go:114-121 | the session and calls are the transaction's; the answer is 200 exactly when the transaction commits and the reload succeeds |
| Submission.PublishedArticle | internal/article/handler/handler.go:119-133 | the article sent back has the requester as author, the trimmed title and content, no views, no author loaded, and tags whose contents are exactly the candidates, each once, in some order; the store stays valid |
| ArticleService.GetArticleByID | internal/article/service/service.go:70-95 | a decodable cached entry is returned without touching the store; otherwise the store answers; a missing article is NotFound and a store failure is StoreError, and neither writes the cache; a found article is written under the same key with a 30-minute TTL unless SET fails |
| ArticleService.GetArticlesWithDetails | internal/article/service/service.go:16-52 | a decodable cached listing is returned as is; otherwise the result is exactly RecentArticles(db, 10), the ten newest live articles by id descending in the listing projection without view counts or password hashes, and it is cached under articles:list for 30 minutes; a store error is returned with no cache write |
| ArticleService.DeleteArticleByID | internal/article/service/service.go:54-68 | a store error is returned before any cache call; otherwise the article is soft-deleted and only article:<id> is deleted from the cache, and a DEL failure is swallowed |
| ArticleService.KeysNeverMeet | internal/article/service/service.go:73-110 | the key a read uses, the key invalidation deletes and the listing key are pairwise different |
| ArticleService.ReadKeysDistinct | internal/article/service/service.go:73 | different ids use different cache keys under either key scheme |
| ArticleService.DeleteLeavesReadEntry | internal/article/service/service.go:54-68 | a deletion leaves both the entry reads use and the listing entry untouched |
| ArticleService.StaleReadAfterDelete | internal/article/service/service.go:62-80 | as written, an article cached by a read is still served from the cache after it is deleted from the store |
| ArticleService.StaleReadExample | internal/article/service/service.go:62-80 | concretely, article 1 is read, deleted, and read again successfully |
| ArticleService.DeleteThenReadIsFresh | internal/article/service/service.go:109-115 | with reads keyed article:<id>, a successful delete and invalidation make the next read miss the cache and report the article gone |
| ArticleService.ListingStaleAfterDelete | internal/article/service/service.go:18-68 | a cached listing survives any deletion and is served unchanged |
| ArticleService.ReadAfterRead | internal/article/service/service.go:74-94 | a read that filled the cache is answered from the cache next time with the same article less its password hash |
| ArticleService.ListReadAfterRead | internal/article/service/service.go:21-49 | a listing read that filled the cache is answered from it next time with the same articles, less their password hashes |
| ArticleService.CacheWriteFailureInvisible | internal/article/service/service.go:89-94 | a failed cache write never changes the result of either read |
| Middleware.BearerAuth | internal/middleware/jwtmiddlware.go:11-29 | next runs exactly when the header starts with "Bearer " and the rest is a valid token, and then carries that token's claims; every other request gets 401 |
| Middleware.BearerTokenIsSuffix | internal/middleware/jwtmiddlware.go:17-20 | exactly one "Bearer " is removed: the token validated is everything after it |
| Middleware.StandardHeaderRefused | internal/middleware/jwtmiddlware.go:13 | as written, a valid token sent in the standard Authorization header is refused with 401 |
| Middleware.StandardHeaderAccepted | internal/middleware/jwtmiddlware.go:13 | reading the standard header, the same request passes with the token's claims |
| Middleware.CookieAuth | pkg/middleware/jwtmiddlware.go:12-37 | next runs exactly when the jwt cookie is present, non-empty and valid; every other request is redirected with 303 to /login-page; only an invalid token also blanks the cookie, with an expiry a day ahead |
| Middleware.GetUserIDFromToken | pkg/middleware/jwtmiddlware.go:39-51 | the call fails with id 0 exactly when the cookie is missing or its token invalid, and otherwise returns the token's user id |
| Middleware.CookieIdentityAgrees | pkg/middleware/jwtmiddlware.go:32-50 | when the cookie middleware lets a request through, GetUserIDFromToken succeeds with the same user id |
| ArticleHandler.AddArticle | internal/article/handler/handler.go:18-134 | the answer is 400 exactly for an unbound body or an empty trimmed title or content, and 401 exactly for a complete request without a valid token; neither begins a transaction; for a complete request with a valid token the session and calls are the transaction's, the answer is 200 exactly when it commits and the reload succeeds, and a failed transaction answers 500 with the committed store unchanged; the cache changes only after a 200, by deleting article:<id> |
| ArticleHandler.AddArticleStoresRequest | internal/article/handler/handler.go:30-121 | a 200 stores the caller as author, the trimmed title and content, and tags whose contents are exactly the tag candidates, each once, in some order; the store stays valid |
| ArticleHandler.InvalidationFailureInvisible | internal/article/handler/handler.go:122-133 | a failed cache delete after the commit does not change the answer |
| ArticleHandler.AddArticleKeepsReadEntries | internal/article/handler/handler.go:123 | creating an article never touches the entry a read under a bare id uses |
| ArticleHandler.GetArticle | internal/article/handler/handler.go:159-174 | an id that does not parse as uint32 gives 400 with no cache change; otherwise the answer is 200 exactly when the service read succeeds, and 400 for every service error, a missing article included (lines 163-166) |
| ArticleHandler.FormattedIdReachesService | internal/article/handler/handler.go:159-167 | a formatted 32-bit id reaches the service unchanged |
| ArticleHandler.DeleteArticle | internal/article/handler/handler.go:176-202 | 400 exactly for an id that does not parse; for a parsed id, 500 exactly when the token is missing or invalid or the owner's delete fails, 404 exactly when the lookup fails or the article is not live, 403 exactly when a live article belongs to someone else, and 302 exactly when the caller owns it and the delete succeeds; nothing changes unless the answer is 302, and a 302 soft-deletes the article and invalidates article:<id> |
| ArticleHandler.OnlyAuthorDeletes | internal/article/handler/handler.go:189-201 | a 302 means the caller had a valid token and owned the article, which is hidden while every other article loads as before |
| ArticleHandler.AuthorCanDelete | internal/article/handler/handler.go:176-201 | the author of a live article, with no failing call, always gets the 302 |
| ArticleHandler.SearchArticles | internal/article/handler/handler.go:204-266 | 400 exactly for an empty query; 500 exactly for a non-empty query whose search fails or whose caller has no valid token; a page is rendered exactly when the search succeeds and the caller's user row is found, and it shows the window of the ranked matches, at most 20, with that user's name; the handler panics exactly when a signed-in caller's user lookup fails or finds no user |
| ArticleHandler.SearchClampsPage | internal/article/handler/handler.go:212-215 | a page parameter below 1 gives the same answer as page 1 |
| Monolith.AddArticle | internal/handler/handler.go:95-201 | 400 exactly for an unbound body or an empty trimmed title or content; a complete request without a userID gets 500 before any transaction; with a userID the session and calls are the transaction's, the answer is 200 exactly when it commits and the reload succeeds, and a failed transaction answers 500 with the committed store unchanged; a 200 carries the article with the next id |
| Monolith.NoCallerNoTransaction | internal/handler/handler.go:116-120 | without a userID no transaction begins and the store is untouched |
| Monolith.AddArticleStoresRequest | internal/handler/handler.go:107-199 | a 200 stores the userID as author, the trimmed title and content, and tags whose contents are exactly the tag candidates, each once, in some order; the store stays valid |
| Monolith.FailedTransactionCommitsNothing | internal/handler/handler.go:120-191 | any failure of the transaction answers 500 and commits nothing |
| Monolith.DeleteArticle | internal/handler/handler.go:270-304 | 400 exactly for an id that does not parse; 401 exactly for a parsed id without a userID; 404 exactly when the lookup fails or the article is not live; 403 exactly when a live article belongs to someone else; 500 exactly when the caller owns the article and the delete fails; 302 exactly when the caller owns the live article and the delete succeeds, and then the article is soft-deleted and the redirect goes to the referer; nothing changes without the 302 |
| Monolith.OnlyAuthorDeletes | internal/handler/handler.go:282-294 | a 302 means the caller was the author, and only that article is hidden |
| Monolith.CurrentUsername | internal/handler/handler.go:350-355 | the page shows the caller's username when the caller exists and the lookup succeeds, and an empty name otherwise |
| Monolith.SearchArticles | internal/handler/handler.go:306-361 | 400 exactly for an empty query, 500 exactly for a failing search, no other error status, and a rendered page exactly otherwise: the window of the ranked matches with the current username |
| Monolith.SearchClampsPage | internal/handler/handler.go:314-317 | a page parameter below 1 gives the same answer as page 1 |
| Auth.Register | internal/auth/handler/handler.go:55-87 | 400 exactly for an unbound body; 409 exactly when the name exists and the lookup worked, with nothing changed; 303 exactly when the name is free, the hash succeeds and fits the column, Create succeeds and the token is signed; a 303 to "/" adds exactly one user with the hash and sets an HttpOnly jwt cookie on "/" for 24 hours; a Create error leaves the table as it was; a request that adds a user either answers 303 or failed only at signing, after the insert; the monolith's Register (internal/handler/handler.go:24-56) is the same code |
| Auth.Login | internal/auth/handler/handler.go:22-53 | the users table never changes; 400 for an unbound body; 401 exactly for an unknown name or a failed lookup; 303 exactly when the lookup finds the user, the password matches its hash and the token is signed, and it sets the session cookie; the monolith's Login (internal/handler/handler.go:58-89) is the same code |
| Auth.Logout | internal/auth/handler/handler.go:89-97 | 200 with the jwt cookie emptied on "/", not HttpOnly, with its expiry exactly one hour before now; the users table is unchanged |
| Auth.RegisterKeepsValid | internal/auth/handler/handler.go:61-73 | registration keeps usernames unique |
| Auth.RegisterTwiceConflicts | internal/auth/handler/handler.go:61-64 | registering a name that just registered answers 409 and changes nothing |
| Auth.RegisterThenLogin | internal/auth/handler/handler.go:22-87 | a registered user logs in with the same password and receives a session cookie for the id registration gave it |
| Config.GetEnv | pkg/config/config.go:25-30 | the variable's value when set and non-empty, otherwise the default |
| Config.LoadDotenv | pkg/config/config.go:16-18 | the .env file adds variables but never replaces one already set, even to ""; a missing file adds nothing |
| Config.DefaultsWithoutConfiguration | pkg/config/config.go:15-23 | with no environment and no .env file, JWTSecret is "" and AuthServisePort is "8081" |
| Config.EnvironmentWins | pkg/config/config.go:16-22 | when both variables are set in the environment, the .env file changes nothing |
| Config.EmptyVariableFallsBack | pkg/config/config.go:19-22 | AUTH_SERVICE_PORT set to "" in the environment gives "8081", whatever the .env file says |
| Config.GetEnvNonEmpty | pkg/config/config.go:25-30 | GetEnv answers "" only when the default is "" |

## Left out

- Store.LinkedTagsOfLinksFor: Preload("Tags") fetches the tags with `id IN (...)` and no ORDER BY, so the database may return them in any order. The model lists preloaded tags in association-row order. This lemma is about that model order; the article-level lemmas (Writer.TransactLoadsBack, Writer.CreatedArticleTags, Submission.PublishedArticle and both AddArticleStoresRequest) promise only the multiset of tag contents.
- I/O and the frameworks are left out: Echo's binding, rendering and redirects, GORM's SQL, Redis's wire protocol and logging. Each call is modelled by its effect on the model state plus an error flag. A body that does not bind is `None`.
- bcrypt, JWT signing and JWT validation (pkg/jwt/jwt.go, internal/jwt) are parameters. Wall-clock token expiry is part of the validator.
- PostgreSQL's full-text matching and ranking (phraseto_tsquery, ts_rank, Russian stemming) are left out. The search handlers take the ranked live matches as a parameter and model only the page arithmetic and the window.
- Redis TTL expiry is left out. Entries record the TTL they were written with and never expire in the model.
- Concurrency is left out: each request runs alone. The deferred recover in AddArticle only matters for a panic, and no modelled call panics.
- Table sequences are treated as transactional: a rolled-back or failed insert does not consume an id. In PostgreSQL it does, and the next article would then get a larger id.
- GORM's soft-delete scope is modelled. Its Unscoped queries are not used by the core and are left out.
- ArticleHandler.SearchArticles: log.Panicf ends the request with `Panicked`. No Recover middleware is installed, so the model does not include the net/http recovery that follows.
- Monolith.CurrentUsername: when the context holds no userID, GORM receives a nil primary key. The model shows an empty name for that case; the code does not settle what GORM does.
- Monolith.AddArticle: the userID type assertion is the `userId` option. Whether the middleware stored a uint is decided outside the model.
- Monolith.SearchArticles and Monolith.CurrentUsername: the `userID != 0` guard compares an interface with the int 0. It always holds, so the lookup always runs. Its error is ignored, which leaves the name empty.
- AllArticle (both variants), HomePage, AddArticlePage and the monolith's GetArticle/GetArticleByID are left out. They are page rendering around the reads already modelled, and none is among the modelled operations.
- The monolith's listing uses Order("RANDOM()") (internal/handler/handler.go:223). It is randomness and belongs to the AllArticle page, which is left out.
- The service's DeleteArticleByID and the monolith's DeleteArticleByID issue the same soft delete; the monolith's has no cache step and is modelled inline in Monolith.DeleteArticle.
- UpdatedAt of gorm.Model is left out. No modelled operation sets it apart from CreatedAt.
- Go's TrimSpace is modelled on code points with unicode.IsSpace's table. Invalid UTF-8 is not modelled, because strings are sequences of characters.

## Findings

| source | as written | input that shows it | evidently intended | confidence | as-written member | corrected member |
|---|---|---|---|---|---|---|
| internal/article/service/service.go:73 | GetArticleByID reads and fills the key fmt.Sprint(id), while invalidation (line 110, and AddArticle at internal/article/handler/handler.go:123) deletes "article:<id>" | one user, one live article 1; read it (cached under "1"), delete it, read it again: the second read succeeds from the cache although the store no longer has the article | reads use the same "article:<id>" key that invalidation deletes, so a deleted article is no longer served | high; not executed | ArticleService.StaleReadExample | ArticleService.DeleteThenReadIsFresh |
| internal/middleware/jwtmiddlware.go:13 | the Bearer middleware reads the header "Authorizetion" | a request with `Authorization: Bearer <valid token>` and no misspelt header gets 401 | the standard Authorization header is read | high; not executed | Middleware.StandardHeaderRefused | Middleware.StandardHeaderAccepted |

The corrected key scheme is `KeyScheme.Prefixed`. ArticleService.GetArticleByID and ArticleHandler.GetArticle take the scheme as a parameter, so the corrected reads run through the same handler. Middleware.BearerAuth takes the header name as a parameter, and `AuthorizationHeader` is the corrected one.
