/** The transactional part of AddArticle, common to the article service and
    the monolith: insert the article, resolve its tags (one batched lookup, a
    bulk insert of the missing ones), append the associations and commit.
    A session is the committed store plus the working copy of the open
    transaction; every step can fail through an explicit fault flag or,
    for the inserts, through a table constraint. */
module Writer {
  import opened Wrappers
  import opened Models
  import opened Store
  import opened Text
  import opened Tags

  /** The database calls in the order they are issued. */
  datatype Step = Begin | InsertArticleRow | FindTags | InsertTagRows | AppendAssociations | Commit | Rollback

  /** The call whose error ended the request. */
  datatype Stage = BeginFailed | ArticleInsertFailed | TagLookupFailed | TagInsertFailed | AssociationFailed | CommitFailed

  /** The committed store and, while a transaction is open, its working copy. */
  datatype Session = Session(committed: Db, pending: Option<Db>)

  /** Which database calls return an error although no constraint is violated. */
  datatype WriteFaults = WriteFaults(
    begin: bool,
    insertArticle: bool,
    findTags: bool,
    insertTags: bool,
    associate: bool,
    commit: bool)

  const NoFaults: WriteFaults := WriteFaults(false, false, false, false, false, false)

  /** The new article's id, or the failing stage; the session after the
      request; the calls made. */
  datatype Creation = Creation(outcome: Result<nat, Stage>, session: Session, trace: seq<Step>)

  /** Every tag listed is the stored tag row with its id. */
  predicate Stored(tags: seq<TagRow>, ts: seq<Tag>) {
    forall t :: t in ts ==> TagAt(tags, t.base.id) == Some(t)
  }

  /** newTags: the candidates the batched lookup in `buf` does not find. */
  function NewNames(buf: Db, cands: seq<string>): seq<string> {
    NewTagNames(cands, TagMap(FindTagsByContent(buf, cands)))
  }

  /** The looked-up and the freshly inserted tags are stored rows. */
  lemma FoundAndCreatedStored(buf: Db, cands: seq<string>, newNames: seq<string>, now: int)
    ensures Stored(buf.tags + NewTagRows(newNames, now), FindTagsByContent(buf, cands) + CreatedTags(|buf.tags|, newNames, now))
  {
    var found := FindTagsByContent(buf, cands);
    var created := CreatedTags(|buf.tags|, newNames, now);
    var tags2 := buf.tags + NewTagRows(newNames, now);
    CreatedTagsStored(buf, newNames, now);
    forall t: Tag | t in found + created
      ensures TagAt(tags2, t.base.id) == Some(t)
    {
      if t in found {
        TagAtExtends(buf.tags, NewTagRows(newNames, now), t.base.id);
      }
    }
  }

  /** Every candidate is either found by the lookup or created by the insert. */
  lemma CandidatesKnown(cands: seq<string>, found: seq<Tag>, created: seq<Tag>)
    requires |created| == |NewTagNames(cands, TagMap(found))|
    requires forall i :: 0 <= i < |created| ==> created[i].content == NewTagNames(cands, TagMap(found))[i]
    ensures forall c :: c in cands ==> c in TagMap(found + created)
  {
    var existing := TagMap(found);
    var newNames := NewTagNames(cands, existing);
    var known := TagMap(found + created);
    forall c | c in cands
      ensures c in known
    {
      if c in existing {
        assert existing[c] in found + created;
      } else {
        assert c in newNames;
        var i :| 0 <= i < |newNames| && newNames[i] == c;
        assert created[i] in found + created;
      }
    }
  }

  /** The association list holds one stored tag per candidate, with the
      candidate's content. */
  lemma AssociationStored(tags: seq<TagRow>, cands: seq<string>, known: seq<Tag>)
    requires Stored(tags, known)
    requires forall c :: c in cands ==> c in TagMap(known)
    ensures var ts := AssocList(cands, TagMap(known));
            Stored(tags, ts) && forall i :: 0 <= i < |cands| ==> ts[i].content == cands[i]
  {
    AssocListSpec(cands, TagMap(known));
  }

  /** Lines 79-106: look the candidates up, bulk-insert the missing ones (when
      there are any), and list the tag of every candidate in candidate order.
      None when the bulk insert fails. */
  function ResolveTags(buf: Db, cands: seq<string>, now: int, insertFails: bool): (r: Option<(Db, seq<Tag>)>)
    ensures r.None? ==> NewNames(buf, cands) != []
  {
    var found := FindTagsByContent(buf, cands);
    var newNames := NewTagNames(cands, TagMap(found));
    var ins := if newNames == [] then Some((buf, [])) else if insertFails then None else InsertTags(buf, newNames, now);
    if ins.None? then None
    else
      var created := ins.value.1;
      CandidatesKnown(cands, found, created);
      Some((ins.value.0, AssocList(cands, TagMap(found + created))))
  }

  /** The bulk insert is skipped when every candidate was found; otherwise
      it fails on an injected error or a violated constraint. */
  lemma ResolveTagsFailure(buf: Db, cands: seq<string>, now: int, insertFails: bool)
    ensures ResolveTags(buf, cands, now, insertFails).None? <==>
              NewNames(buf, cands) != [] && (insertFails || TagInsertViolates(buf, NewNames(buf, cands)))
  {
  }

  /** After resolution the store holds the new tag rows appended, and nothing
      else has changed. */
  lemma ResolveTagsStore(buf: Db, cands: seq<string>, now: int, insertFails: bool)
    requires ResolveTags(buf, cands, now, insertFails).Some?
    ensures !TagInsertViolates(buf, NewNames(buf, cands))
    ensures ResolveTags(buf, cands, now, insertFails).value.0 == buf.(tags := buf.tags + NewTagRows(NewNames(buf, cands), now))
  {
    var newNames := NewNames(buf, cands);
    if newNames == [] {
      assert NewTagRows(newNames, now) == [];
      assert buf.tags + [] == buf.tags;
    }
  }

  /** The association list holds one stored tag per candidate, with the
      candidate's content, in candidate order. */
  lemma ResolveTagsList(buf: Db, cands: seq<string>, now: int, insertFails: bool)
    requires ResolveTags(buf, cands, now, insertFails).Some?
    ensures var r := ResolveTags(buf, cands, now, insertFails).value;
            |r.1| == |cands| && (forall i :: 0 <= i < |cands| ==> r.1[i].content == cands[i]) && Stored(r.0.tags, r.1)
  {
    var found := FindTagsByContent(buf, cands);
    var newNames := NewNames(buf, cands);
    var r := ResolveTags(buf, cands, now, insertFails).value;
    var created := CreatedTags(|buf.tags|, newNames, now);
    ResolveTagsStore(buf, cands, now, insertFails);
    assert newNames == NewTagNames(cands, TagMap(found));
    FoundAndCreatedStored(buf, cands, newNames, now);
    CandidatesKnown(cands, found, created);
    assert r.1 == AssocList(cands, TagMap(found + created));
    AssociationStored(r.0.tags, cands, found + created);
  }

  function Abort(db: Db, stage: Stage, trace: seq<Step>): Creation {
    Creation(Err(stage), Session(db, None), trace + [Rollback])
  }

  function CommitOrAbort(db: Db, buf: Db, id: nat, trace: seq<Step>, f: WriteFaults): (r: Creation)
    ensures r.outcome.Ok? <==> !f.commit
    ensures r.outcome.Ok? ==> r.outcome.value == id && r.session == Session(buf, None) && r.trace == trace + [Commit]
    ensures r.outcome.Err? ==> r.outcome.error == CommitFailed && r.session == Session(db, None)
    ensures r.outcome.Err? ==> r.trace == trace + [Commit, Rollback]
  {
    if f.commit then Abort(db, CommitFailed, trace + [Commit])
    else Creation(Ok(id), Session(buf, None), trace + [Commit])
  }

  /** Lines 78-111 once there is at least one candidate. A failed bulk insert
      returns without rolling back: the transaction stays open. */
  function LinkTags(db: Db, buf: Db, id: nat, cands: seq<string>, now: int, f: WriteFaults, trace: seq<Step>): (r: Creation)
    ensures trace != [] ==> r.trace != [] && r.trace[0] == trace[0]
    ensures r.outcome.Err? ==> r.session.committed == db
    ensures r.outcome.Err? && r.outcome.error != TagInsertFailed ==> r.session.pending.None? && r.trace != [] && r.trace[|r.trace| - 1] == Rollback
    ensures r.outcome == Err(TagInsertFailed) ==> r.session.pending.Some? && r.trace == trace + [FindTags, InsertTagRows]
    ensures r.outcome.Ok? ==> r.session.pending.None? && r.outcome.value == id
  {
    if f.findTags then Abort(db, TagLookupFailed, trace + [FindTags])
    else
      var t := trace + [FindTags] + (if NewNames(buf, cands) == [] then [] else [InsertTagRows]);
      match ResolveTags(buf, cands, now, f.insertTags)
      case None => Creation(Err(TagInsertFailed), Session(db, Some(buf)), t)
      case Some((buf2, articleTags)) =>
        if f.associate then Abort(db, AssociationFailed, t + [AppendAssociations])
        else CommitOrAbort(db, AppendLinks(buf2, id, articleTags), id, t + [AppendAssociations], f)
  }

  /** The calls of a committed request: the tag calls happen only when there
      are candidates, the insert only when some candidate is new. */
  predicate CommittedTrace(t: seq<Step>) {
    || t == [Begin, InsertArticleRow, Commit]
    || t == [Begin, InsertArticleRow, FindTags, AppendAssociations, Commit]
    || t == [Begin, InsertArticleRow, FindTags, InsertTagRows, AppendAssociations, Commit]
  }

  /** The transaction of AddArticle (lines 46-117) for an author, a trimmed
      non-empty title and content, and the tag names to process. */
  function Transact(db: Db, authorId: nat, title: string, content: string, cands: seq<string>, now: int, f: WriteFaults): (r: Creation)
    ensures r.trace != [] && r.trace[0] == Begin
    ensures r.outcome.Err? ==> r.session.committed == db
    ensures r.outcome.Err? && r.outcome.error != TagInsertFailed ==> r.session.pending.None?
    ensures r.outcome.Err? && r.outcome.error !in {BeginFailed, TagInsertFailed} ==> r.trace[|r.trace| - 1] == Rollback
    ensures r.outcome == Err(BeginFailed) <==> f.begin
    ensures f.begin ==> r.trace == [Begin]
    ensures r.outcome == Err(TagInsertFailed) ==>
              r.session.pending.Some? && r.trace == [Begin, InsertArticleRow, FindTags, InsertTagRows]
    ensures r.outcome.Ok? ==> r.session.pending.None? && r.outcome.value == |db.articles| + 1
    ensures cands == [] ==> FindTags !in r.trace && InsertTagRows !in r.trace && AppendAssociations !in r.trace
  {
    if f.begin then Creation(Err(BeginFailed), Session(db, None), [Begin])
    else
      var row := ArticleRow(authorId, title, content, NumViewsDefault, now, None);
      var ins := if f.insertArticle then None else InsertArticle(db, row);
      if ins.None? then Abort(db, ArticleInsertFailed, [Begin, InsertArticleRow])
      else if cands == [] then CommitOrAbort(db, ins.value.0, ins.value.1, [Begin, InsertArticleRow], f)
      else LinkTags(db, ins.value.0, ins.value.1, cands, now, f, [Begin, InsertArticleRow])
  }

  /** AddArticle's transaction on the trimmed tag field: the names processed
      are its candidates. */
  function CreateArticle(db: Db, authorId: nat, title: string, content: string, inputTags: string, now: int, f: WriteFaults): (r: Creation)
    ensures r.outcome.Err? ==> r.session.committed == db
    ensures Candidates(inputTags) == [] ==> FindTags !in r.trace && InsertTagRows !in r.trace && AppendAssociations !in r.trace
  {
    Transact(db, authorId, title, content, Candidates(inputTags), now, f)
  }

  // ------------------------------------------------------------- properties

  /** A committed request made exactly the calls it needed: the tag calls only
      with names to process, the insert only when some name was new. */
  lemma CommittedCalls(db: Db, authorId: nat, title: string, content: string, cands: seq<string>, now: int, f: WriteFaults)
    requires Transact(db, authorId, title, content, cands, now, f).outcome.Ok?
    ensures CommittedTrace(Transact(db, authorId, title, content, cands, now, f).trace)
  {
    var row := ArticleRow(authorId, title, content, NumViewsDefault, now, None);
    var buf := db.(articles := db.articles + [row]);
    var r := Transact(db, authorId, title, content, cands, now, f);
    if cands == [] {
      assert r.trace == [Begin, InsertArticleRow] + [Commit];
      assert r.trace == [Begin, InsertArticleRow, Commit];
    } else {
      assert r == LinkTags(db, buf, |db.articles| + 1, cands, now, f, [Begin, InsertArticleRow]);
      LinkTagsTrace(db, buf, |db.articles| + 1, cands, now, f);
    }
  }

  /** The calls of a committed request with names to process. */
  lemma LinkTagsTrace(db: Db, buf: Db, id: nat, cands: seq<string>, now: int, f: WriteFaults)
    requires LinkTags(db, buf, id, cands, now, f, [Begin, InsertArticleRow]).outcome.Ok?
    ensures CommittedTrace(LinkTags(db, buf, id, cands, now, f, [Begin, InsertArticleRow]).trace)
  {
    var x: seq<Step> := if NewNames(buf, cands) == [] then [] else [InsertTagRows];
    assert LinkTags(db, buf, id, cands, now, f, [Begin, InsertArticleRow]).trace
           == [Begin, InsertArticleRow] + [FindTags] + x + [AppendAssociations] + [Commit];
    TagCallsTrace(x);
  }

  lemma TagCallsTrace(x: seq<Step>)
    requires x == [] || x == [InsertTagRows]
    ensures CommittedTrace([Begin, InsertArticleRow] + [FindTags] + x + [AppendAssociations] + [Commit])
  {
    if x == [] {
      assert [Begin, InsertArticleRow] + [FindTags] + x + [AppendAssociations] + [Commit]
             == [Begin, InsertArticleRow, FindTags, AppendAssociations, Commit];
    } else {
      assert [Begin, InsertArticleRow] + [FindTags] + x + [AppendAssociations] + [Commit]
             == [Begin, InsertArticleRow, FindTags, InsertTagRows, AppendAssociations, Commit];
    }
  }

  /** What a committed request writes: the article row, then (with names to
      process) the new tag rows and the association rows. */
  lemma CommittedStore(db: Db, authorId: nat, title: string, content: string, cands: seq<string>, now: int, f: WriteFaults)
    requires Transact(db, authorId, title, content, cands, now, f).outcome.Ok?
    ensures var buf := db.(articles := db.articles + [ArticleRow(authorId, title, content, NumViewsDefault, now, None)]);
            var committed := Transact(db, authorId, title, content, cands, now, f).session.committed;
            && 1 <= authorId <= |db.users|
            && (cands == [] ==> committed == buf)
            && (cands != [] ==>
                  && ResolveTags(buf, cands, now, f.insertTags).Some?
                  && committed == AppendLinks(ResolveTags(buf, cands, now, f.insertTags).value.0, |db.articles| + 1,
                                              ResolveTags(buf, cands, now, f.insertTags).value.1))
  {
  }

  /** A tag field of blanks and commas issues no tag lookup, insert or association. */
  lemma BlankTagsSkipTagWork(db: Db, authorId: nat, title: string, content: string, inputTags: string, now: int, f: WriteFaults)
    requires forall i :: 0 <= i < |inputTags| ==> inputTags[i] == ',' || IsSpace(inputTags[i])
    ensures var r := CreateArticle(db, authorId, title, content, inputTags, now, f);
            FindTags !in r.trace && InsertTagRows !in r.trace && AppendAssociations !in r.trace
  {
    BlankFieldHasNoCandidates(inputTags);
  }

  /** The bulk insert of the new tags can only violate a column width: the new
      names are neither stored already nor repeated. */
  lemma NewNamesInsertable(buf: Db, cands: seq<string>)
    requires Distinct(cands)
    ensures TagInsertViolates(buf, NewNames(buf, cands)) <==>
              exists c :: c in NewNames(buf, cands) && !TagFitsSchema(c)
  {
    var found := FindTagsByContent(buf, cands);
    var newNames := NewNames(buf, cands);
    NewTagNamesOrder(cands, TagMap(found));
    forall i | 0 <= i < |newNames|
      ensures !TagExists(buf, newNames[i])
    {
      assert newNames[i] in newNames;
    }
  }

  /** A request fails at the tag insert only on an injected error or when a
      new tag is wider than the tag_content column. */
  lemma TagInsertFailureCause(db: Db, authorId: nat, title: string, content: string, cands: seq<string>, now: int, f: WriteFaults)
    requires Distinct(cands)
    ensures Transact(db, authorId, title, content, cands, now, f).outcome == Err(TagInsertFailed) ==>
              f.insertTags || exists c :: c in cands && |c| > TagContentMax
  {
    var r := Transact(db, authorId, title, content, cands, now, f);
    if r.outcome == Err(TagInsertFailed) && !f.insertTags {
      var buf := InsertArticle(db, ArticleRow(authorId, title, content, NumViewsDefault, now, None)).value.0;
      ResolveTagsFailure(buf, cands, now, f.insertTags);
      NewNamesInsertable(buf, cands);
      var c :| c in NewNames(buf, cands) && !TagFitsSchema(c);
      assert c in cands;
    }
  }

  /** Without injected errors, with an existing author and every name fitting
      its column, the request commits. */
  lemma TransactSucceedsWithoutFaults(db: Db, authorId: nat, title: string, content: string, cands: seq<string>, now: int)
    requires Distinct(cands)
    requires 1 <= authorId <= |db.users|
    requires forall c :: c in cands ==> TagFitsSchema(c)
    ensures Transact(db, authorId, title, content, cands, now, NoFaults).outcome.Ok?
  {
    if cands != [] {
      var buf := InsertArticle(db, ArticleRow(authorId, title, content, NumViewsDefault, now, None)).value.0;
      ResolveTagsFailure(buf, cands, now, false);
      NewNamesInsertable(buf, cands);
    }
  }

  lemma {:induction false} LinkedTagsExtendTags(tags: seq<TagRow>, more: seq<TagRow>, links: seq<Link>, articleId: nat)
    requires forall l :: l in links ==> 1 <= l.tagId <= |tags|
    ensures LinkedTags(tags + more, links, articleId) == LinkedTags(tags, links, articleId)
    decreases |links|
  {
    if links != [] {
      assert links[|links| - 1] in links;
      assert forall l :: l in links[..|links| - 1] ==> l in links;
      LinkedTagsExtendTags(tags, more, links[..|links| - 1], articleId);
    }
  }

  /** Appending the new tag rows keeps tag contents unique. */
  lemma NewTagRowsKeepUnique(db: Db, newNames: seq<string>, now: int)
    requires forall i, j :: 0 <= i < j < |db.tags| ==> db.tags[i].content != db.tags[j].content
    requires !TagInsertViolates(db, newNames)
    ensures var tags := db.tags + NewTagRows(newNames, now);
            forall i, j :: 0 <= i < j < |tags| ==> tags[i].content != tags[j].content
  {
    var newRows := NewTagRows(newNames, now);
    var tags := db.tags + newRows;
    forall i, j | 0 <= i < j < |tags|
      ensures tags[i].content != tags[j].content
    {
      if j >= |db.tags| {
        assert tags[j] == newRows[j - |db.tags|];
        if i >= |db.tags| {
          assert tags[i] == newRows[i - |db.tags|];
        } else {
          assert !TagExists(db, newNames[j - |db.tags|]);
        }
      }
    }
  }

  /** The association rows of the new article point at existing rows and
      repeat neither each other nor any older row. */
  lemma NewLinksKeepValid(db: Db, out: Db, id: nat, ts: seq<Tag>, cands: seq<string>)
    requires Valid(db)
    requires id == |db.articles| + 1 <= |out.articles| && |db.tags| <= |out.tags|
    requires out.links == db.links + LinksFor(id, ts)
    requires Stored(out.tags, ts) && Distinct(cands)
    requires |ts| == |cands| && forall i :: 0 <= i < |cands| ==> ts[i].content == cands[i]
    ensures forall l :: l in out.links ==> 1 <= l.articleId <= |out.articles| && 1 <= l.tagId <= |out.tags|
    ensures forall i, j :: 0 <= i < j < |out.links| ==> out.links[i] != out.links[j]
  {
    var newLinks := LinksFor(id, ts);
    forall l | l in out.links
      ensures 1 <= l.articleId <= |out.articles| && 1 <= l.tagId <= |out.tags|
    {
      if l !in db.links {
        var i :| 0 <= i < |newLinks| && newLinks[i] == l;
        assert ts[i] in ts;
      }
    }
    forall i, j | 0 <= i < j < |out.links|
      ensures out.links[i] != out.links[j]
    {
      if j >= |db.links| {
        if i >= |db.links| {
          var a, b := i - |db.links|, j - |db.links|;
          assert out.links[i] == newLinks[a] && out.links[j] == newLinks[b];
          assert ts[a] in ts && ts[b] in ts;
        } else {
          assert out.links[i] in db.links;
        }
      }
    }
  }

  /** A committed request keeps the table constraints. */
  lemma TransactKeepsValid(db: Db, authorId: nat, title: string, content: string, cands: seq<string>, now: int, f: WriteFaults)
    requires Valid(db) && Distinct(cands)
    ensures Valid(Transact(db, authorId, title, content, cands, now, f).session.committed)
  {
    var r := Transact(db, authorId, title, content, cands, now, f);
    if r.outcome.Ok? {
      CommittedStore(db, authorId, title, content, cands, now, f);
      var row := ArticleRow(authorId, title, content, NumViewsDefault, now, None);
      CommittedKeepsValid(db, row, cands, now, f.insertTags, r.session.committed);
    }
  }

  /** The store CommittedStore describes keeps the table constraints. */
  lemma CommittedKeepsValid(db: Db, row: ArticleRow, cands: seq<string>, now: int, insertFails: bool, committed: Db)
    requires Valid(db) && Distinct(cands) && 1 <= row.authorId <= |db.users|
    requires var buf := db.(articles := db.articles + [row]);
             && (cands == [] ==> committed == buf)
             && (cands != [] ==>
                   && ResolveTags(buf, cands, now, insertFails).Some?
                   && committed == AppendLinks(ResolveTags(buf, cands, now, insertFails).value.0, |db.articles| + 1,
                                               ResolveTags(buf, cands, now, insertFails).value.1))
    ensures Valid(committed)
  {
    var buf := db.(articles := db.articles + [row]);
    if cands == [] {
      AppendedRowKeepsValid(db, row);
    } else {
      ResolveTagsStore(buf, cands, now, insertFails);
      ResolveTagsList(buf, cands, now, insertFails);
      var res := ResolveTags(buf, cands, now, insertFails).value;
      AppendedArticleKeepsValid(db, buf, res.0, row, NewNames(buf, cands), now, res.1, cands);
    }
  }

  /** One more article row by an existing author keeps the table constraints. */
  lemma AppendedRowKeepsValid(db: Db, row: ArticleRow)
    requires Valid(db) && 1 <= row.authorId <= |db.users|
    ensures Valid(db.(articles := db.articles + [row]))
  {
    var out := db.(articles := db.articles + [row]);
    assert forall k :: 0 <= k < |db.articles| ==> out.articles[k] == db.articles[k];
  }

  /** The writes of a committed request with names to process keep the table
      constraints. */
  lemma AppendedArticleKeepsValid(db: Db, buf: Db, tagged: Db, row: ArticleRow, newNames: seq<string>, now: int,
                                  ts: seq<Tag>, cands: seq<string>)
    requires Valid(db) && 1 <= row.authorId <= |db.users| && Distinct(cands)
    requires buf == db.(articles := db.articles + [row])
    requires !TagInsertViolates(buf, newNames)
    requires tagged == buf.(tags := buf.tags + NewTagRows(newNames, now))
    requires Stored(tagged.tags, ts)
    requires |ts| == |cands| && forall i :: 0 <= i < |cands| ==> ts[i].content == cands[i]
    ensures Valid(AppendLinks(tagged, |db.articles| + 1, ts))
  {
    NewTagRowsKeepUnique(db, newNames, now);
    NewLinksKeepValid(db, AppendLinks(tagged, |db.articles| + 1, ts), |db.articles| + 1, ts, cands);
  }

  /** A store holding one more article row and its association rows loads
      that article back with exactly the associated tags. */
  lemma AppendedArticleLoads(db: Db, out: Db, row: ArticleRow, ts: seq<Tag>)
    requires Valid(db) && row.deletedAt.None?
    requires out.articles == db.articles + [row]
    requires out.links == db.links + LinksFor(|db.articles| + 1, ts)
    requires Stored(out.tags, ts)
    ensures var loaded := LoadArticle(out, |db.articles| + 1, false, true);
            && loaded.Some?
            && loaded.value.authorId == row.authorId
            && loaded.value.title == row.title
            && loaded.value.content == row.content
            && loaded.value.numViews == row.numViews
            && loaded.value.tags == ts
  {
    var id := |db.articles| + 1;
    assert forall l :: l in db.links ==> l.articleId != id;
    LinkedTagsAppend(out.tags, db.links, LinksFor(id, ts), id);
    LinkedTagsNone(out.tags, db.links, id);
    LinkedTagsOfLinksFor(out.tags, ts, id);
  }

  /** The committed article loads back with its author, title, content, zero
      views and exactly the processed tag names, each once, in some order. */
  lemma TransactLoadsBack(db: Db, authorId: nat, title: string, content: string, cands: seq<string>, now: int, f: WriteFaults)
    requires Valid(db)
    requires Transact(db, authorId, title, content, cands, now, f).outcome.Ok?
    ensures var r := Transact(db, authorId, title, content, cands, now, f);
            var loaded := LoadArticle(r.session.committed, r.outcome.value, false, true);
            && loaded.Some?
            && loaded.value.authorId == authorId
            && loaded.value.title == title
            && loaded.value.content == content
            && loaded.value.numViews == NumViewsDefault
            && multiset(TagContents(loaded.value.tags)) == multiset(cands)
  {
    var committed := Transact(db, authorId, title, content, cands, now, f).session.committed;
    var row := ArticleRow(authorId, title, content, NumViewsDefault, now, None);
    var buf := db.(articles := db.articles + [row]);
    CommittedStore(db, authorId, title, content, cands, now, f);
    if cands == [] {
      assert committed.links == db.links + LinksFor(|db.articles| + 1, []);
      AppendedArticleLoads(db, committed, row, []);
    } else {
      ResolveTagsList(buf, cands, now, f.insertTags);
      ResolveTagsStore(buf, cands, now, f.insertTags);
      var ts := ResolveTags(buf, cands, now, f.insertTags).value.1;
      AppendedArticleLoads(db, committed, row, ts);
      assert TagContents(ts) == cands;
    }
  }

  /** The article created from a tag field carries exactly its candidates,
      each once; the store keeps its constraints. */
  lemma CreatedArticleTags(db: Db, authorId: nat, title: string, content: string, inputTags: string, now: int, f: WriteFaults)
    requires Valid(db)
    requires CreateArticle(db, authorId, title, content, inputTags, now, f).outcome.Ok?
    ensures var r := CreateArticle(db, authorId, title, content, inputTags, now, f);
            var loaded := LoadArticle(r.session.committed, r.outcome.value, false, true);
            && loaded.Some?
            && multiset(TagContents(loaded.value.tags)) == multiset(Candidates(inputTags))
            && Valid(r.session.committed)
  {
    CandidatesSpec(inputTags);
    TransactLoadsBack(db, authorId, title, content, Candidates(inputTags), now, f);
    TransactKeepsValid(db, authorId, title, content, Candidates(inputTags), now, f);
  }

  /** Adding one article row, more tag rows and association rows of the new
      article loads every other article as before. */
  lemma AppendedArticleLeavesOthers(db: Db, out: Db, row: ArticleRow, more: seq<TagRow>, ts: seq<Tag>,
                                    other: nat, withAuthor: bool, withTags: bool)
    requires Valid(db) && other != |db.articles| + 1
    requires out.users == db.users && out.articles == db.articles + [row] && out.tags == db.tags + more
    requires out.links == db.links + LinksFor(|db.articles| + 1, ts)
    ensures LoadArticle(out, other, withAuthor, withTags) == LoadArticle(db, other, withAuthor, withTags)
  {
    var newLinks := LinksFor(|db.articles| + 1, ts);
    if 1 <= other <= |db.articles| {
      assert out.articles[other - 1] == db.articles[other - 1];
    }
    LinkedTagsAppend(out.tags, db.links, newLinks, other);
    LinkedTagsNone(out.tags, newLinks, other);
    LinkedTagsExtendTags(db.tags, more, db.links, other);
    assert LinkedTags(out.tags, out.links, other) == LinkedTags(db.tags, db.links, other);
    if 1 <= other <= |db.articles| {
      var a := db.articles[other - 1].authorId;
      assert AuthorOf(out, a) == AuthorOf(db, a);
    }
  }

  /** Creating an article changes no other article as loaded, whatever is preloaded. */
  lemma TransactLeavesOthers(db: Db, authorId: nat, title: string, content: string, cands: seq<string>, now: int, f: WriteFaults,
                             other: nat, withAuthor: bool, withTags: bool)
    requires Valid(db)
    requires other != |db.articles| + 1
    ensures var r := Transact(db, authorId, title, content, cands, now, f);
            LoadArticle(r.session.committed, other, withAuthor, withTags) == LoadArticle(db, other, withAuthor, withTags)
  {
    var r := Transact(db, authorId, title, content, cands, now, f);
    if r.outcome.Ok? {
      var row := ArticleRow(authorId, title, content, NumViewsDefault, now, None);
      var buf := db.(articles := db.articles + [row]);
      CommittedStore(db, authorId, title, content, cands, now, f);
      if cands == [] {
        assert r.session.committed.links == db.links + LinksFor(|db.articles| + 1, []);
        assert r.session.committed.tags == db.tags + [];
        AppendedArticleLeavesOthers(db, r.session.committed, row, [], [], other, withAuthor, withTags);
      } else {
        ResolveTagsStore(buf, cands, now, f.insertTags);
        AppendedArticleLeavesOthers(db, r.session.committed, row, NewTagRows(NewNames(buf, cands), now),
                                    ResolveTags(buf, cands, now, f.insertTags).value.1, other, withAuthor, withTags);
      }
    }
  }
}
