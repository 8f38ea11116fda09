/** The comment service: resolves the parent a new comment is filed under,
    builds the stored record, forwards like, unlike and delete to the
    repository, and turns a page of comments into view models. */
module CommentsService {
  import opened Wrappers
  import opened Text
  import opened Models
  import opened Pagination
  import CommentsRepo
  import CommentsQueryRepo
  import Store

  // ---------------------------------------------------------------------------
  // Parent resolution
  // ---------------------------------------------------------------------------

  /** `authenticParent`: a reply to a reply is filed under the replied-to
      comment's own parent. The lookup happens once, and a requested parent
      that is not stored is kept as given. */
  function ResolveParent(db: Db, parent: Option<Id>): (r: Option<Id>)
    ensures r.None? <==> parent.None?
    ensures r != parent ==> parent.Some? && parent.value in db.comments && db.comments[parent.value].parent == r
  {
    if parent.None? then None
    else if parent.value in db.comments && db.comments[parent.value].parent.Some? then db.comments[parent.value].parent
    else parent
  }

  /** The three cases of the resolution, stated from the stored comments. */
  lemma ResolveParentCases(db: Db, parent: Option<Id>)
    ensures parent.None? ==> ResolveParent(db, parent).None?
    ensures parent.Some? && parent.value !in db.comments ==> ResolveParent(db, parent) == parent
    ensures parent.Some? && parent.value in db.comments ==>
      ResolveParent(db, parent) == if db.comments[parent.value].parent.None? then parent else db.comments[parent.value].parent
    ensures ResolveParent(db, parent).None? <==> parent.None?
  {
  }

  /** Under the depth cap the resolved parent, if stored, is a top-level
      comment: the condition under which a create keeps the cap. */
  lemma ResolvedIsTopLevel(db: Db, parent: Option<Id>)
    requires DepthCapped(db.comments)
    ensures CommentsRepo.ParentIsTopLevel(db, ResolveParent(db, parent))
  {
    if parent.Some? && parent.value in db.comments && db.comments[parent.value].parent.Some? {
      var q := db.comments[parent.value].parent.value;
      if q in db.comments {
        assert db.comments[q].parent.None?;
      }
    }
  }

  /** The collapse is a single step: on a three-level chain, which the depth
      cap rules out, a reply to the deepest comment is filed under the middle
      one, which still has a parent. */
  lemma CollapseIsOneStep()
    ensures var c0 := Comment(0, "a", 0, 0, None, [], 0);
      var c1 := Comment(1, "b", 0, 0, Some(0), [], 0);
      var c2 := Comment(2, "c", 0, 0, Some(1), [], 0);
      var db := Db(map[], map[], map[0 := c0, 1 := c1, 2 := c2], map[], 3);
      && ResolveParent(db, Some(2)) == Some(1)
      && db.comments[1].parent.Some?
      && !DepthCapped(db.comments)
  {
    var c0 := Comment(0, "a", 0, 0, None, [], 0);
    var c1 := Comment(1, "b", 0, 0, Some(0), [], 0);
    var c2 := Comment(2, "c", 0, 0, Some(1), [], 0);
    var db := Db(map[], map[], map[0 := c0, 1 := c1, 2 := c2], map[], 3);
    assert db.comments[2].parent.value in db.comments;
  }

  /** The record `createComment` hands to the repository. */
  function CommentRecord(author: Id, gossipId: Id, content: string, parent: Option<Id>): (r: CommentInput)
    ensures r.likes == [] && r.gossip == gossipId && r.author == author && r.content == content && r.parent == parent
  {
    CommentInput(author, content, gossipId, parent, [])
  }

  /** `createComment`: resolves the parent, then stores the comment with no
      likes and files it under its author and its gossip. Keeps the depth cap
      and, for a stored author and gossip, every reference mirrored. */
  method CreateComment(store: Store.Store, author: Id, gossipId: Id, content: string,
                       parent: Option<Id>, now: Time) returns (c: Comment)
    modifies store
    ensures (store.Snapshot(), c) == CommentsRepo.CreateAndAssociateWithUserAndGossip(
      old(store.Snapshot()), CommentRecord(author, gossipId, content, ResolveParent(old(store.Snapshot()), parent)), now)
    ensures c.likes == [] && c.gossip == gossipId && c.author == author && c.content == content
    ensures c.parent == ResolveParent(old(store.Snapshot()), parent)
    ensures old(Valid(store.Snapshot())) ==> Valid(store.Snapshot())
    ensures (old(Valid(store.Snapshot()) && Consistent(store.Snapshot()))
      && author in old(store.users) && gossipId in old(store.gossips)) ==> Consistent(store.Snapshot())
  {
    ghost var db := store.Snapshot();
    var authenticParent := parent;
    if parent.Some? {
      var parentData := CommentsRepo.FindCommentById(store.Snapshot(), parent.value);
      if parentData.Some? && parentData.value.parent.Some? {
        authenticParent := parentData.value.parent;
      }
    }
    var record := CommentInput(author, content, gossipId, authenticParent, []);
    c := store.CreateComment(record, now);
    if Valid(db) {
      ResolvedIsTopLevel(db, parent);
      CommentsRepo.CreateKeepsValid(db, record, now);
      if Consistent(db) && author in db.users && gossipId in db.gossips {
        CommentsRepo.CreateKeepsConsistent(db, record, now);
      }
    }
  }

  // ---------------------------------------------------------------------------
  // Likes and delete
  // ---------------------------------------------------------------------------

  /** `likeComment`: forwards to the repository, whose operation answers
      nothing, so the service's answer is always absent. */
  method LikeComment(store: Store.Store, author: Id, cid: Id) returns (r: Option<seq<Id>>)
    modifies store
    ensures store.Snapshot() == CommentsRepo.LikeComment(old(store.Snapshot()), author, cid)
    ensures r.None?
    ensures old(Valid(store.Snapshot())) ==> Valid(store.Snapshot())
    ensures old(Consistent(store.Snapshot())) && author in old(store.users) ==> Consistent(store.Snapshot())
  {
    ghost var db := store.Snapshot();
    store.LikeComment(author, cid);
    r := None;
    if Valid(db) {
      CommentsRepo.LikeKeepsValid(db, author, cid);
    }
    if Consistent(db) && author in db.users {
      CommentsRepo.LikeKeepsConsistent(db, author, cid);
    }
  }

  /** `unlikeComment`: as `likeComment`, with the like removed. */
  method UnlikeComment(store: Store.Store, author: Id, cid: Id) returns (r: Option<seq<Id>>)
    modifies store
    ensures store.Snapshot() == CommentsRepo.UnlikeComment(old(store.Snapshot()), author, cid)
    ensures r.None?
    ensures old(Valid(store.Snapshot())) ==> Valid(store.Snapshot())
    ensures old(Consistent(store.Snapshot())) ==> Consistent(store.Snapshot())
  {
    ghost var db := store.Snapshot();
    store.UnlikeComment(author, cid);
    r := None;
    if Valid(db) {
      CommentsRepo.UnlikeKeepsValid(db, author, cid);
    }
    if Consistent(db) {
      CommentsRepo.UnlikeKeepsConsistent(db, author, cid);
    }
  }

  /** The answer a like operation evidently means to give: the comment's
      likes after the change, or None for a missing comment. */
  method LikeCommentListing(store: Store.Store, author: Id, cid: Id) returns (r: Option<seq<Id>>)
    modifies store
    ensures store.Snapshot() == CommentsRepo.LikeComment(old(store.Snapshot()), author, cid)
    ensures r.None? <==> cid !in old(store.comments)
    ensures r.Some? ==> cid in store.comments && r.value == store.comments[cid].likes && author in r.value
    ensures old(Valid(store.Snapshot())) ==> Valid(store.Snapshot())
    ensures old(Consistent(store.Snapshot())) && author in old(store.users) ==> Consistent(store.Snapshot())
  {
    r := LikeComment(store, author, cid);
    if cid in store.comments {
      r := Some(store.comments[cid].likes);
    }
  }

  /** The corrected unlike: the comment's likes after the change, or None. */
  method UnlikeCommentListing(store: Store.Store, author: Id, cid: Id) returns (r: Option<seq<Id>>)
    modifies store
    ensures store.Snapshot() == CommentsRepo.UnlikeComment(old(store.Snapshot()), author, cid)
    ensures r.None? <==> cid !in old(store.comments)
    ensures r.Some? ==> cid in store.comments && r.value == store.comments[cid].likes && author !in r.value
    ensures old(Valid(store.Snapshot())) ==> Valid(store.Snapshot())
    ensures old(Consistent(store.Snapshot())) ==> Consistent(store.Snapshot())
  {
    r := UnlikeComment(store, author, cid);
    if cid in store.comments {
      r := Some(store.comments[cid].likes);
    }
  }

  /** `deleteComment`: the repository's cascading delete. */
  method DeleteComment(store: Store.Store, cid: Id) returns (r: Option<Comment>)
    modifies store
    ensures (store.Snapshot(), r) == CommentsRepo.DeleteAndDissociateFromUserAndGossip(old(store.Snapshot()), cid)
    ensures r.None? <==> cid !in old(store.comments)
    ensures cid !in store.comments
    ensures old(Valid(store.Snapshot())) ==> Valid(store.Snapshot())
    ensures old(Consistent(store.Snapshot())) ==> Consistent(store.Snapshot())
  {
    ghost var db := store.Snapshot();
    r := store.DeleteComment(cid);
    if Valid(db) {
      CommentsRepo.DeleteKeepsValid(db, cid);
    }
    if Consistent(db) {
      CommentsRepo.DeleteKeepsConsistent(db, cid);
    }
  }

  // ---------------------------------------------------------------------------
  // Reading
  // ---------------------------------------------------------------------------

  /** The view model the service answers with (CommentViewModel). */
  datatype CommentView = CommentView(
    id: string, content: string, author: string, likes: seq<Id>, gossip: string,
    parent: Option<string>, createdAt: Time)

  /** `_transformToViewModel`: ids as strings; a missing parent is null and a
      present one its id string, never empty, so `|| null` keeps it. */
  function TransformToViewModel(c: Comment): (v: CommentView)
    ensures ParseId(v.id) == Some(c.id)
    ensures v.content == c.content && v.likes == c.likes && (v.parent.None? <==> c.parent.None?)
  {
    ParseIdString(c.id);
    CommentView(IdString(c.id), c.content, IdString(c.author), c.likes, IdString(c.gossip),
      if c.parent.Some? then Some(IdString(c.parent.value)) else None, c.createdAt)
  }

  /** Every id in the view parses back to the comment's, and a parent is
      present in the view exactly when the comment has one. */
  lemma TransformParsesBack(c: Comment)
    ensures var v := TransformToViewModel(c);
      && ParseId(v.id) == Some(c.id) && ParseId(v.author) == Some(c.author)
      && ParseId(v.gossip) == Some(c.gossip)
      && (v.parent.None? <==> c.parent.None?)
      && (c.parent.Some? ==> ParseId(v.parent.value) == Some(c.parent.value))
      && v.content == c.content && v.likes == c.likes && v.createdAt == c.createdAt
  {
    ParseIdString(c.id);
    ParseIdString(c.author);
    ParseIdString(c.gossip);
    if c.parent.Some? {
      ParseIdString(c.parent.value);
    }
  }

  /** The view loses nothing: two comments with the same view are equal. */
  lemma TransformInjective(c1: Comment, c2: Comment)
    requires TransformToViewModel(c1) == TransformToViewModel(c2)
    ensures c1 == c2
  {
    TransformParsesBack(c1);
    TransformParsesBack(c2);
  }

  function Views(s: seq<Comment>): (r: seq<CommentView>)
    ensures |r| == |s| && forall i :: 0 <= i < |s| ==> r[i] == TransformToViewModel(s[i])
  {
    seq(|s|, i requires 0 <= i < |s| => TransformToViewModel(s[i]))
  }

  /** How `readComments` fails as written: the query's own error, or the
      TypeError of reading `_id` of a row that has none. */
  datatype ReadError = QueryFailed(e: QueryError) | IdOfUndefined

  /** `_transformToViewModel` applied to a query-repository row: the row
      carries its id as `id`, so `comment._id` is undefined and
      `toHexString` throws. */
  function TransformRowAsWritten(row: CommentsQueryRepo.CommentRow): Result<CommentView, ReadError>
  {
    Failure(IdOfUndefined)
  }

  /** `Promise.all` over the rows: the first row that throws rejects the whole. */
  function ViewsAsWritten(rows: seq<CommentsQueryRepo.CommentRow>): (r: Result<seq<CommentView>, ReadError>)
    ensures r.Success? ==> |r.value| == |rows|
  {
    if rows == [] then Success([])
    else
      var tail := ViewsAsWritten(rows[1..]);
      match (TransformRowAsWritten(rows[0]), tail)
      case (Failure(e), _) => Failure(e)
      case (_, Failure(e)) => Failure(e)
      case (Success(v), Success(vs)) => Success([v] + vs)
  }

  /** `readComments` as written: `findCommentsByGossip` and then
      `_transformToViewModel` on each of its rows. */
  function ReadCommentsAsWritten(db: Db, gid: Id, page: Option<int>, limit: Option<int>): (r: Result<Page<CommentView>, ReadError>)
    ensures r.Success? ==> CommentsQueryRepo.FindCommentsByGossip(db, gid, page, limit).Success?
  {
    match CommentsQueryRepo.FindCommentsByGossip(db, gid, page, limit)
    case Failure(e) => Failure(QueryFailed(e))
    case Success(q) =>
      match ViewsAsWritten(q.items)
      case Failure(e) => Failure(e)
      case Success(vs) => Success(Page(q.totalItems, q.totalPages, q.currentPage, vs))
  }

  /** As written, every page that holds a comment fails with the TypeError;
      only an empty page is answered, and then with the query's totals. */
  lemma ReadCommentsAsWrittenThrows(db: Db, gid: Id, page: Option<int>, limit: Option<int>)
    ensures var r := ReadCommentsAsWritten(db, gid, page, limit);
      var q := CommentsQueryRepo.FindCommentsByGossip(db, gid, page, limit);
      && (q.Failure? ==> r == Failure(QueryFailed(q.error)))
      && (q.Success? && q.value.items != [] ==> r == Failure(IdOfUndefined))
      && (q.Success? && q.value.items == [] ==> r == Success(Page(q.value.totalItems, q.value.totalPages, q.value.currentPage, [])))
  {
  }

  /** The input that shows it: the first page of a gossip with at least one
      comment, under any positive limit, fails as written, while the
      corrected `ReadComments` answers it with that comment's view. */
  lemma ReadCommentsAsWrittenFirstPage(db: Db, gid: Id, cid: Id, limit: nat)
    requires cid in db.comments && cid < db.nextId && db.comments[cid].gossip == gid && limit > 0
    ensures ReadCommentsAsWritten(db, gid, Some(1), Some(limit)) == Failure(IdOfUndefined)
    ensures ReadComments(db, gid, Some(1), Some(limit)).Success?
    ensures ReadComments(db, gid, Some(1), Some(limit)).value.items != []
  {
    var rows := CommentsQueryRepo.CommentsOf(db, gid);
    assert db.comments[cid] in rows;
    Pagination.WindowIsPageItems(rows, 1, limit);
    assert Pagination.Window(rows, 1, limit)[0] == rows[0];
    ReadCommentsAsWrittenThrows(db, gid, Some(1), Some(limit));
  }

  /** `readComments` as evidently intended: the page of the gossip's stored
      comments with its totals unchanged and every comment turned into a
      view, one for one and in order. */
  function ReadComments(db: Db, gid: Id, page: Option<int>, limit: Option<int>): (r: Result<Page<CommentView>, QueryError>)
    ensures r.Success? <==> CommentsQueryRepo.FindCommentsByGossip(db, gid, page, limit).Success?
    ensures r.Success? ==> |r.value.items| == |CommentsQueryRepo.FindCommentsByGossip(db, gid, page, limit).value.items|
  {
    match CommentsQueryRepo.CommentsPage(db, gid, page, limit)
    case Failure(e) => Failure(e)
    case Success(pg) => Success(Page(pg.totalItems, pg.totalPages, pg.currentPage, Views(pg.items)))
  }

  /** The service's page and the query repository's agree: same outcome, same
      totals and page number, and item by item the view and the row name the
      same comment, author, gossip and parent. */
  lemma ReadCommentsAgreesWithQuery(db: Db, gid: Id, page: Option<int>, limit: Option<int>)
    ensures var r := ReadComments(db, gid, page, limit);
      var q := CommentsQueryRepo.FindCommentsByGossip(db, gid, page, limit);
      && (r.Success? <==> q.Success?)
      && (r.Success? ==>
        && r.value.totalItems == q.value.totalItems && r.value.totalPages == q.value.totalPages
        && r.value.currentPage == q.value.currentPage && |r.value.items| == |q.value.items|
        && forall i :: 0 <= i < |r.value.items| ==>
          && r.value.items[i].id == q.value.items[i].id
          && r.value.items[i].author == IdString(q.value.items[i].author)
          && r.value.items[i].gossip == IdString(q.value.items[i].gossip)
          && r.value.items[i].content == q.value.items[i].content
          && r.value.items[i].likes == q.value.items[i].likes
          && (r.value.items[i].parent.None? <==> q.value.items[i].parent.None?))
  {
  }

  /** Every view on a page belongs to the requested gossip. */
  lemma ReadCommentsOnGossip(db: Db, gid: Id, page: nat, limit: nat)
    requires page >= 1 && limit > 0
    ensures var r := ReadComments(db, gid, Some(page), Some(limit));
      && r.Success?
      && forall i :: 0 <= i < |r.value.items| ==> ParseId(r.value.items[i].gossip) == Some(gid)
  {
    CommentsQueryRepo.PageRowsBelong(db, gid, page, limit);
    ParseIdString(gid);
  }
}
