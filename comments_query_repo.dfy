/** The read side for comments (`commentsQueryRepo.findCommentsByGossip`):
    the comments of one gossip, one page of them, projected to rows. */
module CommentsQueryRepo {
  import opened Wrappers
  import opened Text
  import opened Models
  import opened Pagination
  import Tables

  /** The query repository's projection of a stored comment. */
  datatype CommentRow = CommentRow(
    id: string, content: string, author: Id, likes: seq<Id>, gossip: Id, parent: Option<Id>)

  /** `transformToViewModel`: the id as its hex string, the other fields
      copied. The row determines the comment's id and every copied field. */
  function ToRow(c: Comment): (r: CommentRow)
    ensures ParseId(r.id) == Some(c.id)
    ensures r.content == c.content && r.author == c.author && r.likes == c.likes
    ensures r.gossip == c.gossip && r.parent == c.parent
  {
    ParseIdString(c.id);
    CommentRow(IdString(c.id), c.content, c.author, c.likes, c.gossip, c.parent)
  }

  function ToRows(s: seq<Comment>): (r: seq<CommentRow>)
    ensures |r| == |s| && forall i :: 0 <= i < |s| ==> r[i] == ToRow(s[i])
  {
    seq(|s|, i requires 0 <= i < |s| => ToRow(s[i]))
  }

  predicate OnGossip(gid: Id, c: Comment) {
    c.gossip == gid
  }

  /** `Comment.find({ gossip: gossipId })` in the collection's natural order. */
  function CommentsOf(db: Db, gid: Id): (r: seq<Comment>)
    ensures forall c :: c in r ==> c.gossip == gid && exists k :: k in db.comments && db.comments[k] == c
    ensures forall k :: k in db.comments && k < db.nextId && db.comments[k].gossip == gid ==> db.comments[k] in r
  {
    Tables.Filter(Tables.InKeyOrder(db.comments, db.nextId), c => OnGossip(gid, c))
  }

  /** A parameter the handler may omit: the default applies only then, so an
      explicit 0 is kept. */
  function OrDefault(x: Option<int>, d: int): int {
    if x.Some? then x.value else d
  }

  /** One page of the gossip's stored comments, with the totals. A negative
      skip is a query error; the source's `null` answer is never produced. */
  function CommentsPage(db: Db, gid: Id, page: Option<int>, limit: Option<int>): (r: Result<Page<Comment>, QueryError>)
    ensures r.Success? ==> r.value.totalItems == |CommentsOf(db, gid)|
  {
    var p := OrDefault(page, 1);
    var l := OrDefault(limit, 10);
    var rows := CommentsOf(db, gid);
    match PageItems(rows, p, l)
    case Failure(e) => Failure(e)
    case Success(items) => Success(Page(|rows|, CeilDiv(|rows|, l), p, items))
  }

  /** `findCommentsByGossip`: the page projected row by row. */
  function FindCommentsByGossip(db: Db, gid: Id, page: Option<int>, limit: Option<int>): (r: Result<Page<CommentRow>, QueryError>)
    ensures r.Success? <==> CommentsPage(db, gid, page, limit).Success?
  {
    match CommentsPage(db, gid, page, limit)
    case Failure(e) => Failure(e)
    case Success(pg) => Success(Page(pg.totalItems, pg.totalPages, pg.currentPage, ToRows(pg.items)))
  }

  /** Omitted parameters give page 1 of at most 10 rows, and the rows are the
      first comments of the gossip, projected in order. */
  lemma DefaultPage(db: Db, gid: Id)
    ensures var r := FindCommentsByGossip(db, gid, None, None);
      && r.Success? && r.value.currentPage == 1
      && r.value.totalItems == |CommentsOf(db, gid)|
      && r.value.totalPages == CeilDiv(|CommentsOf(db, gid)|, 10)
      && |r.value.items| == Min(10, |CommentsOf(db, gid)|)
      && forall i :: 0 <= i < |r.value.items| ==> r.value.items[i] == ToRow(CommentsOf(db, gid)[i])
  {
  }

  /** An explicit limit of 0 is not replaced by the default: it removes the
      cap, so the page holds every comment of the gossip, and the page count
      is not a number. */
  lemma ZeroLimitKept(db: Db, gid: Id, page: Option<int>)
    ensures var r := FindCommentsByGossip(db, gid, page, Some(0));
      && r.Success?
      && r.value.items == ToRows(CommentsOf(db, gid))
      && !r.value.totalPages.Num?
  {
  }

  /** Every returned row belongs to the requested gossip and comes from a
      stored comment; for a page from 1 and a positive limit the rows are that
      window of the gossip's comments. */
  lemma PageRowsBelong(db: Db, gid: Id, page: nat, limit: nat)
    requires page >= 1 && limit > 0
    ensures var r := FindCommentsByGossip(db, gid, Some(page), Some(limit));
      && r.Success?
      && r.value.items == ToRows(Window(CommentsOf(db, gid), page, limit))
      && r.value.currentPage == page
      && forall i :: 0 <= i < |r.value.items| ==> r.value.items[i].gossip == gid
  {
    var rows := CommentsOf(db, gid);
    PageIsWindow(db, gid, page, limit);
    WindowWithin(rows, page, limit);
    var w := Window(rows, page, limit);
    var r := ToRows(w);
    forall i | 0 <= i < |r| ensures r[i].gossip == gid {
      assert w[i] in rows;
    }
  }

  /** Under a page from 1 and a positive limit the rows are that window. */
  lemma PageIsWindow(db: Db, gid: Id, page: nat, limit: nat)
    requires page >= 1 && limit > 0
    ensures var r := FindCommentsByGossip(db, gid, Some(page), Some(limit));
      && r.Success?
      && r.value.items == ToRows(Window(CommentsOf(db, gid), page, limit))
      && r.value.currentPage == page
  {
    WindowIsPageItems(CommentsOf(db, gid), page, limit);
  }

  /** Pages 1 .. totalPages under a positive limit list each comment of the
      gossip exactly once, in order. */
  lemma PagesListEveryComment(db: Db, gid: Id, limit: nat)
    requires limit > 0
    ensures var r := FindCommentsByGossip(db, gid, Some(1), Some(limit));
      && r.Success? && r.value.totalPages.Num?
      && FirstPages(CommentsOf(db, gid), limit, r.value.totalPages.value) == CommentsOf(db, gid)
  {
    var rows := CommentsOf(db, gid);
    WindowIsPageItems(rows, 1, limit);
    PagesCoverAll(rows, limit);
  }
}
