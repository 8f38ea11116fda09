/** The read side for gossips (`gossipsQueryRepo`): one gossip by id, and a
    sorted page of all gossips with the totals. */
module GossipsQueryRepo {
  import opened Wrappers
  import opened Models
  import opened Pagination
  import Tables

  /** `findGossipById`: the stored gossip, or None. */
  function FindGossipById(db: Db, gid: Id): (r: Option<Gossip>)
    ensures r.Some? <==> gid in db.gossips
    ensures r.Some? ==> r.value == db.gossips[gid]
  {
    if gid in db.gossips then Some(db.gossips[gid]) else None
  }

  /** The listing parameters of `findGossips`. */
  datatype ListQuery = ListQuery(limit: NumArg, page: NumArg, sortField: string, sortOrder: string)

  function GossipCreatedAt(g: Gossip): int {
    g.createdAt
  }

  /** Every gossip in the collection's natural order. */
  function AllGossips(db: Db): (r: seq<Gossip>)
    ensures forall k :: k in db.gossips && k < db.nextId ==> db.gossips[k] in r
    ensures forall x :: x in r ==> exists k :: k in db.gossips && db.gossips[k] == x
  {
    Tables.InKeyOrder(db.gossips, db.nextId)
  }

  /** All gossips in the requested order. */
  function Sorted(db: Db, q: ListQuery, other: string -> (Gossip -> int)): (r: seq<Gossip>)
    ensures multiset(r) == multiset(AllGossips(db))
  {
    SortBy(AllGossips(db), SortKey(q.sortField, GossipCreatedAt, other), Descending(q.sortOrder))
  }

  /** `findGossips`. */
  function FindGossips(db: Db, q: ListQuery, other: string -> (Gossip -> int)): (r: Result<Page<Gossip>, QueryError>)
    ensures r.Success? ==> r.value.totalItems == |AllGossips(db)|
  {
    var limit := OrFalsy(q.limit, 10);
    var page := OrFalsy(q.page, 1);
    var all := AllGossips(db);
    match PageItems(Sorted(db, q, other), page, limit)
    case Failure(e) => Failure(e)
    case Success(items) => Success(Page(|all|, CeilDiv(|all|, limit), page, items))
  }

  /** With limit and page missing, NaN or zero the listing is page 1 of at
      most 10 gossips, newest or oldest first by creation time as requested,
      counted over all gossips. */
  lemma FindGossipsDefaults(db: Db, limit: NumArg, page: NumArg, sortOrder: string, other: string -> (Gossip -> int))
    requires limit.Missing? || limit.NotANumber? || limit == Number(0)
    requires page.Missing? || page.NotANumber? || page == Number(0)
    ensures var r := FindGossips(db, ListQuery(limit, page, "", sortOrder), other);
      && r.Success? && r.value.currentPage == 1
      && r.value.totalPages == CeilDiv(|AllGossips(db)|, 10)
      && |r.value.items| <= 10
      && SortedBy(r.value.items, GossipCreatedAt, Descending(sortOrder))
  {
    var q := ListQuery(limit, page, "", sortOrder);
    var s := Sorted(db, q, other);
    SortBySorted(AllGossips(db), GossipCreatedAt, Descending(sortOrder));
    WindowIsPageItems(s, 1, 10);
    WindowSorted(s, 1, 10, GossipCreatedAt, Descending(sortOrder));
  }

  /** For a page from 1 and a positive limit, the items are stored gossips,
      in the requested order, and the page number is echoed back. */
  lemma FindGossipsPage(db: Db, q: ListQuery, other: string -> (Gossip -> int))
    requires q.limit.Number? && q.limit.n > 0 && q.page.Number? && q.page.n >= 1
    ensures var r := FindGossips(db, q, other);
      && r.Success? && r.value.currentPage == q.page.n
      && r.value.items == Window(Sorted(db, q, other), q.page.n, q.limit.n)
      && SortedBy(r.value.items, SortKey(q.sortField, GossipCreatedAt, other), Descending(q.sortOrder))
      && forall x :: x in r.value.items ==> exists k :: k in db.gossips && db.gossips[k] == x
  {
    FindGossipsWindow(db, q, other);
    WindowSortedAndStored(db, q, other);
  }

  lemma FindGossipsWindow(db: Db, q: ListQuery, other: string -> (Gossip -> int))
    requires q.limit.Number? && q.limit.n > 0 && q.page.Number? && q.page.n >= 1
    ensures var r := FindGossips(db, q, other);
      && r.Success? && r.value.currentPage == q.page.n
      && r.value.items == Window(Sorted(db, q, other), q.page.n, q.limit.n)
  {
    WindowIsPageItems(Sorted(db, q, other), q.page.n, q.limit.n);
  }

  lemma WindowSortedAndStored(db: Db, q: ListQuery, other: string -> (Gossip -> int))
    requires q.limit.Number? && q.limit.n > 0 && q.page.Number? && q.page.n >= 1
    ensures var w := Window(Sorted(db, q, other), q.page.n, q.limit.n);
      && SortedBy(w, SortKey(q.sortField, GossipCreatedAt, other), Descending(q.sortOrder))
      && forall x :: x in w ==> exists k :: k in db.gossips && db.gossips[k] == x
  {
    var s := Sorted(db, q, other);
    var key := SortKey(q.sortField, GossipCreatedAt, other);
    SortBySorted(AllGossips(db), key, Descending(q.sortOrder));
    WindowSorted(s, q.page.n, q.limit.n, key, Descending(q.sortOrder));
    WindowWithin(s, q.page.n, q.limit.n);
    SortedFromStore(db, q, other);
  }

  lemma SortedFromStore(db: Db, q: ListQuery, other: string -> (Gossip -> int))
    ensures forall x :: x in Sorted(db, q, other) ==> exists k :: k in db.gossips && db.gossips[k] == x
  {
    forall x | x in Sorted(db, q, other)
      ensures exists k :: k in db.gossips && db.gossips[k] == x
    {
      assert x in multiset(Sorted(db, q, other));
      assert x in AllGossips(db);
    }
  }

  /** Pages 1 .. totalPages under a positive limit list every gossip exactly
      once, in the requested order. */
  lemma FindGossipsCoverAll(db: Db, q: ListQuery, other: string -> (Gossip -> int))
    requires q.limit.Number? && q.limit.n > 0
    ensures var r := FindGossips(db, ListQuery(q.limit, Number(1), q.sortField, q.sortOrder), other);
      && r.Success? && r.value.totalPages.Num?
      && FirstPages(Sorted(db, q, other), q.limit.n, r.value.totalPages.value) == Sorted(db, q, other)
      && multiset(Sorted(db, q, other)) == multiset(AllGossips(db))
  {
    var s := Sorted(db, q, other);
    WindowIsPageItems(s, 1, q.limit.n);
    PagesCoverAll(s, q.limit.n);
  }
}
