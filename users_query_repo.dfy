/** The read side for users (`usersQueryRepo`): a sorted, searched page of
    users with the totals, and one user by id. */
module UsersQueryRepo {
  import opened Wrappers
  import opened Text
  import opened Models
  import opened Pagination
  import Tables

  /** The listing parameters of `getAllUsers`. */
  datatype UserQuery = UserQuery(limit: NumArg, page: NumArg, sortField: string, sortOrder: string, searchQuery: string)

  function UserCreatedAt(u: User): int {
    u.createdAt
  }

  /** A name field matches when it is present and contains the search text,
      ignoring case; a missing field never matches. */
  predicate NameMatches(name: Option<string>, search: string) {
    name.Some? && ContainsIgnoringCase(name.value, search)
  }

  /** The `$or` of the two name conditions. */
  predicate Matches(search: string, u: User) {
    NameMatches(u.firstName, search) || NameMatches(u.lastName, search)
  }

  /** The users the search selects, in the collection's natural order. */
  function Matching(db: Db, search: string): (r: seq<User>)
    ensures forall u :: u in r ==> Matches(search, u) && exists k :: k in db.users && db.users[k] == u
    ensures forall k :: k in db.users && k < db.nextId && Matches(search, db.users[k]) ==> db.users[k] in r
  {
    Tables.Filter(Tables.InKeyOrder(db.users, db.nextId), u => Matches(search, u))
  }

  /** The selected users in the requested order. */
  function Sorted(db: Db, q: UserQuery, other: string -> (User -> int)): (r: seq<User>)
    ensures multiset(r) == multiset(Matching(db, q.searchQuery))
  {
    SortBy(Matching(db, q.searchQuery), SortKey(q.sortField, UserCreatedAt, other), Descending(q.sortOrder))
  }

  /** `getAllUsers`. */
  function GetAllUsers(db: Db, q: UserQuery, other: string -> (User -> int)): (r: Result<Page<User>, QueryError>)
    ensures r.Success? ==> r.value.totalItems == |Matching(db, q.searchQuery)|
  {
    var limit := OrFalsy(q.limit, 10);
    var page := OrFalsy(q.page, 1);
    var found := Matching(db, q.searchQuery);
    match PageItems(Sorted(db, q, other), page, limit)
    case Failure(e) => Failure(e)
    case Success(items) => Success(Page(|found|, CeilDiv(|found|, limit), page, items))
  }

  /** `findUserById`: the stored user, or None. */
  function FindUserById(db: Db, uid: Id): (r: Option<User>)
    ensures r.Some? <==> uid in db.users
    ensures r.Some? ==> r.value == db.users[uid]
  {
    if uid in db.users then Some(db.users[uid]) else None
  }

  /** An empty search selects exactly the users that have a first or a last
      name: the empty text occurs in every present name, and a missing name
      is never matched. */
  lemma EmptySearchSelectsNamed(u: User)
    ensures Matches("", u) <==> u.firstName.Some? || u.lastName.Some?
  {
    if u.firstName.Some? {
      EmptyOccursEverywhere(u.firstName.value);
    }
    if u.lastName.Some? {
      EmptyOccursEverywhere(u.lastName.value);
    }
  }

  /** The search ignores the case of the search text. */
  lemma SearchIgnoresCase(u: User, search: string)
    ensures Matches(search, u) <==> Matches(Lower(search), u)
  {
    LowerIdempotent(search);
  }

  /** An empty store lists nothing: 0 items on 0 pages, page 1. */
  lemma EmptyStoreListing(q: UserQuery, other: string -> (User -> int))
    requires q.limit.Missing? && q.page.Missing?
    ensures GetAllUsers(Empty(), q, other) == Success(Page(0, Num(0), 1, []))
  {
    var s := Sorted(Empty(), q, other);
    assert |Matching(Empty(), q.searchQuery)| == 0;
    assert |s| == 0 by {
      assert |multiset(s)| == 0;
    }
  }

  /** For a page from 1 and a positive limit, the items are selected users
      in the requested order, at most `limit` of them, and the page number is
      echoed back. */
  lemma GetAllUsersPage(db: Db, q: UserQuery, other: string -> (User -> int))
    requires q.limit.Number? && q.limit.n > 0 && q.page.Number? && q.page.n >= 1
    ensures var r := GetAllUsers(db, q, other);
      && r.Success? && r.value.currentPage == q.page.n
      && |r.value.items| <= q.limit.n
      && r.value.items == Window(Sorted(db, q, other), q.page.n, q.limit.n)
      && r.value.totalPages == CeilDiv(|Matching(db, q.searchQuery)|, q.limit.n)
      && SortedBy(r.value.items, SortKey(q.sortField, UserCreatedAt, other), Descending(q.sortOrder))
      && forall u :: u in r.value.items ==> Matches(q.searchQuery, u)
  {
    GetAllUsersWindow(db, q, other);
    WindowSortedAndMatching(db, q, other);
  }

  lemma GetAllUsersWindow(db: Db, q: UserQuery, other: string -> (User -> int))
    requires q.limit.Number? && q.limit.n > 0 && q.page.Number? && q.page.n >= 1
    ensures var r := GetAllUsers(db, q, other);
      && r.Success? && r.value.currentPage == q.page.n
      && r.value.items == Window(Sorted(db, q, other), q.page.n, q.limit.n)
      && r.value.totalPages == CeilDiv(|Matching(db, q.searchQuery)|, q.limit.n)
  {
    WindowIsPageItems(Sorted(db, q, other), q.page.n, q.limit.n);
  }

  lemma WindowSortedAndMatching(db: Db, q: UserQuery, other: string -> (User -> int))
    requires q.limit.Number? && q.limit.n > 0 && q.page.Number? && q.page.n >= 1
    ensures var w := Window(Sorted(db, q, other), q.page.n, q.limit.n);
      && SortedBy(w, SortKey(q.sortField, UserCreatedAt, other), Descending(q.sortOrder))
      && forall u :: u in w ==> Matches(q.searchQuery, u)
  {
    var s := Sorted(db, q, other);
    var key := SortKey(q.sortField, UserCreatedAt, other);
    SortBySorted(Matching(db, q.searchQuery), key, Descending(q.sortOrder));
    WindowSorted(s, q.page.n, q.limit.n, key, Descending(q.sortOrder));
    WindowWithin(s, q.page.n, q.limit.n);
    SortedMatch(db, q, other);
  }

  lemma SortedMatch(db: Db, q: UserQuery, other: string -> (User -> int))
    ensures forall u :: u in Sorted(db, q, other) ==> Matches(q.searchQuery, u)
  {
    forall u | u in Sorted(db, q, other) ensures Matches(q.searchQuery, u) {
      assert u in multiset(Sorted(db, q, other));
      assert u in Matching(db, q.searchQuery);
    }
  }

  /** Pages 1 .. totalPages under a positive limit list every selected user
      exactly once, in the requested order. */
  lemma GetAllUsersCoverAll(db: Db, q: UserQuery, other: string -> (User -> int))
    requires q.limit.Number? && q.limit.n > 0
    ensures var r := GetAllUsers(db, q.(page := Number(1)), other);
      && r.Success? && r.value.totalPages.Num?
      && FirstPages(Sorted(db, q, other), q.limit.n, r.value.totalPages.value) == Sorted(db, q, other)
      && multiset(Sorted(db, q, other)) == multiset(Matching(db, q.searchQuery))
  {
    var s := Sorted(db, q, other);
    WindowIsPageItems(s, 1, q.limit.n);
    PagesCoverAll(s, q.limit.n);
  }
}
