/** The read side's paging: `Math.ceil(total / limit)`, `.sort`, and
    `.skip((page - 1) * limit).limit(limit)` on a query cursor. */
module Pagination {
  import opened Wrappers

  /** A JavaScript number as far as a page count needs one: dividing by a
      zero limit yields Infinity (or NaN for 0 / 0). */
  datatype JsNumber = Num(value: int) | Infinity | NaN

  /** The listing shape returned by the query repositories (ItemsListViewModel). */
  datatype Page<T> = Page(totalItems: nat, totalPages: JsNumber, currentPage: int, items: seq<T>)

  /** A numeric query parameter as a handler receives it. */
  datatype NumArg = Missing | NotANumber | Number(n: int)

  /** `x || d`: the default replaces a missing, NaN or zero argument and
      every other value passes through. */
  function OrFalsy(x: NumArg, d: int): (r: int)
    ensures (x.Missing? || x.NotANumber? || x == Number(0)) ==> r == d
    ensures x.Number? && x.n != 0 ==> r == x.n
  {
    if x.Number? && x.n != 0 then x.n else d
  }

  /** `sortOrder === "desc" ? -1 : 1`. */
  predicate Descending(sortOrder: string) {
    sortOrder == "desc"
  }

  /** `sortField || "createdAt"`: the creation time for an empty or the
      default field name, otherwise the named field's order, which the caller
      supplies as an integer rank. */
  function SortKey<T>(field: string, createdAt: T -> int, other: string -> (T -> int)): (key: T -> int)
    ensures field == "" || field == "createdAt" ==> key == createdAt
  {
    if field == "" || field == "createdAt" then createdAt else other(field)
  }

  /** The cursor rejects a negative `skip` with a server error. */
  datatype QueryError = NegativeSkip

  function Abs(x: int): nat {
    if x < 0 then -x else x
  }

  /** `Math.ceil(total / limit)`. */
  function CeilDiv(total: nat, limit: int): (r: JsNumber)
  {
    if limit == 0 then (if total == 0 then NaN else Infinity)
    else if limit > 0 then Num((total + limit - 1) / limit)
    else Num(-(total / -limit))
  }

  /** For a positive limit the page count is the least n with n * limit >= total. */
  lemma CeilDivBounds(total: nat, limit: int)
    requires limit > 0
    ensures CeilDiv(total, limit).Num?
    ensures var n := CeilDiv(total, limit).value;
      n >= 0 && total <= n * limit && (n == 0 || (n - 1) * limit < total)
  {
    var n := (total + limit - 1) / limit;
    var r := (total + limit - 1) % limit;
    assert total + limit - 1 == n * limit + r;
    assert (n - 1) * limit == n * limit - limit;
  }

  // ---------------------------------------------------------------------------
  // Sorting
  // ---------------------------------------------------------------------------

  /** Sort order 1 (ascending) or -1 (descending) between two keys. */
  predicate Precedes(a: int, b: int, descending: bool) {
    if descending then a >= b else a <= b
  }

  ghost predicate SortedBy<T>(s: seq<T>, key: T -> int, descending: bool) {
    forall i, j :: 0 <= i < j < |s| ==> Precedes(key(s[i]), key(s[j]), descending)
  }

  function Insert<T>(x: T, s: seq<T>, key: T -> int, descending: bool): (r: seq<T>)
    ensures multiset(r) == multiset(s) + multiset{x}
  {
    if s == [] then [x]
    else if Precedes(key(x), key(s[0]), descending) then [x] + s
    else
      assert s == [s[0]] + s[1..];
      [s[0]] + Insert(x, s[1..], key, descending)
  }

  lemma {:induction false} InsertSorted<T>(x: T, s: seq<T>, key: T -> int, descending: bool)
    requires SortedBy(s, key, descending)
    ensures SortedBy(Insert(x, s, key, descending), key, descending)
  {
    if s == [] {
    } else if Precedes(key(x), key(s[0]), descending) {
      var r := [x] + s;
      forall i, j | 0 <= i < j < |r| ensures Precedes(key(r[i]), key(r[j]), descending) {
        if i == 0 && j > 1 {
          assert Precedes(key(s[0]), key(s[j - 1]), descending);
        }
      }
    } else {
      var rest := Insert(x, s[1..], key, descending);
      InsertSorted(x, s[1..], key, descending);
      var r := [s[0]] + rest;
      forall i, j | 0 <= i < j < |r| ensures Precedes(key(r[i]), key(r[j]), descending) {
        if i == 0 {
          var y := rest[j - 1];
          assert y in multiset(rest);
          if y != x {
            assert y in multiset(s[1..]);
            var k :| 0 <= k < |s[1..]| && s[1..][k] == y;
            assert s[k + 1] == y;
          }
        } else {
          assert r[i] == rest[i - 1] && r[j] == rest[j - 1];
        }
      }
      assert Insert(x, s, key, descending) == r;
    }
  }

  /** `.sort({ [field]: order })`: the rows reordered by `key`. */
  function SortBy<T>(s: seq<T>, key: T -> int, descending: bool): (r: seq<T>)
    ensures multiset(r) == multiset(s)
  {
    if s == [] then []
    else
      assert s == [s[0]] + s[1..];
      Insert(s[0], SortBy(s[1..], key, descending), key, descending)
  }

  /** The sorted rows are in `key` order: ascending, or descending for "desc". */
  lemma {:induction false} SortBySorted<T>(s: seq<T>, key: T -> int, descending: bool)
    ensures SortedBy(SortBy(s, key, descending), key, descending)
  {
    if s != [] {
      SortBySorted(s[1..], key, descending);
      InsertSorted(s[0], SortBy(s[1..], key, descending), key, descending);
    }
  }

  // ---------------------------------------------------------------------------
  // skip / limit
  // ---------------------------------------------------------------------------

  function Skip<T>(s: seq<T>, n: nat): (r: seq<T>)
    ensures |r| == if n >= |s| then 0 else |s| - n
  {
    if n >= |s| then [] else s[n..]
  }

  /** `.limit(limit)`: 0 means no limit, a negative limit returns at most
      |limit| rows in a single batch. */
  function Limit<T>(s: seq<T>, limit: int): (r: seq<T>)
    ensures limit != 0 ==> |r| <= Abs(limit)
    ensures r <= s
  {
    if limit == 0 || Abs(limit) >= |s| then s else s[..Abs(limit)]
  }

  /** `.skip((page - 1) * limit).limit(limit)`. */
  function PageItems<T>(s: seq<T>, page: int, limit: int): (r: Result<seq<T>, QueryError>)
    ensures r.Failure? <==> (page - 1) * limit < 0
  {
    var skip := (page - 1) * limit;
    if skip < 0 then Failure(NegativeSkip) else Success(Limit(Skip(s, skip), limit))
  }

  /** Page `page` (from 1) of `s` under a positive limit. */
  function Window<T>(s: seq<T>, page: nat, limit: nat): (r: seq<T>)
    requires page >= 1 && limit > 0
  {
    Limit(Skip(s, (page - 1) * limit), limit)
  }

  lemma WindowIsPageItems<T>(s: seq<T>, page: nat, limit: nat)
    requires page >= 1 && limit > 0
    ensures PageItems(s, page, limit) == Success(Window(s, page, limit))
  {
  }

  /** A window holds only rows of the listing. */
  lemma WindowWithin<T>(s: seq<T>, page: nat, limit: nat)
    requires page >= 1 && limit > 0
    ensures forall x :: x in Window(s, page, limit) ==> x in s
  {
    var w := Window(s, page, limit);
    forall x | x in w ensures x in s {
      var i :| 0 <= i < |w| && w[i] == x;
      assert w[i] == s[(page - 1) * limit + i];
    }
  }

  /** Row i of page `page` is row (page - 1) * limit + i of the listing. */
  lemma WindowIndex<T>(s: seq<T>, page: nat, limit: nat)
    requires page >= 1 && limit > 0
    ensures (page - 1) * limit + |Window(s, page, limit)| <= |s| || Window(s, page, limit) == []
    ensures forall i :: 0 <= i < |Window(s, page, limit)| ==>
      (page - 1) * limit + i < |s| && Window(s, page, limit)[i] == s[(page - 1) * limit + i]
  {
  }

  /** A window of a sorted listing is sorted. */
  lemma WindowSorted<T>(s: seq<T>, page: nat, limit: nat, key: T -> int, descending: bool)
    requires page >= 1 && limit > 0 && SortedBy(s, key, descending)
    ensures SortedBy(Window(s, page, limit), key, descending)
  {
    var w := Window(s, page, limit);
    var skip := (page - 1) * limit;
    WindowIndex(s, page, limit);
    forall i, j | 0 <= i < j < |w| ensures Precedes(key(w[i]), key(w[j]), descending) {
      assert w[i] == s[skip + i] && w[j] == s[skip + j];
    }
  }

  /** Pages 1 to n laid end to end. */
  function FirstPages<T>(s: seq<T>, limit: nat, n: nat): seq<T>
    requires limit > 0
  {
    if n == 0 then [] else FirstPages(s, limit, n - 1) + Window(s, n, limit)
  }

  function Min(a: int, b: int): int {
    if a <= b then a else b
  }

  lemma MulStep(n: nat, limit: nat)
    requires n > 0
    ensures (n - 1) * limit + limit == n * limit
  {
  }

  lemma {:induction false} FirstPagesPrefix<T>(s: seq<T>, limit: nat, n: nat)
    requires limit > 0
    ensures FirstPages(s, limit, n) == s[..Min(n * limit, |s|)]
  {
    if n > 0 {
      FirstPagesPrefix(s, limit, n - 1);
      var lo := (n - 1) * limit;
      MulStep(n, limit);
      var w := Window(s, n, limit);
      assert FirstPages(s, limit, n) == s[..Min(lo, |s|)] + w;
      if lo >= |s| {
        assert w == [];
      } else if lo + limit >= |s| {
        assert w == s[lo..];
        assert s[..lo] + s[lo..] == s;
      } else {
        assert w == s[lo..lo + limit];
        assert s[..lo] + s[lo..lo + limit] == s[..lo + limit];
      }
    }
  }

  /** The pages 1 .. ceil(|s| / limit) together are exactly `s`: every row is
      on one page and no page repeats a row. */
  lemma PagesCoverAll<T>(s: seq<T>, limit: nat)
    requires limit > 0
    ensures CeilDiv(|s|, limit).Num?
    ensures FirstPages(s, limit, CeilDiv(|s|, limit).value) == s
  {
    CeilDivBounds(|s|, limit);
    FirstPagesPrefix(s, limit, CeilDiv(|s|, limit).value);
  }

  /** A page past the last one is empty. */
  lemma PastLastPageEmpty<T>(s: seq<T>, limit: nat, page: nat)
    requires limit > 0
    requires CeilDiv(|s|, limit).Num? && page > CeilDiv(|s|, limit).value
    ensures Window(s, page, limit) == []
  {
    CeilDivBounds(|s|, limit);
    var n := CeilDiv(|s|, limit).value;
    assert (page - 1) * limit >= n * limit;
  }
}
