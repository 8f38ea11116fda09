/** Reading a table: its rows in natural (id) order, filtering, and the
    first row that matches (what `findOne` returns). */
module Tables {
  import opened Wrappers

  /** The keys of `m` below `n`, in increasing order. */
  function OrderedKeys<T>(m: map<nat, T>, n: nat): (ks: seq<nat>)
    ensures forall i :: 0 <= i < |ks| ==> ks[i] in m && ks[i] < n
    ensures forall i, j :: 0 <= i < j < |ks| ==> ks[i] < ks[j]
    ensures forall k :: k in m && k < n ==> k in ks
    decreases n
  {
    if n == 0 then [] else OrderedKeys(m, n - 1) + (if n - 1 in m then [n - 1] else [])
  }

  function Rows<T>(m: map<nat, T>, ks: seq<nat>): (rows: seq<T>)
    requires forall k :: k in ks ==> k in m
    ensures |rows| == |ks|
    ensures forall i :: 0 <= i < |ks| ==> rows[i] == m[ks[i]]
  {
    seq(|ks|, i requires 0 <= i < |ks| => m[ks[i]])
  }

  /** Every row whose key is below `n`, in key order: a collection's natural
      order, since keys are handed out in increasing order. */
  function InKeyOrder<T(!new)>(m: map<nat, T>, n: nat): (rows: seq<T>)
    ensures forall k :: k in m && k < n ==> m[k] in rows
    ensures forall x :: x in rows ==> exists k :: k in m && m[k] == x
  {
    var ks := OrderedKeys(m, n);
    var rows := Rows(m, ks);
    assert forall k :: k in m && k < n ==> m[k] in rows by {
      forall k | k in m && k < n ensures m[k] in rows {
        var i :| 0 <= i < |ks| && ks[i] == k;
        assert rows[i] == m[k];
      }
    }
    rows
  }

  /** The rows of `s` that satisfy `p`, in their original order. */
  function Filter<T(!new)>(s: seq<T>, p: T -> bool): (r: seq<T>)
    ensures |r| <= |s|
    ensures forall x :: x in r <==> x in s && p(x)
    ensures multiset(r) <= multiset(s)
  {
    if s == [] then []
    else
      var rest := Filter(s[1..], p);
      assert s == [s[0]] + s[1..];
      if p(s[0]) then [s[0]] + rest else rest
  }

  /** Filtering with a condition every row meets keeps everything. */
  lemma {:induction false} FilterAll<T(!new)>(s: seq<T>, p: T -> bool)
    requires forall i :: 0 <= i < |s| ==> p(s[i])
    ensures Filter(s, p) == s
  {
    if s != [] {
      FilterAll(s[1..], p);
      assert [s[0]] + s[1..] == s;
    }
  }

  /** The position of the first row satisfying `p`: `findOne` in natural order. */
  function FirstIndex<T>(s: seq<T>, p: T -> bool): (r: Option<nat>)
    ensures r.Some? ==> r.value < |s| && p(s[r.value])
    ensures r.Some? ==> forall j :: 0 <= j < r.value ==> !p(s[j])
    ensures r.None? <==> forall j :: 0 <= j < |s| ==> !p(s[j])
  {
    if s == [] then None
    else if p(s[0]) then Some(0)
    else
      match FirstIndex(s[1..], p)
      case None => None
      case Some(i) => Some(i + 1)
  }

  /** The first row satisfying `p`, or None. */
  function FindFirst<T>(s: seq<T>, p: T -> bool): (r: Option<T>)
    ensures r.Some? <==> exists i :: 0 <= i < |s| && p(s[i])
    ensures r.Some? ==> r.value in s && p(r.value)
  {
    match FirstIndex(s, p)
    case None => None
    case Some(i) => Some(s[i])
  }
}
