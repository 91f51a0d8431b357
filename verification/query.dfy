/** The shape every list query of the repositories has: a WHERE clause, an
    ORDER BY on one key, and `setFirstResult(($page - 1) * $limit)->setMaxResults($limit)`. */
module Query {

  import opened Table
  import Arith

  /** The rows the WHERE clause selects, ORDER BY key DESC. */
  function Ordered<T(!new, ==)>(t: seq<Row<T>>, where: T -> bool, key: Row<T> -> int): (r: seq<Row<T>>)
    ensures multiset(r) == multiset(Keep(t, where))
    ensures |r| == |Keep(t, where)|
    ensures SortedDesc(r, key)
  {
    SortDesc(Keep(t, where), key)
  }

  /** When no two selected rows that differ share a key, every arrangement
      a database may return for ORDER BY key DESC is this one; the paging
      lemmas below then hold whatever tie order the database uses. */
  lemma OrderForced<T(!new)>(t: seq<Row<T>>, where: T -> bool, key: Row<T> -> int, r: seq<Row<T>>)
    requires multiset(r) == multiset(Keep(t, where)) && SortedDesc(r, key)
    requires forall x, y :: x in Keep(t, where) && y in Keep(t, where) && key(x) == key(y) ==> x == y
    ensures r == Ordered(t, where, key)
  {
    var all := Ordered(t, where, key);
    forall x, y | x in all && y in all && key(x) == key(y)
      ensures x == y
    {
      assert x in multiset(Keep(t, where)) && y in multiset(Keep(t, where));
    }
    SortedUnique(all, r, key);
  }

  /** One page of the ordered selection. */
  function FindPage<T(!new, ==)>(t: seq<Row<T>>, where: T -> bool, key: Row<T> -> int, page: nat, limit: nat): (r: seq<Row<T>>)
    requires page >= 1 && limit >= 1
    ensures |r| <= limit
    ensures forall x :: x in r ==> x in t && where(x.val)
    ensures SortedDesc(r, key)
    ensures Offset(page, limit) >= |Keep(t, where)| ==> r == []
    ensures Offset(page, limit) < |Keep(t, where)| ==> |r| == Min(limit, |Keep(t, where)| - Offset(page, limit))
    ensures forall k :: 0 <= k < |r| ==> r[k] == Ordered(t, where, key)[Offset(page, limit) + k]
  {
    PageMembers(t, where, key, page, limit);
    PageSorted(Ordered(t, where, key), key, page, limit);
    Page(Ordered(t, where, key), page, limit)
  }

  lemma PageMembers<T(!new)>(t: seq<Row<T>>, where: T -> bool, key: Row<T> -> int, page: nat, limit: nat)
    requires page >= 1 && limit >= 1
    ensures forall x :: x in Page(Ordered(t, where, key), page, limit) ==> x in t && where(x.val)
  {
    var all := Ordered(t, where, key);
    var sel := Keep(t, where);
    var r := Page(all, page, limit);
    var o := Offset(page, limit);
    assert forall k :: 0 <= k < |r| ==> o + k < |all| && r[k] == all[o + k];
    assert multiset(all) == multiset(sel);
    forall x | x in r
      ensures x in t && where(x.val)
    {
      InReordering(x, r, all, sel, o);
    }
  }

  /** A row of a page of a reordering of `sel` is a row of `sel`. */
  lemma InReordering<T>(x: T, r: seq<T>, all: seq<T>, sel: seq<T>, o: nat)
    requires x in r && multiset(all) == multiset(sel)
    requires forall k :: 0 <= k < |r| ==> o + k < |all| && r[k] == all[o + k]
    ensures x in sel
  {
    var k :| 0 <= k < |r| && r[k] == x;
    assert all[o + k] in multiset(all);
  }

  /** A position of x in a reordering of a sequence that holds it. */
  lemma PositionIn<T>(x: T, all: seq<T>, sel: seq<T>) returns (i: nat)
    requires x in sel && multiset(all) == multiset(sel)
    ensures i < |all| && all[i] == x
  {
    assert x in multiset(sel);
    i :| 0 <= i < |all| && all[i] == x;
  }

  /** Pages follow one another in key order: every row of an earlier page
      ranks at least as high as every row of a later one, and in a table with
      unique ids no row is on two pages. */
  lemma PagesInOrder<T(!new)>(t: seq<Row<T>>, where: T -> bool, key: Row<T> -> int, p: nat, q: nat, limit: nat)
    requires 1 <= p < q && limit >= 1
    ensures forall x, y :: (x in FindPage(t, where, key, p, limit) && y in FindPage(t, where, key, q, limit)) ==>
              key(x) >= key(y)
    ensures UniqueIds(t) ==>
              forall x :: x in FindPage(t, where, key, p, limit) ==> x !in FindPage(t, where, key, q, limit)
  {
    var all := Ordered(t, where, key);
    assert FindPage(t, where, key, p, limit) == Page(all, p, limit);
    assert FindPage(t, where, key, q, limit) == Page(all, q, limit);
    PagesSortedApart(all, key, p, q, limit);
    if UniqueIds(t) {
      ReorderUnique(all, Keep(t, where));
      PagesDisjoint(all, p, q, limit);
    }
  }

  /** Paging loses no row: every selected row lies on one of the first
      ceil(count / limit) pages. */
  lemma PagesCoverKept<T(!new)>(t: seq<Row<T>>, where: T -> bool, key: Row<T> -> int, limit: nat, x: Row<T>)
    returns (p: nat)
    requires limit >= 1 && x in t && where(x.val)
    ensures 1 <= p <= Arith.CeilDiv(|Keep(t, where)|, limit)
    ensures x in FindPage(t, where, key, p, limit)
  {
    var all := Ordered(t, where, key);
    var i := PositionIn(x, all, Keep(t, where));
    PagesCover(all, limit, i);
    p := i / limit + 1;
    assert FindPage(t, where, key, p, limit) == Page(all, p, limit);
  }
}
