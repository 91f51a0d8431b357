/** The query both the client and the quote repositories build: an optional
    status filter, newest first, one page at a time, and the matching count. */
module StatusQuery {

  import opened Wrappers
  import opened Table
  import Arith
  import Query

  /** PHP truthiness of a nullable string: null, "" and "0" are falsy. */
  predicate Truthy(s: Option<string>) {
    s.Some? && s.value != "" && s.value != "0"
  }

  /** `$status && $status !== 'all'`: whether the status narrows the query. */
  predicate Narrows(status: Option<string>) {
    Truthy(status) && status.value != "all"
  }

  predicate Matches(status: Option<string>, s: string) {
    Narrows(status) ==> s == status.value
  }

  function ValueTest<T>(status: Option<string>, statusOf: T -> string): T -> bool {
    (v: T) => Matches(status, statusOf(v))
  }

  function RowTest<T>(status: Option<string>, statusOf: T -> string): Row<T> -> bool {
    (x: Row<T>) => Matches(status, statusOf(x.val))
  }

  /** The rows the WHERE clause selects, in table order. */
  function Selected<T(!new)>(t: seq<Row<T>>, status: Option<string>, statusOf: T -> string): (r: seq<Row<T>>)
    ensures forall x :: x in r <==> x in t && Matches(status, statusOf(x.val))
    ensures !Narrows(status) ==> r == t
  {
    Keep(t, ValueTest(status, statusOf))
  }

  /** The sort key of `ORDER BY createdAt DESC`. */
  function NewestFirst<T>(createdAt: T -> int): Row<T> -> int {
    (x: Row<T>) => createdAt(x.val)
  }

  /** One page of the selection, newest first. */
  function FindPage<T(!new, ==)>(t: seq<Row<T>>, status: Option<string>, statusOf: T -> string, createdAt: T -> int,
                                 page: nat, limit: nat): (r: seq<Row<T>>)
    requires page >= 1 && limit >= 1
    ensures |r| <= limit
    ensures forall x :: x in r ==> x in t && Matches(status, statusOf(x.val))
    ensures forall i, j :: 0 <= i < j < |r| ==> createdAt(r[i].val) >= createdAt(r[j].val)
    ensures Offset(page, limit) >= |Selected(t, status, statusOf)| ==> r == []
    ensures Offset(page, limit) < |Selected(t, status, statusOf)| ==>
              |r| == Min(limit, |Selected(t, status, statusOf)| - Offset(page, limit))
  {
    var r := Query.FindPage(t, ValueTest(status, statusOf), NewestFirst(createdAt), page, limit);
    assert SortedDesc(r, NewestFirst(createdAt));
    r
  }

  /** An earlier page holds rows no older than a later page's, and in a table
      with unique ids no row is on two pages. */
  lemma PagesInOrder<T(!new)>(t: seq<Row<T>>, status: Option<string>, statusOf: T -> string, createdAt: T -> int,
                              p: nat, q: nat, limit: nat)
    requires 1 <= p < q && limit >= 1
    ensures forall x, y :: (x in FindPage(t, status, statusOf, createdAt, p, limit)
                        && y in FindPage(t, status, statusOf, createdAt, q, limit)) ==> createdAt(x.val) >= createdAt(y.val)
    ensures UniqueIds(t) ==> forall x :: x in FindPage(t, status, statusOf, createdAt, p, limit)
                                     ==> x !in FindPage(t, status, statusOf, createdAt, q, limit)
  {
    Query.PagesInOrder(t, ValueTest(status, statusOf), NewestFirst(createdAt), p, q, limit);
  }

  /** Paging loses no row: every selected row lies on one of the first
      ceil(count / limit) pages. */
  lemma PagesCoverSelected<T(!new)>(t: seq<Row<T>>, status: Option<string>, statusOf: T -> string,
                                   createdAt: T -> int, limit: nat, x: Row<T>) returns (p: nat)
    requires limit >= 1 && x in t && Matches(status, statusOf(x.val))
    ensures 1 <= p <= Arith.CeilDiv(|Selected(t, status, statusOf)|, limit)
    ensures x in FindPage(t, status, statusOf, createdAt, p, limit)
  {
    p := Query.PagesCoverKept(t, ValueTest(status, statusOf), NewestFirst(createdAt), limit, x);
  }

  /** `COUNT(id)` under the same WHERE clause. */
  function CountMatching<T(!new)>(t: seq<Row<T>>, status: Option<string>, statusOf: T -> string): (n: nat)
    ensures n == |Selected(t, status, statusOf)|
  {
    CountIsFilterSize(t, RowTest(status, statusOf));
    KeepIsFilter(t, ValueTest(status, statusOf), RowTest(status, statusOf));
    Count(t, RowTest(status, statusOf))
  }

  lemma {:induction false} KeepIsFilter<T(!new)>(t: seq<Row<T>>, p: T -> bool, q: Row<T> -> bool)
    requires forall x :: q(x) == p(x.val)
    ensures Keep(t, p) == Filter(t, q)
  {
    if |t| > 0 {
      KeepIsFilter(t[1..], p, q);
    }
  }
}
