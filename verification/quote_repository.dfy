/** `QuoteRepository`: the paged, status-filtered quote list and its count. */
module QuoteRepository {

  import opened Table
  import opened Wrappers
  import opened StatusQuery
  import opened QuoteEntity
  import Arith

  function StatusOf(q: Quote): string {
    q.status
  }

  function CreatedAt(q: Quote): int {
    q.createdAt
  }

  /** `findByStatusWithPagination`: matching quotes, newest first, page `page` of size `limit`. */
  function FindByStatusWithPagination(t: seq<Row<Quote>>, status: string, page: nat, limit: nat): (r: seq<Row<Quote>>)
    requires page >= 1 && limit >= 1
    ensures |r| <= limit
    ensures forall x :: x in r ==> x in t && (Narrows(Some(status)) ==> x.val.status == status)
    ensures forall i, j :: 0 <= i < j < |r| ==> r[i].val.createdAt >= r[j].val.createdAt
    ensures Offset(page, limit) >= CountByStatus(t, Some(status)) ==> r == []
    ensures Offset(page, limit) < CountByStatus(t, Some(status)) ==>
              |r| == Min(limit, CountByStatus(t, Some(status)) - Offset(page, limit))
  {
    FindPage(t, Some(status), StatusOf, CreatedAt, page, limit)
  }

  /** `countByStatus`: the number of quotes the same filter selects. */
  function CountByStatus(t: seq<Row<Quote>>, status: Option<string>): (n: nat)
    ensures n == |Selected(t, status, StatusOf)|
    ensures !Narrows(status) ==> n == |t|
  {
    CountMatching(t, status, StatusOf)
  }

  /** Paging loses no quote: every quote the filter selects is on one of the
      first ceil(count / limit) pages. */
  lemma PagesCoverSelection(t: seq<Row<Quote>>, status: string, limit: nat, x: Row<Quote>) returns (p: nat)
    requires limit >= 1 && x in t && (Narrows(Some(status)) ==> x.val.status == status)
    ensures 1 <= p <= Arith.CeilDiv(CountByStatus(t, Some(status)), limit)
    ensures x in FindByStatusWithPagination(t, status, p, limit)
  {
    p := PagesCoverSelected(t, Some(status), StatusOf, CreatedAt, limit, x);
  }

  /** Pages of the list follow one another newest first, and with unique ids
      no quote is listed on two pages. */
  lemma PagesInOrder(t: seq<Row<Quote>>, status: string, p: nat, q: nat, limit: nat)
    requires 1 <= p < q && limit >= 1
    ensures forall x, y :: (x in FindByStatusWithPagination(t, status, p, limit)
                        && y in FindByStatusWithPagination(t, status, q, limit)) ==> x.val.createdAt >= y.val.createdAt
    ensures UniqueIds(t) ==> forall x :: x in FindByStatusWithPagination(t, status, p, limit)
                                     ==> x !in FindByStatusWithPagination(t, status, q, limit)
  {
    StatusQuery.PagesInOrder(t, Some(status), StatusOf, CreatedAt, p, q, limit);
  }
}
