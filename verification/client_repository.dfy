/** `ClientRepository`: the paged, status-filtered client list and its count. */
module ClientRepository {

  import opened Table
  import opened Wrappers
  import opened StatusQuery
  import opened ClientEntity
  import Arith

  function StatusOf(c: Client): string {
    c.status
  }

  function CreatedAt(c: Client): int {
    c.createdAt
  }

  /** `findByStatusWithPagination`: matching clients, newest first, page `page` of size `limit`. */
  function FindByStatusWithPagination(t: seq<Row<Client>>, status: string, page: nat, limit: nat): (r: seq<Row<Client>>)
    requires page >= 1 && limit >= 1
    ensures |r| <= limit
    ensures forall x :: x in r ==> x in t && (Narrows(Some(status)) ==> x.val.status == status)
    ensures forall i, j :: 0 <= i < j < |r| ==> r[i].val.createdAt >= r[j].val.createdAt
    ensures Offset(page, limit) >= CountByStatus(t, Some(status)) ==> r == []
    ensures Offset(page, limit) < CountByStatus(t, Some(status)) ==>
              |r| == Min(limit, CountByStatus(t, Some(status)) - Offset(page, limit))
  {
    FindPage(t, Some(status), StatusOf, CreatedAt, page, limit)
  }

  /** `countByStatus`: the number of clients the same filter selects. */
  function CountByStatus(t: seq<Row<Client>>, status: Option<string>): (n: nat)
    ensures n == |Selected(t, status, StatusOf)|
    ensures !Narrows(status) ==> n == |t|
  {
    CountMatching(t, status, StatusOf)
  }

  /** Paging loses no client: every client the filter selects is on one of the
      first ceil(count / limit) pages. */
  lemma PagesCoverSelection(t: seq<Row<Client>>, status: string, limit: nat, x: Row<Client>) returns (p: nat)
    requires limit >= 1 && x in t && (Narrows(Some(status)) ==> x.val.status == status)
    ensures 1 <= p <= Arith.CeilDiv(CountByStatus(t, Some(status)), limit)
    ensures x in FindByStatusWithPagination(t, status, p, limit)
  {
    p := PagesCoverSelected(t, Some(status), StatusOf, CreatedAt, limit, x);
  }

  /** Pages of the list follow one another newest first, and with unique ids
      no client is listed on two pages. */
  lemma PagesInOrder(t: seq<Row<Client>>, status: string, p: nat, q: nat, limit: nat)
    requires 1 <= p < q && limit >= 1
    ensures forall x, y :: (x in FindByStatusWithPagination(t, status, p, limit)
                        && y in FindByStatusWithPagination(t, status, q, limit)) ==> x.val.createdAt >= y.val.createdAt
    ensures UniqueIds(t) ==> forall x :: x in FindByStatusWithPagination(t, status, p, limit)
                                     ==> x !in FindByStatusWithPagination(t, status, q, limit)
  {
    StatusQuery.PagesInOrder(t, Some(status), StatusOf, CreatedAt, p, q, limit);
  }
}
