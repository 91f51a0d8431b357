/** What a controller action receives and answers: the decoded JSON body, the
    JSON replies the actions build, and the list actions' query parameters. */
module Http {

  import opened Wrappers
  import opened Validation
  import Arith

  /** The body after `json_decode($request->getContent(), true)`. `Falsy` is every
      body for which `!$data` holds: invalid JSON, `null`, `{}`, `[]`, `false`, `0`,
      `""` and `"0"`. Any other value reaches the action; a truthy JSON scalar
      reaches it with every key absent, since `??` and `isset` see no keys in it. */
  datatype Body<+P> = Falsy | Decoded(payload: P)

  /** A date string of the body as `new \DateTime(...)` reads it: a Unix
      timestamp in seconds, or a string it cannot parse (which throws). */
  datatype DateInput = Parsed(at: int) | Unparsable

  /** The JSON reply of an action: `{status, message?, data?}` on success,
      `{status, error, details?}` on failure. */
  datatype Reply<+T> =
    | Success(status: int, message: Option<string>, data: Option<T>)
    | Failure(status: int, error: string, details: map<string, Kind>)

  function InvalidJson<T>(): Reply<T> {
    Failure(400, "Invalid JSON", map[])
  }

  /** 404 `"<Entity> not found"` for an id that names no row. */
  function NotFound<T>(entity: string): Reply<T> {
    Failure(404, entity + " not found", map[])
  }

  /** 400 `"<Entity> not found"` for a reference in the body that names no row. */
  function UnknownReference<T>(entity: string): Reply<T> {
    Failure(400, entity + " not found", map[])
  }

  /** 400 with the per-property messages of the violations. */
  function ValidationError<T>(vs: seq<Violation>): Reply<T> {
    Failure(400, "Validation error", Details(vs))
  }

  function Done<T>(message: string): Reply<T> {
    Success(200, Some(message), None)
  }

  /** 201 with the stored row (the model returns the whole row where the JSON
      echoes some of its properties). */
  function Created<T>(message: string, row: T): Reply<T> {
    Success(201, Some(message), Some(row))
  }

  function Found<T>(data: T): Reply<T> {
    Success(200, None, Some(data))
  }

  // --- list parameters --------------------------------------------------------

  /** `max(1, page ?? 1)`. */
  function PageParam(q: Option<int>): (page: nat)
    ensures page >= 1
    ensures q.None? ==> page == 1
    ensures q.Some? ==> page == if q.value >= 1 then q.value else 1
  {
    if q.None? then 1 else if q.value >= 1 then q.value else 1
  }

  /** `min(max, max(1, limit ?? 10))`. */
  function LimitParam(q: Option<int>, max: nat): (limit: nat)
    requires 10 <= max
    ensures 1 <= limit <= max
    ensures q.None? ==> limit == 10
    ensures q.Some? && 1 <= q.value <= max ==> limit == q.value
    ensures q.Some? && q.value > max ==> limit == max
    ensures q.Some? && q.value < 1 ==> limit == 1
  {
    Arith.Clamp(1, max, q.GetOr(10))
  }

  /** The query parameters of a list action after PHP's `(int)` cast: missing
      parameters are None. */
  datatype ListQuery = ListQuery(page: Option<int>, limit: Option<int>, status: Option<string>)

  /** The `pagination` block of a list reply. */
  datatype Pagination = Pagination(page: nat, limit: nat, total: nat, pages: nat)

  /** `ceil($total / $limit)`. */
  function Paginate(page: nat, limit: nat, total: nat): (p: Pagination)
    requires limit >= 1
    ensures p.page == page && p.limit == limit && p.total == total
    ensures (p.pages - 1) * limit < total <= p.pages * limit || (total == 0 && p.pages == 0)
  {
    Pagination(page, limit, total, Arith.CeilDiv(total, limit))
  }

  /** The `data` and `pagination` of a paged list reply. */
  datatype Listing<+T> = Listing(items: seq<T>, pagination: Pagination)
}
