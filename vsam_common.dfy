/**
 * The error handling the three VSAM wrappers share: each catch block reports
 * some conditions before rethrowing every condition it catches as a
 * RuntimeException, and a browse ends normally on NOTFND or ENDFILE.
 */
module VsamCommon {
  import opened Cics
  import opened JcicsFile

  /** The request whose catch block handles a condition. */
  datatype Request =
    | AddRequest
    | UpdateRequest
    | ReadRequest
    | BrowseRequest
    | LockForDeleteRequest // the READ UPDATE that deleteRecord issues first
    | DeleteRequest
    | EmptyFileRequest

  /** The operations a handler names when it reports INVREQ with RESP2 20. */
  function OperationsOf(request: Request): Operations {
    match request
    case AddRequest => Add
    case UpdateRequest => ReadOrUpdate
    case ReadRequest => Read
    case BrowseRequest => Browse
    case LockForDeleteRequest => ReadOrUpdate
    case DeleteRequest => Delete
    case EmptyFileRequest => ReadUpdateOrDelete
  }

  /** What the handler of `request` prints about condition `c` before rethrowing it. */
  function ReportFor(request: Request, c: Condition): (report: Report)
    ensures report.NotPermitted? <==> c == InvalidRequest(RESP2_NOT_PERMITTED)
    ensures report.NotPermitted? ==> report.operations == OperationsOf(request)
    ensures report == DuplicateReported <==> c == DuplicateRecord && request == AddRequest
    ensures report == NotFoundReported <==>
              c == RecordNotFound && request in {UpdateRequest, ReadRequest, LockForDeleteRequest}
  {
    match c
    case InvalidRequest(resp2) =>
      if resp2 == RESP2_NOT_PERMITTED then NotPermitted(OperationsOf(request)) else Unreported
    case DuplicateRecord =>
      if request == AddRequest then DuplicateReported else Unreported
    case RecordNotFound =>
      if request in {UpdateRequest, ReadRequest, LockForDeleteRequest} then NotFoundReported else Unreported
    case _ => Unreported
  }

  /** The RuntimeException the handler of `request` throws for condition `c`. */
  function Rethrow(request: Request, c: Condition): Failure {
    RuntimeFailure(c, ReportFor(request, c))
  }

  /** A call's outcome as the wrapper passes it on: its value, or the handler's exception. */
  function Lift<T>(request: Request, r: Result<T, Condition>): Result<T, Failure> {
    match r
    case Ok(v) => Ok(v)
    case Err(c) => Err(Rethrow(request, c))
  }

  /** The wrapper's outcome after a last call that raised `c`, or nothing, ready to return `v`. */
  function Conclude<T>(request: Request, c: Option<Condition>, v: T): Result<T, Failure> {
    if c.Some? then Err(Rethrow(request, c.value)) else Ok(v)
  }

  /** How a browse loop ends when a call raises `c`: NOTFND and ENDFILE end it with what was collected. */
  function BrowseStop<T>(c: Condition, collected: seq<T>): Result<seq<T>, Failure> {
    if c == RecordNotFound || c == EndOfFile then Ok(collected) else Err(Rethrow(BrowseRequest, c))
  }

  /**
   * What a loop of at most `count` next() calls collects from a browse that
   * meets `scan`: the first `count` records, or, when the browse ends sooner,
   * what BrowseStop makes of its ending condition.
   */
  function Collect<T>(scan: Scan<T>, count: nat): Result<seq<T>, Failure> {
    if count <= |scan.delivered| then Ok(scan.delivered[..count]) else BrowseStop(scan.ending, scan.delivered)
  }

  /**
   * The loop of every wrapper's browse: up to `count` calls of next() on the
   * cursor, collecting the records, ended early by NOTFND or ENDFILE and cut
   * short by any other condition.
   */
  method BrowseLoop<R>(cursor: FileBrowse<R>, count: nat) returns (r: Result<seq<R>, Failure>)
    modifies cursor
    ensures r == Collect(Scan(old(cursor.remaining), cursor.ending), count)
  {
    var list: seq<R> := [];
    ghost var visited := cursor.remaining;
    var i := 0;
    while i < count
      invariant 0 <= i <= count && i <= |visited|
      invariant list == visited[..i] && cursor.remaining == visited[i..]
    {
      var next := cursor.Next();
      if next.Err? {
        assert list == visited;
        return BrowseStop(next.error, list);
      }
      list := list + [next.value];
      i := i + 1;
    }
    r := Ok(list);
  }

  /**
   * What browse(start, count) returns, given the condition startBrowse raises
   * before reading (`refusal`) and what a browse from `start` meets.
   */
  function BrowseOutcome<T>(refusal: Option<Condition>, scan: Scan<T>, count: int): Result<seq<T>, Failure> {
    if count < 0 then Err(IllegalArgument(count))
    else if refusal.Some? then BrowseStop(refusal.value, [])
    else Collect(scan, count)
  }

  /**
   * A browse returns at most `count` records, in the order met, with none
   * skipped; it returns all of them when there are at most `count` and the
   * browse ends normally, and it fails exactly for a negative count, or when
   * startBrowse, or a next() call the loop makes, raises a condition other than
   * NOTFND and ENDFILE; the records collected before such a failure are lost.
   */
  lemma BrowseOutcomeSpec<T>(refusal: Option<Condition>, scan: Scan<T>, count: int)
    ensures var r := BrowseOutcome(refusal, scan, count);
      && (r.Ok? ==> |r.value| <= count && r.value == scan.delivered[..|r.value|])
      && (r.Ok? && refusal.None? && |scan.delivered| <= count ==> r.value == scan.delivered)
      && (r.Err? <==>
            || count < 0
            || (refusal.Some? && refusal.value !in {RecordNotFound, EndOfFile})
            || (refusal.None? && count > |scan.delivered| && scan.ending !in {RecordNotFound, EndOfFile}))
      && (r.Err? && count >= 0 ==>
            r.error == Rethrow(BrowseRequest, if refusal.Some? then refusal.value else scan.ending))
  {
  }
}
