/**
 * The study-set records the dashboard receives, and the one decision the list
 * query's fetch function makes on its own: a failed request is logged and the
 * function resolves to `undefined` instead of failing.
 */
module StudySetsApi {

  datatype Option<T> = None | Some(value: T)

  /**
   * One element of the list the server returns. The response is untyped, so a
   * title may be missing (`undefined` or `null`) as well as empty.
   */
  datatype StudySet = StudySet(id: int, title: Option<string>)

  /** What the GET request for the collection yields: a body, or an error. */
  datatype FetchOutcome = Received(body: seq<StudySet>) | RequestFailed

  /**
   * The value the query's fetch function resolves to: the response body on
   * success, nothing at all once the error has been caught and logged.
   */
  function QueryFnResult(outcome: FetchOutcome): (data: Option<seq<StudySet>>)
    ensures data.None? <==> outcome.RequestFailed?
    ensures outcome.Received? ==> data.value == outcome.body
  {
    match outcome
    case Received(body) => Some(body)
    case RequestFailed => None
  }
}
