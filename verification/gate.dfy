/**
 * What a FastMCP request middleware's `on_request(context, call_next)` can
 * do, seen from outside: return a result or fail with the tool error
 * "Unauthorized: Invalid or missing API Key". `call_next`'s result is an
 * opaque value, and the calls the middleware makes on its collaborators
 * are recorded as a trace so that "never invoked" can be stated.
 */
module Gate {
  import opened Optional

  datatype Outcome<+R> = Ok(result: R) | Unauthorized

  /** A call the middleware makes on a collaborator. */
  datatype Event = ValidateKeyCalled(apiKey: Option<string>) | CallNextCalled

  /** The outcome of one request together with the calls made while handling it. */
  datatype Handled<+R> = Handled(outcome: Outcome<R>, trace: seq<Event>)

  /** How many times `call_next` appears in a trace. */
  function NextCalls(trace: seq<Event>): nat {
    multiset(trace)[CallNextCalled]
  }
}
