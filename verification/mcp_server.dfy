/**
 * The server as a whole, without its framework: the key store is
 * initialised once, and every call of the `greet` tool passes through the
 * API-key middleware first.
 */
module McpServer {
  import opened Optional
  import opened Headers
  import opened DatabaseManager
  import opened Gate
  import ApiKeyMiddleware
  import opened Greeting

  /** A `greet` call as the server handles it: the middleware, then the tool. */
  function CallGreet(store: KeyStore, headers: seq<Field>, name: string): (h: Handled<string>)
    ensures h.outcome.Ok? ==> NameOfGreeting(h.outcome.result) == Some(name)
    ensures h.outcome.Ok? <==> ValidateKey(store, ApiKeyMiddleware.ApiKeyOf(headers))
  {
    GreetRoundTrip(name);
    ApiKeyMiddleware.ValidatesIffLastCredentialStored(store, headers);
    ApiKeyMiddleware.OnRequest(store, headers, Greet(name))
  }

  /**
   * From a fresh store: the generated key, sent as `X-API-Key`, gets the
   * greeting back after one `validate_key` and one `call_next`; any other
   * key is refused after `validate_key` alone.
   */
  lemma {:induction false} EndToEnd(generated: string, other: string, name: string)
    requires other != generated
    ensures CallGreet(InitDb(Empty, generated), [Field("X-API-Key", generated)], name)
            == Handled(Ok(Greet(name)), [ValidateKeyCalled(Some(generated)), CallNextCalled])
    ensures CallGreet(InitDb(Empty, generated), [Field("X-API-Key", other)], name)
            == Handled(Unauthorized, [ValidateKeyCalled(Some(other))])
  {
    ApiKeyMiddleware.CredentialSpellings(generated);
    ApiKeyMiddleware.CredentialSpellings(other);
  }
}
