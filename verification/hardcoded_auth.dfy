/**
 * The stand-alone middleware snippet: the credential header is looked up
 * by its exact spelling `X-API-Key` and compared with one fixed secret
 * instead of a key store.
 */
module HardcodedAuth {
  import opened Optional
  import opened Headers
  import opened Gate
  import DatabaseManager
  import ApiKeyMiddleware

  const SecretApiKey := "your-secret-api-key"

  /** The header name, matched case-sensitively. */
  const HeaderName := "X-API-Key"

  /**
   * `on_request`: `headers.get("X-API-Key") != "your-secret-api-key"`
   * fails the request before `call_next`; otherwise `call_next`'s result
   * is returned. No store is consulted.
   */
  function OnRequest<R>(headers: seq<Field>, callNext: R): (h: Handled<R>)
    ensures h.outcome.Ok? <==>
              exists i :: IsLastWith(headers, i, HeaderName) && headers[i].value == SecretApiKey
    ensures h.outcome.Ok? ==> h.outcome.result == callNext && NextCalls(h.trace) == 1
    ensures h.outcome.Unauthorized? ==> NextCalls(h.trace) == 0
    ensures forall e :: e in h.trace ==> e == CallNextCalled
  {
    var apiKey := Get(Dict(headers), HeaderName);
    DictGet(headers, HeaderName);
    if apiKey != Some(SecretApiKey) then
      Handled(Unauthorized, [])
    else
      assert [CallNextCalled][..0] == [];
      Handled(Ok(callNext), [CallNextCalled])
  }

  /** A missing header reads as `None`, which never equals the secret. */
  lemma MissingHeaderRejected<R>(headers: seq<Field>, callNext: R)
    requires forall i :: 0 <= i < |headers| ==> headers[i].name != HeaderName
    ensures OnRequest(headers, callNext) == Handled(Unauthorized, [])
  {
    DictGet(headers, HeaderName);
  }

  /** The secret under the exact header name is accepted. */
  lemma {:induction false} ExactHeaderAccepted<R>(callNext: R)
    ensures OnRequest([Field(HeaderName, SecretApiKey)], callNext) == Handled(Ok(callNext), [CallNextCalled])
  {
    assert IsLastWith([Field(HeaderName, SecretApiKey)], 0, HeaderName);
  }

  /** A lower-case `x-api-key` header is not seen at all, whatever it carries. */
  lemma LowercaseHeaderIgnored<R>(k: string, callNext: R)
    ensures OnRequest([Field("x-api-key", k)], callNext) == Handled(Unauthorized, [])
  {
    MissingHeaderRejected([Field("x-api-key", k)], callNext);
  }

  /**
   * The same lower-case header that this snippet ignores passes the
   * store-backed middleware whenever its key is stored.
   */
  lemma ContrastWithStoreBacked<R>(store: DatabaseManager.KeyStore, k: string, callNext: R)
    requires k in store.keys
    ensures ApiKeyMiddleware.OnRequest(store, [Field("x-api-key", k)], callNext).outcome == Ok(callNext)
    ensures OnRequest([Field("x-api-key", k)], callNext).outcome == Unauthorized
  {
    ApiKeyMiddleware.CredentialSpellings(k);
    LowercaseHeaderIgnored(k, callNext);
  }

  /**
   * When every spelling of the credential header in a request is the exact
   * one, this snippet decides like the store-backed middleware whose store
   * holds just the secret.
   */
  lemma {:induction false} AgreesWithStoreBacked<R>(headers: seq<Field>, callNext: R)
    requires forall i :: 0 <= i < |headers| && ApiKeyMiddleware.IsCredential(headers[i].name) ==>
               headers[i].name == HeaderName
    ensures OnRequest(headers, callNext).outcome
            == ApiKeyMiddleware.OnRequest(DatabaseManager.KeyStore([SecretApiKey]), headers, callNext).outcome
  {
    assert Lower(HeaderName) == ApiKeyMiddleware.CredentialName;
    forall i | 0 <= i < |headers|
      ensures ApiKeyMiddleware.IsCredential(headers[i].name) <==> headers[i].name == HeaderName
    {
    }
    assert forall i :: ApiKeyMiddleware.IsLastCredential(headers, i) <==> IsLastWith(headers, i, HeaderName);
  }
}
