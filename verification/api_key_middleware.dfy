/**
 * `ApiKeyMiddleware.on_request` of the SQLite-backed server: fold every
 * header name to lower case (a later header wins a collision), take the
 * `x-api-key` entry if any, ask the key store, and either hand back
 * `call_next`'s result or fail before calling it.
 */
module ApiKeyMiddleware {
  import opened Optional
  import opened Headers
  import opened DatabaseManager
  import opened Gate

  /** The credential header's name once lower-cased. */
  const CredentialName := "x-api-key"

  /** The header name is the credential header's in some mix of cases. */
  predicate IsCredential(name: string) {
    Lower(name) == CredentialName
  }

  /** Field `i` is the last one whose name is the credential header in any case. */
  predicate IsLastCredential(headers: seq<Field>, i: int) {
    && 0 <= i < |headers|
    && IsCredential(headers[i].name)
    && forall j :: i < j < |headers| ==> !IsCredential(headers[j].name)
  }

  /**
   * `headers_lower.get("x-api-key")` where `headers_lower` maps lowered
   * names to values: absent exactly when no header name lowers to
   * `x-api-key`, otherwise the value of the last such header.
   */
  function ApiKeyOf(headers: seq<Field>): (key: Option<string>)
    ensures key.None? <==> forall i :: 0 <= i < |headers| ==> !IsCredential(headers[i].name)
    ensures forall i :: IsLastCredential(headers, i) ==> key == Some(headers[i].value)
    ensures key.Some? ==> exists i :: IsLastCredential(headers, i) && key == Some(headers[i].value)
  {
    var lowered := LowerNames(headers);
    DictGet(lowered, CredentialName);
    assert forall i :: IsLastCredential(headers, i) <==> IsLastWith(lowered, i, CredentialName);
    Get(Dict(lowered), CredentialName)
  }

  /**
   * The store accepts the looked-up value exactly when the last credential
   * header holds a stored key.
   */
  lemma ValidatesIffLastCredentialStored(store: KeyStore, headers: seq<Field>)
    ensures ValidateKey(store, ApiKeyOf(headers)) <==>
              exists i :: IsLastCredential(headers, i) && headers[i].value in store.keys
  {
    if ApiKeyOf(headers).Some? {
      var i :| IsLastCredential(headers, i) && ApiKeyOf(headers) == Some(headers[i].value);
      forall j | IsLastCredential(headers, j) ensures j == i {
        assert !(i < j) && !(j < i);
      }
    }
  }

  /**
   * `on_request`: `validate_key` is called exactly once, first, with the
   * looked-up value, and every later call is to `call_next`;
   * `call_next` is called, and its result returned unchanged, exactly when
   * the last credential header holds a stored key.
   */
  function OnRequest<R>(store: KeyStore, headers: seq<Field>, callNext: R): (h: Handled<R>)
    ensures |h.trace| >= 1 && h.trace[0] == ValidateKeyCalled(ApiKeyOf(headers))
    ensures forall i :: 0 < i < |h.trace| ==> h.trace[i] == CallNextCalled
    ensures |h.trace| == 1 + NextCalls(h.trace)
    ensures h.outcome.Ok? <==> exists i :: IsLastCredential(headers, i) && headers[i].value in store.keys
    ensures h.outcome.Ok? ==> h.outcome.result == callNext && NextCalls(h.trace) == 1
    ensures h.outcome.Unauthorized? ==> NextCalls(h.trace) == 0
  {
    var apiKey := ApiKeyOf(headers);
    ValidatesIffLastCredentialStored(store, headers);
    if !ValidateKey(store, apiKey) then
      Handled(Unauthorized, [ValidateKeyCalled(apiKey)])
    else
      var trace := [ValidateKeyCalled(apiKey), CallNextCalled];
      assert trace[..1] == [ValidateKeyCalled(apiKey)];
      Handled(Ok(callNext), trace)
  }

  /** Whatever the case of its name, a lone credential header passes its value on. */
  lemma {:induction false} CredentialNameCaseInsensitive(name: string, v: string)
    requires IsCredential(name)
    ensures ApiKeyOf([Field(name, v)]) == Some(v)
  {
    assert IsLastCredential([Field(name, v)], 0);
  }

  /** The four spellings the server's tests use all reach `validate_key` with the same value. */
  lemma CredentialSpellings(v: string)
    ensures ApiKeyOf([Field("X-API-Key", v)]) == Some(v)
    ensures ApiKeyOf([Field("x-api-key", v)]) == Some(v)
    ensures ApiKeyOf([Field("X-Api-Key", v)]) == Some(v)
    ensures ApiKeyOf([Field("X-API-KEY", v)]) == Some(v)
  {
    assert Lower("X-API-Key") == CredentialName;
    LowerOfLower(CredentialName);
    assert Lower("X-Api-Key") == CredentialName;
    assert Lower("X-API-KEY") == CredentialName;
    CredentialNameCaseInsensitive("X-API-Key", v);
    CredentialNameCaseInsensitive("x-api-key", v);
    CredentialNameCaseInsensitive("X-Api-Key", v);
    CredentialNameCaseInsensitive("X-API-KEY", v);
  }

  /**
   * Lower-casing the header names before the request arrives changes
   * nothing: the lookup already ignores the case of names.
   */
  lemma ApiKeyOfLoweredHeaders(headers: seq<Field>)
    ensures ApiKeyOf(LowerNames(headers)) == ApiKeyOf(headers)
  {
    forall i | 0 <= i < |headers| ensures Lower(Lower(headers[i].name)) == Lower(headers[i].name) {
      LowerIsLower(headers[i].name);
    }
    assert LowerNames(LowerNames(headers)) == LowerNames(headers);
  }

  /** Where field `i` of `front + back` sits once `other` is inserted between them. */
  function Shift(front: seq<Field>, i: nat): nat {
    if i < |front| then i else i + 1
  }

  /** The last credential header stays the last one when a non-credential header is inserted. */
  lemma LastCredentialShifts(front: seq<Field>, other: Field, back: seq<Field>, i: int)
    requires !IsCredential(other.name)
    requires IsLastCredential(front + back, i)
    ensures IsLastCredential(front + [other] + back, Shift(front, i))
    ensures (front + [other] + back)[Shift(front, i)] == (front + back)[i]
  {
    var a, b := front + back, front + [other] + back;
    var k := Shift(front, i);
    assert b[k] == a[i];
    forall j | k < j < |b| ensures !IsCredential(b[j].name) {
      if j != |front| {
        var i' := if j < |front| then j else j - 1;
        assert b[j] == a[i'] && i < i';
      }
    }
  }

  /** Inserting a non-credential header into a list without credential headers adds none. */
  lemma NoCredentialShifts(front: seq<Field>, other: Field, back: seq<Field>)
    requires !IsCredential(other.name)
    requires forall i :: 0 <= i < |front + back| ==> !IsCredential((front + back)[i].name)
    ensures forall j :: 0 <= j < |front + [other] + back| ==> !IsCredential((front + [other] + back)[j].name)
  {
    var a, b := front + back, front + [other] + back;
    forall j | 0 <= j < |b| ensures !IsCredential(b[j].name) {
      if j != |front| {
        assert b[j] == a[if j < |front| then j else j - 1];
      }
    }
  }

  /** Inserting a header whose name is not the credential's anywhere changes nothing. */
  lemma {:induction false} UnrelatedHeaderIgnored(front: seq<Field>, other: Field, back: seq<Field>)
    requires !IsCredential(other.name)
    ensures ApiKeyOf(front + [other] + back) == ApiKeyOf(front + back)
  {
    var a, b := front + back, front + [other] + back;
    if ApiKeyOf(a).Some? {
      var i :| IsLastCredential(a, i) && ApiKeyOf(a) == Some(a[i].value);
      LastCredentialShifts(front, other, back, i);
    } else {
      NoCredentialShifts(front, other, back);
    }
  }

  /**
   * The request of the server's "multiple headers" test reaches the store
   * with the credential's value and passes exactly when that value is stored.
   */
  lemma MultipleHeaders<R>(store: KeyStore, callNext: R)
    ensures ApiKeyOf([Field("Content-Type", "application/json"), Field("X-API-Key", "valid-key"),
                      Field("User-Agent", "test-client")]) == Some("valid-key")
    ensures OnRequest(store, [Field("Content-Type", "application/json"), Field("X-API-Key", "valid-key"),
                              Field("User-Agent", "test-client")], callNext).outcome
            == (if "valid-key" in store.keys then Ok(callNext) else Unauthorized)
  {
    var hs := [Field("Content-Type", "application/json"), Field("X-API-Key", "valid-key"),
               Field("User-Agent", "test-client")];
    assert Lower("X-API-Key") == CredentialName;
    assert Lower("User-Agent") != CredentialName by { assert Lower("User-Agent")[0] == 'u'; }
    assert IsLastCredential(hs, 1);
  }

  /** With no credential header at all the request is refused and `call_next` never runs. */
  lemma MissingCredentialRejected<R>(store: KeyStore, headers: seq<Field>, callNext: R)
    requires forall i :: 0 <= i < |headers| ==> !IsCredential(headers[i].name)
    ensures OnRequest(store, headers, callNext) == Handled(Unauthorized, [ValidateKeyCalled(None)])
  {
  }

  /**
   * When two spellings of the credential header collide, the later one is
   * the one checked.
   */
  lemma {:induction false} LastCredentialWins(first: string, second: string)
    ensures ApiKeyOf([Field("X-API-Key", first), Field("x-api-key", second)]) == Some(second)
  {
    assert Lower("x-api-key") == CredentialName;
    assert IsLastCredential([Field("X-API-Key", first), Field("x-api-key", second)], 1);
  }
}
