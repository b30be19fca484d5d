# API-key gate of a FastMCP demo server, in Dafny

This project models the only real logic of a small Model Context Protocol
demo server: the API-key check that sits in front of its single `greet`
tool. It has three parts, plus a stand-alone variant of the check.

- **Key store** (`DatabaseManager`, module `DatabaseManager`). The SQLite
  `api_keys` table is the sequence of its `key` column in id order.
  `init_db` inserts one generated key into an empty table and otherwise does
  nothing. `validate_key` refuses `None` without looking at the table, and
  otherwise tests exact membership. The output of `secrets.token_urlsafe(32)`
  is a parameter.
- **Request gate** (`ApiKeyMiddleware.on_request`, module `ApiKeyMiddleware`).
  The request's headers are a list of `(name, value)` fields (module
  `Headers`). Every name is lower-cased into a dict, where a later field
  wins a collision. The `x-api-key` entry is then given to `validate_key`.
  The gate either returns `call_next`'s result unchanged or fails with
  `Unauthorized` ("Unauthorized: Invalid or missing API Key") without
  calling `call_next`. `call_next`'s result is an opaque value. The calls
  the gate makes on its collaborators are recorded as a trace (module
  `Gate`), so "validated once" and "never called" can be stated.
- **Greeting** (module `Greeting`): `greet(name)` is `"Hello, " + name + "!"`.
  It has an inverse, `NameOfGreeting`.
- **Hard-coded variant** (`auth.py`, module `HardcodedAuth`). It looks the
  header up by its exact spelling `X-API-Key` and compares it with the
  constant `"your-secret-api-key"`.
- **Server** (module `McpServer`): a `greet` call through the gate, and the
  integration scenario run from a freshly initialised store.

Header names are matched case-insensitively, as section 3.2 of RFC 7230
requires. The code lower-cases every name, so this model does the same.

`validate_key` has no special case for the empty string: `""` is looked up
like any other key (my_server.py:105-115). It is refused only because no
generated key is empty (`EmptyKeyNotSpecialCased`, `InitRejectsEmptyKey`).

## Model

| member | source | states |
|---|---|---|
| Headers.LowerChar | my_server.py:161 | an upper-case ASCII letter becomes its lower-case letter, every other character is kept, and no upper-case ASCII letter is left |
| Headers.Lower | my_server.py:161 | `k.lower()` on ASCII: the length is kept and every character is lowered by `LowerChar` |
| Headers.LowerNames | my_server.py:161 | every header name is lowered, while values and order are kept |
| Headers.Dict | my_server.py:161 | the dict built from the header list has exactly the header names as keys |
| Headers.Get | my_server.py:162 | `dict.get` is `Some` exactly for keys in the dict, carrying the stored value |
| Headers.DictLastWins | my_server.py:161 | when several fields share a name, the last one's value is the dict entry |
| Headers.DictValueOrigin | my_server.py:161 | every dict entry is the value of the last field with that name |
| Headers.DictGet | my_server.py:161-162 | `get` returns `None` iff no field has the name, otherwise the last such field's value |
| Headers.LowerOfLower | my_server.py:161-162 | a name with no upper-case letter, such as `x-api-key`, is its own lower-case form |
| Headers.LowerIsLower | my_server.py:161 | lower-cased names contain no upper-case letter, and lower-casing is idempotent |
| DatabaseManager.InitDb | my_server.py:83-87 | on an empty table the store becomes exactly the generated key; otherwise it is unchanged; it is never empty afterwards and uniqueness is preserved |
| DatabaseManager.ValidateKey | my_server.py:105-115 | `None` is refused; any other key is accepted iff some row holds exactly that string |
| DatabaseManager.ValidateNoneIgnoresStore | my_server.py:105-106 | the answer for `None` is false and the same for every store |
| DatabaseManager.InitDbIdempotent | my_server.py:83-87 | a second `init_db` changes nothing, so two calls from empty leave one key, the first generated one |
| DatabaseManager.InitThenValidate | my_server.py:84-86 | after `init_db` on an empty table, a key validates iff it is the generated key |
| DatabaseManager.InitRejectsNonTokens | my_server.py:85-86 | after `init_db` with a 43-character URL-safe token, every non-token (such as "bogus") is refused |
| DatabaseManager.InitRejectsEmptyKey | my_server.py:85-86 | after `init_db` with a 43-character URL-safe token, `""` is refused |
| DatabaseManager.EmptyKeyNotSpecialCased | my_server.py:105-115 | a store that holds `""` accepts `""` |
| DatabaseManager.ValidateIsExact | test_my_server.py:92-107 | a stored key validates, and padded, upper-cased or unknown variants do not |
| ApiKeyMiddleware.ApiKeyOf | my_server.py:161-162 | the looked-up key is `None` iff no header name lowers to `x-api-key`, and otherwise the value of the last header that does |
| ApiKeyMiddleware.ValidatesIffLastCredentialStored | my_server.py:161-164 | the store accepts the looked-up key iff the last credential header holds a stored key |
| ApiKeyMiddleware.OnRequest | my_server.py:157-167 | `validate_key` is called exactly once, first, with the looked-up key, and every later call is to `call_next`; success iff the last credential header holds a stored key; on success `call_next`'s result comes back unchanged after exactly one call; on failure `call_next` is never called |
| ApiKeyMiddleware.CredentialNameCaseInsensitive | my_server.py:159-162 | a lone header whose name lowers to `x-api-key` passes its value to `validate_key` |
| ApiKeyMiddleware.CredentialSpellings | test_my_server.py:192-229 | `X-API-Key`, `x-api-key`, `X-Api-Key` and `X-API-KEY` all pass the same value |
| ApiKeyMiddleware.ApiKeyOfLoweredHeaders | my_server.py:161-162 | lower-casing the header names beforehand does not change the looked-up key |
| ApiKeyMiddleware.LastCredentialShifts | my_server.py:161-162 | inserting a non-credential header keeps the last credential header last, with the same value |
| ApiKeyMiddleware.NoCredentialShifts | my_server.py:161-162 | inserting a non-credential header into a list without credential headers adds none |
| ApiKeyMiddleware.UnrelatedHeaderIgnored | my_server.py:161-162 | inserting a non-credential header anywhere does not change the looked-up key |
| ApiKeyMiddleware.MultipleHeaders | test_my_server.py:231-246 | with `Content-Type` and `User-Agent` around it, the credential's value is checked and decides the outcome |
| ApiKeyMiddleware.MissingCredentialRejected | my_server.py:162-165 | with no credential header, `validate_key(None)` is called, the request is refused and `call_next` is not called |
| ApiKeyMiddleware.LastCredentialWins | my_server.py:161 | of two spellings of the credential header, the later one's value is checked |
| HardcodedAuth.OnRequest | auth.py:3-14 | success iff the last header named exactly `X-API-Key` carries the secret; on success `call_next`'s result is returned after one call; on failure it is never called; no store is consulted |
| HardcodedAuth.MissingHeaderRejected | auth.py:6-11 | with no header named exactly `X-API-Key`, the request is refused |
| HardcodedAuth.ExactHeaderAccepted | auth.py:6-14 | the secret under `X-API-Key` is accepted and `call_next`'s result returned |
| HardcodedAuth.LowercaseHeaderIgnored | auth.py:6 | a lower-case `x-api-key` header is treated as missing, whatever its value |
| HardcodedAuth.ContrastWithStoreBacked | auth.py:6-11 | a lower-case header with a stored key passes the store-backed gate and fails this one |
| HardcodedAuth.AgreesWithStoreBacked | auth.py:6-9 | when every credential header is spelled exactly, this gate decides like the store-backed gate holding only the secret |
| Greeting.Greet | my_server.py:215-225 | the greeting is the prefix `Hello, `, the name unchanged, then `!` |
| Greeting.NameOfGreeting | my_server.py:225 | a recovered name is eight characters shorter than the greeting |
| Greeting.GreetRoundTrip | my_server.py:225 | the name can be recovered from its greeting |
| Greeting.GreetingParsesBack | my_server.py:225 | any string that parses as a greeting is the greeting of the recovered name |
| Greeting.GreetInjective | my_server.py:225 | different names get different greetings |
| Greeting.GreetExamples | test_my_server.py:313-333 | concrete greetings, including the empty name |
| McpServer.CallGreet | my_server.py:200-225 | a `greet` call succeeds iff the store accepts the looked-up key, and then yields the greeting of the given name |
| McpServer.EndToEnd | test_my_server.py:388-418 | from a fresh store, the generated key gets the greeting after one validation and one `call_next`; any other key is refused after the validation alone |

## Left out

- SQLite: connections, SQL text, `CREATE TABLE`, commit and close. The store is the sequence of stored keys. Storage failures (`sqlite3.Error`) are not modelled.
- The `print` of the generated key on first run: output only.
- `secrets.token_urlsafe(32)`: a foreign random generator. Its output is the `generated` parameter. `IsUrlSafeToken` states its shape where a lemma needs it.
- `get_http_headers()`: the framework call that supplies the headers is not part of this model. Its result is the header list parameter.
- `MCPServer` construction, the `MCP_DB_PATH` variable and the default path, middleware and tool registration, `run`, and the module-level instances: framework wiring. `CallGreet` stands for the middleware-then-tool order.
- async/await: the gate runs sequentially, so `call_next` is a value and its invocation is an event in the trace.
- The client (`my_client.py`): HTTP transport and command-line parsing.
- Headers.Lower: lowers ASCII letters only. Python's `str.lower` also lowers other Unicode letters; for example, KELVIN SIGN (U+212A) lowers to `k`. A header spelled with such characters would match `x-api-key` in Python but not in this model.
- Headers.LowerChar: lowers ASCII letters only, for the same reason as `Headers.Lower`; other Unicode upper-case letters are kept.
