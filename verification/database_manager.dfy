/**
 * The API-key store behind `DatabaseManager`: the `api_keys` table seen as
 * the sequence of its `key` column in insertion (id) order. Connections,
 * SQL text and commits are not modelled; the random generator's output is
 * a parameter.
 */
module DatabaseManager {
  import opened Optional

  datatype KeyStore = KeyStore(keys: seq<string>)

  /** A store before `init_db` has inserted anything. */
  const Empty := KeyStore([])

  /** The `UNIQUE` constraint on the `key` column. */
  predicate Unique(s: KeyStore) {
    forall i, j :: 0 <= i < j < |s.keys| ==> s.keys[i] != s.keys[j]
  }

  /** The characters `secrets.token_urlsafe` draws from (URL-safe base64). */
  predicate IsUrlSafeChar(c: char) {
    'A' <= c <= 'Z' || 'a' <= c <= 'z' || '0' <= c <= '9' || c == '-' || c == '_'
  }

  /**
   * What `secrets.token_urlsafe(32)` returns: 32 random bytes in URL-safe
   * base64 with the padding stripped, which is 43 characters.
   */
  predicate IsUrlSafeToken(t: string) {
    |t| == 43 && forall i :: 0 <= i < |t| ==> IsUrlSafeChar(t[i])
  }

  /**
   * `init_db`: when the table holds no row, insert the freshly generated
   * key; otherwise leave the table as it is.
   */
  function InitDb(s: KeyStore, generated: string): (r: KeyStore)
    ensures |s.keys| == 0 ==> r.keys == [generated]
    ensures |s.keys| > 0 ==> r == s
    ensures |r.keys| >= 1
    ensures Unique(s) ==> Unique(r)
  {
    if |s.keys| == 0 then KeyStore([generated]) else s
  }

  /**
   * `validate_key`: `None` is refused without looking at the store; any
   * other key is accepted exactly when some row holds that very string.
   */
  function ValidateKey(s: KeyStore, apiKey: Option<string>): (ok: bool)
    ensures apiKey.None? ==> !ok
    ensures apiKey.Some? ==> (ok <==> exists i :: 0 <= i < |s.keys| && s.keys[i] == apiKey.value)
  {
    match apiKey
    case None => false
    case Some(k) => k in s.keys
  }

  /** The answer for `None` does not depend on the store at all. */
  lemma ValidateNoneIgnoresStore(s1: KeyStore, s2: KeyStore)
    ensures ValidateKey(s1, None) == ValidateKey(s2, None) == false
  {
  }

  /**
   * A second `init_db` never adds a row, so two calls from an empty table
   * leave exactly the one key the first call generated.
   */
  lemma InitDbIdempotent(s: KeyStore, first: string, second: string)
    ensures InitDb(InitDb(s, first), second) == InitDb(s, first)
    ensures |InitDb(InitDb(Empty, first), second).keys| == 1
    ensures InitDb(InitDb(Empty, first), second).keys[0] == first
  {
  }

  /** After `init_db` on an empty table, the generated key and only it validates. */
  lemma InitThenValidate(generated: string, k: string)
    ensures ValidateKey(InitDb(Empty, generated), Some(k)) <==> k == generated
  {
  }

  /**
   * After `init_db` on an empty table, any string that is not a URL-safe
   * token, such as "bogus", is refused.
   */
  lemma InitRejectsNonTokens(generated: string, k: string)
    requires IsUrlSafeToken(generated)
    requires !IsUrlSafeToken(k)
    ensures !ValidateKey(InitDb(Empty, generated), Some(k))
  {
  }

  /**
   * No key `token_urlsafe` can generate is empty, so after `init_db` on an
   * empty table the empty string is refused.
   */
  lemma InitRejectsEmptyKey(generated: string)
    requires IsUrlSafeToken(generated)
    ensures !ValidateKey(InitDb(Empty, generated), Some(""))
  {
  }

  /**
   * `validate_key` has no special case for the empty string: a store that
   * holds "" accepts it.
   */
  lemma EmptyKeyNotSpecialCased(s: KeyStore)
    requires "" in s.keys
    ensures ValidateKey(s, Some(""))
  {
  }

  /** The match is exact: no trimming and no case folding of the key. */
  lemma ValidateIsExact()
    ensures ValidateKey(KeyStore(["test-key-123"]), Some("test-key-123"))
    ensures !ValidateKey(KeyStore(["test-key-123"]), Some(" test-key-123"))
    ensures !ValidateKey(KeyStore(["test-key-123"]), Some("TEST-KEY-123"))
    ensures !ValidateKey(KeyStore(["test-key-123"]), Some("invalid-key"))
  {
  }
}
