/** Shared vocabulary of the model: optional values, results and the
    identifiers of the documents kept in the database collections. */
module Common {

  /** A value that may be absent (a `null` reference or an unset field). */
  datatype Option<+T> = None | Some(value: T)

  /** The outcome of a request handler: a value, or the error it answers with. */
  datatype Result<+T, +E> = Ok(value: T) | Err(error: E)

  /** Document identifiers. Object ids are opaque; only equality is used. */
  type RoleId = nat
  type PermId = nat
  type UserId = nat
  type SessionId = nat

  /** Milliseconds since the epoch, as returned by `Date.now()` and `getTime()`. */
  type Millis = int

  /** True when `s` begins with `prefix`, as `String.prototype.startsWith`. */
  predicate StartsWith(s: string, prefix: string)
  {
    |prefix| <= |s| && s[..|prefix|] == prefix
  }

  /** No value occurs twice. */
  predicate Distinct<T(==)>(s: seq<T>)
  {
    forall i, j :: 0 <= i < j < |s| ==> s[i] != s[j]
  }

  /** A subset is no larger than its superset. */
  lemma SubsetCard<T>(a: set<T>, b: set<T>)
    requires a <= b
    ensures |a| <= |b|
  {
    assert b == a + (b - a);
    assert a * (b - a) == {};
  }
}
