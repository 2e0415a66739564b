/** The small vocabulary every other module shares. */
module Common {

  datatype Option<+T> = None | Some(value: T)

  function Min(a: int, b: int): (m: int)
    ensures m <= a && m <= b && (m == a || m == b)
  {
    if a <= b then a else b
  }

  function Max(a: int, b: int): (m: int)
    ensures a <= m && b <= m && (m == a || m == b)
  {
    if a <= b then b else a
  }

  lemma FewerIsNoMore<T>(a: set<T>, b: set<T>)
    requires a <= b
    ensures |a| <= |b|
  {
    assert b == a + (b - a);
  }

  /** A key in PEM form. What it decodes to is the cryptographic library's affair. */
  type Pem = string

  /** The last minute the four byte date field of an OWID can hold. */
  const LAST_MINUTE: int := 0xFFFF_FFFF

  /** Minutes since 2020-01-01 00:00 UTC, as far as the wire format counts them. */
  type Minute = m: int | 0 <= m <= LAST_MINUTE

  /** The moment now as the count of minutes reads it, or -1 where it cannot be counted. */
  type Clock = n: int | -1 <= n <= LAST_MINUTE

  /** What asking about a signature can answer. */
  datatype SignatureStatus =
    | SignatureValid
    | SignatureInvalid
    | InvalidSignatureLength
    | KeyUnavailable
    | InvalidKey
    | VerificationError
}
