/** Small shared vocabulary: optional values, results, bytes and sequence predicates. */
module Common {

  datatype Option<+T> = None | Some(value: T)

  datatype Result<+T, +E> = Ok(value: T) | Err(error: E)

  /** An octet of a stored object's body. */
  newtype byte = x: int | 0 <= x < 256

  type Bytes = seq<byte>

  /** No element of `s` occurs twice. */
  predicate NoDuplicates<T(==)>(s: seq<T>) {
    forall i, j :: 0 <= i < j < |s| ==> s[i] != s[j]
  }

  /** `s` begins with `pre` (JavaScript's `startsWith`, S3's key-prefix match). */
  predicate StartsWith(s: string, pre: string) {
    |pre| <= |s| && s[..|pre|] == pre
  }
}
