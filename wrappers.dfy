/** Failure-carrying results, bytes and a string fact shared by the modules. */
module Wrappers {

  datatype Option<+T> = None | Some(value: T)

  datatype Result<+R, +E> = Success(value: R) | Failure(error: E)

  /** The bytes of a Uint8Array. */
  type Byte = b: int | 0 <= b < 256

  /** Regrouping a concatenation, stated over plain strings so a proof can cite it cheaply. */
  lemma AppendAssoc(a: string, b: string, c: string)
    ensures a + b + c == a + (b + c)
  {
  }
}
