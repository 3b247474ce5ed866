/** Small value types shared by the whole model: an optional value (JavaScript's
    `undefined` versus a present value), an outcome that is either a value or a
    thrown error, and the "no repeated entry" property of a list. */
module Base {

  datatype Option<T> = None | Some(value: T)

  datatype Result<T, E> = Success(value: T) | Failure(error: E)

  /** No entry of `s` occurs twice. */
  predicate NoDuplicates<T(==)>(s: seq<T>)
  {
    forall i, j :: 0 <= i < j < |s| ==> s[i] != s[j]
  }
}
