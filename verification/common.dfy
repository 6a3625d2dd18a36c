/** Small shared vocabulary: Java's nullable references and `Optional`, and
    the outcome of a call that may throw. */
module Common {

  /** A Java reference that may be `null`, or an `Optional` that may be empty. */
  datatype Option<+T> = None | Some(value: T)

  /** The outcome of a service call: the returned value, or the exception it throws. */
  datatype Result<+T, +E> = Ok(value: T) | Err(error: E)

  /** No element occurs twice. */
  predicate Distinct<T(==)>(xs: seq<T>)
  {
    forall i, j :: 0 <= i < j < |xs| ==> xs[i] != xs[j]
  }
}
