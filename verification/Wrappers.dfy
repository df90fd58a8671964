/** Option and result types, and a fact about concatenation, shared by the other modules. */
module Wrappers {

  datatype Option<+T> = None | Some(value: T)

  datatype Result<+T, +E> = Ok(value: T) | Err(error: E)

  /** The value of an option, as a list of at most one. */
  function Present<T>(option: Option<T>): seq<T> {
    if option.Some? then [option.value] else []
  }

  lemma Regroup<T>(x: seq<T>, y: seq<T>, z: seq<T>)
    ensures (x + y) + z == x + (y + z)
  {}
}
