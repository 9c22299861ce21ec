/** Small definitions both hash maps share. */
module Common {

  /** The optional result of a lookup: Python's None or a value. */
  datatype Option<T> = None | Some(value: T)

  /** The positive part of x; termination measures of the put/resize
      recursion are built from it. */
  function Max0(x: int): nat {
    if x < 0 then 0 else x
  }
}
