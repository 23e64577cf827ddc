/**
 * The error kinds of the PE reader and the Result type that the image
 * operations return. Result supports `:-`, which plays the part of Rust's
 * `?`: the first failing step ends the chain with its own error.
 */
module PeResult {

  datatype Error =
    | Bounds     // a byte range does not lie inside the image buffer
    | Unmapped   // a file offset does not lie in a mapped part of the file
    | Null       // a null pointer, or a null-shaped field that had to be null was not
    | Encoding   // bytes that must be text are not valid UTF-8

  datatype Result<+T> = Ok(value: T) | Err(error: Error) {

    predicate IsFailure() {
      Err?
    }

    function PropagateFailure<U>(): Result<U>
      requires Err?
    {
      Err(error)
    }

    function Extract(): T
      requires Ok?
    {
      value
    }
  }
}
