/** Optional values and results that carry an error message, the shapes JavaScript expresses
    with `undefined`/`null` and with a thrown `Error`. */
module Wrappers {

  datatype Option<+T> = None | Some(value: T)

  /** `Err(message)` stands for `throw new Error(message)`. */
  datatype Result<+T> = Ok(value: T) | Err(message: string)
}
