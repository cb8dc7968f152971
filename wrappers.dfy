/** The optional value used throughout the model: `None` stands for a JavaScript
    `null`/`undefined` result or for an exception that aborts the computation. */
module Wrappers {

  datatype Option<+T> = None | Some(value: T)

}
