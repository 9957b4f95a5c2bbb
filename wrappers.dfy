/** Small value wrappers shared by the toaster modules. */
module Wrappers {

  /** An optional value: `None` stands for JavaScript's `undefined` argument. */
  datatype Option<+T> = None | Some(value: T)

  /** The outcome of a JavaScript expression: a normal value or a thrown error. */
  datatype Completion<+T> = Normal(value: T) | Throw(error: string)
}
