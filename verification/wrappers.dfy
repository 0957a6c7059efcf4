/** The optional-value datatype used where the component can produce a value that is not a number. */
module Wrappers {

  /** `None` stands for a value that is absent or not a finite number. */
  datatype Option<+T> = None | Some(value: T)
}
