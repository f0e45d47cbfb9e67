/** The optional-value datatype used for operations that fail on some inputs. */
module Wrappers {

  /** `None` stands for the Python exception the operation raises. */
  datatype Option<+T> = None | Some(value: T)
}
