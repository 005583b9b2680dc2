/** The Some/None datatype the three-valued answers are built from. */
module Wrappers {

  /** An optional value: None stands for Python's None. */
  datatype Option<+T> = None | Some(value: T)
}
