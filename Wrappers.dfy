/** The optional-value datatype the model uses for PHP's nullable results and absent keys. */
module Wrappers {

  datatype Option<+T> = None | Some(value: T)
}
