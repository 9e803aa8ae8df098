/** The Python `None`-or-value results of the REPL's helpers. */
module Wrappers {

  datatype Option<+T> = None | Some(value: T)
}
