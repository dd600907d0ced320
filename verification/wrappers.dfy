/** The optional-value datatype the model uses where `main.py` returns `None`
    or a value. */
module Wrappers {

  datatype Option<+T> = None | Some(value: T)
}
