/** The optional-value datatype the model uses wherever the source returns `null`. */
module Wrappers {

  /** `None` stands for a C# `null` reference, `Some(v)` for a non-null one. */
  datatype Option<+T> = None | Some(value: T)
}
