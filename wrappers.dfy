/** The optional value used for decoders that may fail. */
module Wrappers {

  /** `None` stands for a decode that raised; `Some(v)` for one that produced `v`. */
  datatype Option<+T> = None | Some(value: T)
}
