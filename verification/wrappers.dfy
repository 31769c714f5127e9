/** The optional-value datatype used for fetch outcomes and parse results. */
module Wrappers {

  /** `None` stands for an absent value: a failed parse or a fetch that did not succeed. */
  datatype Option<+T> = None | Some(value: T)
}
