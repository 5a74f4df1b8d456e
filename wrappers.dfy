/** The Option type used for every operation of the model that can fail. */
module Wrappers {

  /** `None` stands for a `false` return of the source's `bool f(…, T &out)` functions. */
  datatype Option<+T> = None | Some(value: T)
}
