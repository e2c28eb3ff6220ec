/** The Option type used for nullable cells and partial parses. */
module Wrappers {

  /** `None` stands for a missing value (pandas NA/NaN, a failed parse, an absent row). */
  datatype Option<+T> = None | Some(value: T)
}
