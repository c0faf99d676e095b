/** Option, used for values that are absent: a missing birth year or gender,
    and the "no data" result of a statistic over an empty column. */
module Wrappers {
  datatype Option<+T> = None | Some(value: T)
}
