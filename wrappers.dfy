/** Option type for the source's `Point | null` results and NaN-producing calls. */
module Wrappers {
  datatype Option<+T> = None | Some(value: T)
}
