/** The optional value used wherever the decoders of utils/ have `null`, `undefined` or `NaN` as "no value". */
module Wrappers {
  datatype Option<+T> = None | Some(value: T)
}
