/** An optional value, as std::optional and absent JSON members need it. */
module Wrappers {

  datatype Option<+T> = None | Some(value: T)
}
