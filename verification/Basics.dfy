/** Types shared by the models of the components. */
module Basics {
  datatype Option<T> = None | Some(value: T)

  type Byte = x: int | 0 <= x < 256
}
