/** An optional value: `None` is the absent case (a NULL pointer, no qualifying block, an indeterminate byte). */
module Wrappers {

  datatype Option<+T> = None | Some(value: T)

}
