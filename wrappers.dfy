/** Option stands for the `None` results and sentinels of the modelled code. */
module Wrappers {

  datatype Option<+T> = None | Some(value: T)
}
