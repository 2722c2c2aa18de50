/** Optional values: `None` stands for a Python exception or a torch error. */
module Wrappers {

  datatype Option<+T> = None | Some(value: T)

}
