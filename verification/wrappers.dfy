/** Optional values: `None` stands for JavaScript's `null` / omitted argument. */
module Wrappers {

  datatype Option<+T> = None | Some(value: T)
}
