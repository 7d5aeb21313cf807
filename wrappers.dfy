/** Optional values: `None` stands for the `null` the Java code returns or stores. */
module Wrappers {

  datatype Option<+T> = None | Some(value: T)
}
