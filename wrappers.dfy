/** Optional values, used wherever the source returns
    `null`, an empty match or a thrown exception. */
module Wrappers {

  datatype Option<T> = None | Some(value: T)

}
