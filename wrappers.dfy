/** Optional values: the model of the source's nullable fields (`number | null`). */
module Wrappers {

  datatype Option<+T> = None | Some(value: T)
}
