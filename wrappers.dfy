/** Optional values: a JavaScript `undefined` / `null`, or a step that did not happen. */
module Wrappers {

  datatype Option<+T> = None | Some(value: T)
}
