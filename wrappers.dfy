/** The optional value the plugin's code writes as `T | null`. */
module Wrappers {

  datatype Option<+T> = None | Some(value: T)
}
