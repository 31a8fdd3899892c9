/** The JavaScript `undefined`-or-value pattern used by optional fields and lookups. */
module Wrappers {

  datatype Option<+T> = None | Some(value: T)
}
