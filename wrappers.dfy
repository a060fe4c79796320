/** The optional value used for nullable columns, JavaScript `null`/`undefined`
    fields and "not found" results throughout the model. */
module Wrappers {

  datatype Option<+T> = None | Some(value: T)
}
