/** The optional value used for "unresolved" (JavaScript `undefined`) and for
    text that has no parameter list. */
module Wrappers {

  datatype Option<+T> = None | Some(value: T)

}
