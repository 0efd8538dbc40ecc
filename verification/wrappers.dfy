/** The optional value used wherever the JavaScript source returns `undefined`
    for "nothing found" or `NaN` for "not a number". */
module Wrappers {

  datatype Option<+T> = None | Some(value: T)

}
