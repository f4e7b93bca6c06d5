/** The optional value used wherever the JavaScript source yields `null` or `undefined`. */
module Options {

  datatype Option<+T> = None | Some(value: T)

}
