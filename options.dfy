/** The optional value used for "key counted or not", for `String::from_utf8` and for `reduce_with`. */
module Options {

  datatype Option<T> = None | Some(value: T)

}
