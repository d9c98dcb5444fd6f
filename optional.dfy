/** A value that may be missing: the model of a NaN cell in a table column. */
module Optional {

  datatype Option<+T> = None | Some(value: T)

}
