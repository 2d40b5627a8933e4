/** An optional value: the model's stand-in for a C pointer that may be NULL. */
module Optional {

  datatype Option<+T> = None | Some(value: T)

}
