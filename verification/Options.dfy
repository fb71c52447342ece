/** The optional value shared by the modules below (a nil pointer or a missing row in the program). */
module Options {
  datatype Option<+T> = None | Some(value: T)
}
