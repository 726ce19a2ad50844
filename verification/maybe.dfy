/** The optional value used wherever the C library returns a pointer that may be NULL. */
module Maybe {

  datatype Option<+T> = None | Some(value: T)
}
