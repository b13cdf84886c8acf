/** The optional value the matcher returns: `Some` on a match, `None` otherwise. */
module Options {

  datatype Option<+T> = None | Some(value: T)

}
