/** The optional value shared by the models of the mood tracker's components. */
module Options {

  datatype Option<+T> = None | Some(value: T)
}
