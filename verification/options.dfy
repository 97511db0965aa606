/** The optional value used where the model needs "a result or nothing". */
module Options {

  datatype Option<+T> = None | Some(value: T)
}
