/** The optional value used for iterator results and for steps that may leave the board. */
module Options {

  datatype Option<+T> = None | Some(value: T)

}
