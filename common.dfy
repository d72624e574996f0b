/** Small wrappers shared by every module of the model. */
module Common {

  /** The `Option` of the source: `None` where the source finds nothing. */
  datatype Option<+T> = None | Some(value: T)

  /**
   * How a system run ended. The source has no error handling: every
   * `unwrap`, `expect`, `panic!` and `todo!` aborts the game. `Panic` records
   * that such a call was reached; the state returned beside it is the state
   * at that point.
   */
  datatype Status = Ok | Panic(message: string)
}
