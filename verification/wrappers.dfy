/** The two outcome types shared by the lexer and the parser: a value that
    may be Go's nil, and a run that may never end. */
module Wrappers {

  /** Go's nil interface / nil pointer: a value that may be absent. */
  datatype Option<+T> = None | Some(value: T)

  /** The outcome of a loop that may never exit: `Hangs` stands for a run
      of the source that does not terminate. */
  datatype Run<+T> = Hangs | Halts(value: T)
}
