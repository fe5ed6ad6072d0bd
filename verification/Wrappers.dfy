/** The optional and status values the other modules share. */
module Wrappers {

  datatype Option<+T> = None | Some(value: T)

  /** The result codes of the emulator's API that the modelled code returns. */
  datatype Status =
    | Ok
    | InvalidArgument
    | LimitReached
    | DecodeError
    | UnsupportedInstruction
    | AddressFault
    | InvalidImage
    | Breakpoint
    | Halted
}
