/**
 * What the constructors receive in place of reading their two input files,
 * and the errors they report when a read failed.
 */
module Reading {

  /** The outcome of reading one input: its contents, or the message of the read error. */
  datatype ReadOutcome = Read(contents: string) | Failed(cause: string)

  /** A constructor failure; each kind wraps the cause of the failed read. */
  datatype NewError = FirstUnreadable(cause: string) | SecondUnreadable(cause: string)
  {
    /** The text of the wrapping error. */
    function Message(): string
    {
      match this
      case FirstUnreadable(c) => "unable to read first file: " + c
      case SecondUnreadable(c) => "unable to read second file: " + c
    }
  }
}
