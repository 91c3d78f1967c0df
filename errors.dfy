/**
 * The errors that end a compilation. The source reports them as formatted
 * messages; the model keeps the values that go into the message.
 */
module Errors {
  import opened Strings

  datatype CompileError =
      /** A second definition of `name` in line `line`; the first was in
          line `firstLine`. */
    | VariableRedefined(name: string, line: int, firstLine: int)
      /** A second title; both positions are 1-based indices into the lines
          that remain once variable definitions are taken out. */
    | TitleRedefined(line: int, firstLine: int)
      /** A reference whose target is neither a heading, a web address nor a
          mail address. */
    | UnknownLinkTarget(target: string, line: int)
      // The run-time panic of slicing a one-character style interior that
      // is the other style's delimiter (`*/*`, `/*/`): the program stops.
    | SlicePanic(line: int)

  /** The text `fmt.Errorf` produces for each error (the panic's is the Go
      run time's). */
  function Message(e: CompileError): string {
    match e
    case VariableRedefined(name, line, firstLine) =>
      "variable '" + name + "' redefined in line " + FormatInt(line) + ", first definition was in line "
      + FormatInt(firstLine) + ", each variable can only be defined once"
    case TitleRedefined(line, firstLine) =>
      "title redefined in line " + FormatInt(line) + ", first definition in line " + FormatInt(firstLine)
      + ", there can only be one title"
    case UnknownLinkTarget(target, line) =>
      "unknown link target '" + target + "' in line " + FormatInt(line)
    case SlicePanic(_) =>
      "runtime error: slice bounds out of range [1:0]"
  }
}
