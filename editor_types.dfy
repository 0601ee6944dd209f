/** The value types of the simple text editor: commands, events, errors and
    the Option/Result wrappers used for the error paths that the C# code
    expresses by throwing. */
module EditorTypes {

  datatype Option<+T> = None | Some(value: T)

  /** Why a line or a command could not be processed. Every one of these is
      an exception in the C# code and ends the session. */
  datatype Error =
    | UnsupportedOperation(token: string)        // operation token other than "1".."4"
    | MissingArgument                            // "1", "2" or "3" with nothing after it
    | MalformedArgument(argument: string)        // not a decimal number that fits an Int32
    | DeleteUnderflow(count: nat, length: nat)   // delete more characters than the text has
    | IndexOutOfRange(position: nat, length: nat) // print outside positions 1..length

  datatype Result<+T> = Ok(value: T) | Err(error: Error)

  /** One parsed input line. Positions are 1-based. */
  datatype Command =
    | AppendString(text: string)
    | DeleteLastCharacters(charactersCount: nat)
    | PrintCharacter(characterPosition: nat)
    | UndoLastEdit

  /** A recorded edit. A deletion keeps the characters it removed so that
      undo can put them back without recomputing anything. */
  datatype Event =
    | StringAppended(appendedText: string)
    | LastCharactersDeleted(charactersCount: nat, deletedText: string)
}
