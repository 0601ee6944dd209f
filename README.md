# Simple text editor: model in Dafny

This project models the core of a line-oriented text editor built on event
sourcing, from `Editor/SimpleTextEditor.cs`. Each input line is one command:
`1 <text>` appends, `2 <n>` deletes the last `n` characters, `3 <p>` prints
the character at 1-based position `p`, and `4` undoes the last edit.

- The aggregate turns an append or a delete into an event. A delete event
  records the characters it removes.
- The applier moves the text forward over an event (`Apply`) or back over
  it (`Undo`).
- The processor reads the lines, keeps the log of events that undo pops,
  and writes printed characters.

Modules:

- `EditorTypes` (`editor_types.dfy`): commands, events, the errors that the
  C# code raises as exceptions, and the Option/Result wrappers.
- `EditorEvents` (`editor_events.dfy`): the aggregate (`Append`, `Delete`),
  the applier (`Apply`, `Undo`), and `Replay`, which rebuilds a text from a
  log of events.
- `CommandParsing` (`command_parsing.dfy`): the blank-line test, the split
  at the first space, decimal arguments, and `ParseCommand`.
  `FormatCommand` writes a command back as a line and is the partner of
  `ParseCommand`.
- `EditorProcessing` (`editor_processing.dfy`): the session as a value and
  the specification functions `Step`, `NextSpec`, `RunFrom` and `RunSpec`.
  It also holds the class `EditorProcessor`, whose fields `text`, `events`
  and `output` the methods update in place, and `RunSession`, the
  runner's loop.
- `EditorProperties` (`editor_properties.dfy`): properties over several
  commands. These cover undo in last-in first-out order and print after
  append. They also cover the session recorded in the test suite.

The session invariant is `Consistent(s)`: replaying the log from the empty
text gives the current text. `Replay` only accepts a delete event whose
recorded characters are the real tail of the text at that point. Every
command keeps this invariant, and it is what makes undo exact. Errors are
`Result.Err` values. In the C# code every error is thrown before anything
changes, so a failing command leaves the session as it was.

Two details of the C# code that the model keeps:

- A line is split on its first `' '` only (`Split(' ', 2)`), not on other
  whitespace such as a tab. The operation token is everything before that
  space, and the rest of the line, spaces included, is the argument.
- A delete count above the text length makes the range slice
  `Text[^n..]` throw, and so does a print position outside `1..|text|`.
  The model reports these as `DeleteUnderflow` and `IndexOutOfRange`, and
  the session is left unchanged.

## Model

| member | source | states |
|---|---|---|
| `EditorEvents.Append` | Editor/SimpleTextEditor.cs:116 | the append event records the command's text verbatim, whatever the current text |
| `EditorEvents.Delete` | Editor/SimpleTextEditor.cs:118-119 | succeeds exactly when `n <= |text|` and otherwise fails with `DeleteUnderflow`; the event counts `n` and records exactly the last `n` characters, so `text == kept + deletedText` |
| `EditorEvents.Apply` | Editor/SimpleTextEditor.cs:91-100 | an append puts its text after the old text (prefix and suffix stated); a delete keeps the first `|text| - n` characters |
| `EditorEvents.Undo` | Editor/SimpleTextEditor.cs:102-111 | undoing an append cuts off as many characters as it appended (by length); undoing a delete puts its recorded characters back at the end |
| `EditorEvents.UndoApply` | Editor/SimpleTextEditor.cs:91-111 | for every event the aggregate produces from a text, `Undo(Apply(text, e), e) == text`, content and not only length |
| `EditorEvents.ApplyUndo` | Editor/SimpleTextEditor.cs:91-111 | conversely, `Apply(Undo(text, e), e) == text` when the undone append is the tail of the text |
| `EditorEvents.UndoDelete` | Editor/SimpleTextEditor.cs:118-119 | a delete of `n <= |text|` characters followed by its undo restores the exact prior text |
| `EditorEvents.ReplayPush` | Editor/SimpleTextEditor.cs:58-70 | pushing an event produced from the current text and applying it keeps log and text consistent |
| `EditorEvents.ReplayPop` | Editor/SimpleTextEditor.cs:77-86 | popping the last event of a consistent log and undoing it gives the text that the remaining log replays to |
| `EditorEvents.ReplayPrefix` | Editor/SimpleTextEditor.cs:77-86 | every prefix of a consistent log replays to some text, so any number of undos stays well defined |
| `CommandParsing.IsBlank` | Editor/SimpleTextEditor.cs:32 | a line is blank exactly when every character is .NET whitespace (`IsWhiteSpace` lists the separator, control and line-break characters `char.IsWhiteSpace` accepts); the empty line is blank |
| `CommandParsing.IndexOfSpace` | Editor/SimpleTextEditor.cs:35 | the index found is the first `' '`, or the length when there is none |
| `CommandParsing.SplitOnFirstSpace` | Editor/SimpleTextEditor.cs:35 | the token has no space; with no space the token is the whole line; otherwise `line == token + " " + rest`, with the rest's spaces kept |
| `CommandParsing.SplitJoin` | Editor/SimpleTextEditor.cs:35 | splitting `op + " " + rest` for a space-free `op` gives back `op` and the whole `rest` |
| `CommandParsing.DecimalStringValue` | Editor/SimpleTextEditor.cs:43 | reading the decimal digits of `n` gives `n` |
| `CommandParsing.ParseNat` | Editor/SimpleTextEditor.cs:43 | accepts exactly the non-empty digit strings whose value fits an Int32, and returns their decimal value |
| `CommandParsing.ParseNatDecimal` | Editor/SimpleTextEditor.cs:43-46 | every argument up to Int32 max is read back from its decimal form |
| `CommandParsing.ParseArgument` | Editor/SimpleTextEditor.cs:43-46 | no argument gives `MissingArgument`; a bad number gives `MalformedArgument`; otherwise the digits' value |
| `CommandParsing.ParseCommand` | Editor/SimpleTextEditor.cs:35-53 | a token other than "1".."4" gives `UnsupportedOperation(token)`; "1"/"2"/"3" with nothing after them give `MissingArgument`; "4" is undo whatever follows; "1 rest" appends the whole rest; "2 arg" and "3 arg" delete or print the argument's value, or fail with the argument's error (`MalformedArgument` for a non-number or one above Int32 max); every parsed number fits an Int32 |
| `CommandParsing.ParseFormat` | Editor/SimpleTextEditor.cs:35-53 | the formatted line of every command is non-blank and parses back to that command, for any append text and any Int32 argument |
| `CommandParsing.ParseFormatAppend` | Editor/SimpleTextEditor.cs:39-40 | `"1 " + t` parses to an append of `t`, spaces and all, including the empty text |
| `CommandParsing.ParseFormatNumbered` | Editor/SimpleTextEditor.cs:42-47 | `"2 n"` and `"3 n"` parse to a delete and a print of `n` |
| `CommandParsing.ParseFormatUndo` | Editor/SimpleTextEditor.cs:48-49 | `"4"` parses to undo |
| `EditorProcessing.CharacterAt` | Editor/SimpleTextEditor.cs:74 | the slice `[p-1..p]` is the one-character string holding the `p`-th character |
| `EditorProcessing.Step` | Editor/SimpleTextEditor.cs:58-86 | every successful command keeps the text equal to the replayed log and only adds to the output |
| `EditorProcessing.StepAppend` | Editor/SimpleTextEditor.cs:58-63 | append never fails; it pushes exactly one event `StringAppended(t)`, the text becomes `text + t`, and the output is unchanged |
| `EditorProcessing.StepDelete` | Editor/SimpleTextEditor.cs:65-70 | delete succeeds iff `n <= |text|`, else `DeleteUnderflow`; it pushes exactly one event recording the removed suffix, and the new text followed by that suffix is the old text |
| `EditorProcessing.StepPrint` | Editor/SimpleTextEditor.cs:72-75 | print succeeds iff `1 <= p <= |text|`, else `IndexOutOfRange`; it adds exactly the line `[text[p-1]]` and leaves text and log alone |
| `EditorProcessing.StepUndo` | Editor/SimpleTextEditor.cs:77-86 | on an empty log undo is a no-op; otherwise it removes exactly the last event, keeps the output, and the text is what the remaining log replays to |
| `EditorProcessing.NextSpec` | Editor/SimpleTextEditor.cs:29-56 | a blank line gives `false` and changes nothing; any other line that succeeds gives `true`; a parse error is passed on unchanged; a line that parses runs exactly the parsed command, and its error or new session is the result; the invariant holds and the output only grows |
| `EditorProcessing.RunFrom` | Editor/EditorSessionRunner.cs:15-19 | the session a run halts in is consistent and its output extends the starting one; where it halts is stated by the four lemmas below |
| `EditorProcessing.RunFromEnd` | Editor/EditorSessionRunner.cs:44 | once the lines are used up the input yields the empty line, and the run stops cleanly where it is |
| `EditorProcessing.RunFromBlank` | Editor/EditorSessionRunner.cs:18 | a blank line stops the run without error, whatever lines follow |
| `EditorProcessing.RunFromFailure` | Editor/EditorSessionRunner.cs:18 | the first failing line stops the run with that line's error and the session as it was before the line; later lines are not read |
| `EditorProcessing.RunFromContinue` | Editor/EditorSessionRunner.cs:18 | a line that succeeds hands the run on to the next line from the session it produced |
| `EditorProcessing.RunSpec` | Editor/EditorSessionRunner.cs:15-19 | a header that is not a decimal Int32 ends the session at once with `MalformedArgument(header)` and nothing done; otherwise the remaining lines run from the empty session; the final session is always consistent |
| `EditorProcessing.EditorProcessor.constructor` | Editor/SimpleTextEditor.cs:8-14 | a new session has empty text, an empty log and no output |
| `EditorProcessing.EditorProcessor.Initialize` | Editor/SimpleTextEditor.cs:22-27 | the header line fails with `MalformedArgument` exactly when it is not a decimal Int32; its value is discarded |
| `EditorProcessing.EditorProcessor.Next` | Editor/SimpleTextEditor.cs:29-56 | the result and the new fields are those of `NextSpec` on the old state; on error the fields are unchanged |
| `EditorProcessing.EditorProcessor.Execute` | Editor/SimpleTextEditor.cs:37-53 | dispatching a parsed command to its overload gives exactly `Step` on the old state: the new fields on success, the error and unchanged fields on failure |
| `EditorProcessing.EditorProcessor.ProcessAppend` | Editor/SimpleTextEditor.cs:58-63 | appends one `StringAppended(t)` to the log, sets the text to `old text + t`, and keeps the invariant |
| `EditorProcessing.EditorProcessor.ProcessDelete` | Editor/SimpleTextEditor.cs:65-70 | fails iff `n > |text|`, with nothing changed; otherwise pushes one event holding the removed suffix and keeps the first `|text| - n` characters |
| `EditorProcessing.EditorProcessor.ProcessPrint` | Editor/SimpleTextEditor.cs:72-75 | fails iff `p` is outside `1..|text|`; otherwise writes exactly the `p`-th character; never changes text or log |
| `EditorProcessing.EditorProcessor.ProcessUndo` | Editor/SimpleTextEditor.cs:77-86 | the new fields are `Step(old, UndoLastEdit)`, a no-op on an empty log and one pop otherwise (see `StepUndo`) |
| `EditorProcessing.RunSession` | Editor/EditorSessionRunner.cs:15-19 | the loop of Initialize and then Next, fed from a list that yields the empty line when used up, ends exactly as `RunSpec` says |
| `EditorProperties.Exec` | Editor/EditorSessionRunner.cs:18 | running commands one after another keeps the invariant and only adds output |
| `EditorProperties.ExecConcat` | Editor/EditorSessionRunner.cs:18 | running `a + b` is running `a`, then `b` |
| `EditorProperties.EditThenUndo` | Editor/SimpleTextEditor.cs:58-86 | an append or a successful delete followed by undo gives back exactly the prior session: text, log and output |
| `EditorProperties.EditsThenUndos` | Editor/SimpleTextEditor.cs:77-86 | any run of successful edits followed by as many undos restores the starting session; undos reverse edits in last-in first-out order |
| `EditorProperties.UndosPopLog` | Editor/SimpleTextEditor.cs:77-86 | `k` undos drop exactly the last `k` events, one each, leave the output alone, and restore the text that the remaining log replays to |
| `EditorProperties.AppendThenPrint` | Editor/SimpleTextEditor.cs:58-75 | after appending `t`, printing position `|text| + i` writes `t[i-1]` |
| `EditorProperties.NextFormatted` | Editor/SimpleTextEditor.cs:29-56 | the formatted line of a command makes Next run exactly that command |
| `EditorProperties.RunFromFormatted` | Editor/EditorSessionRunner.cs:18 | a run whose next line is a command that succeeds continues from that command's result |
| `EditorProperties.RunScript` | Editor/EditorSessionRunner.cs:15-19 | feeding the lines of commands that all succeed runs exactly those commands |
| `EditorProperties.RunSpecScript` | Editor/EditorSessionRunner.cs:15-19 | a valid header followed by such lines ends without error in the session the commands produce |
| `EditorProperties.RecordedStep` | Editor.Tests/SimpleTextEditorTests.cs:12 | each command of the recorded session moves it to the next state of the trace "abc", "abc"/c, "", "xy", "xy"/y, "", "abc", "abc"/a |
| `EditorProperties.RecordedRest` | Editor.Tests/SimpleTextEditorTests.cs:12 | from any point of the trace, the remaining recorded commands reach its final state |
| `EditorProperties.RecordedCommandsRun` | Editor.Tests/SimpleTextEditorTests.cs:12-13 | the eight recorded commands from an empty session write "c", "y", "a" and leave "abc" |
| `EditorProperties.RecordedScript` | Editor.Tests/SimpleTextEditorTests.cs:12 | the recorded commands are the lines "1 abc", "3 3", "2 3", "1 xy", "3 2", "4", "4", "3 1" |
| `EditorProperties.RecordedSession` | Editor.Tests/SimpleTextEditorTests.cs:12-19 | the whole recorded input, header "8" included, ends without error with output `["c", "y", "a"]` and text "abc" |

## Left out

- Console and queue input and output are left out. `Input()` becomes a
  line parameter (or the list given to `RunSession`), and `Output` becomes
  the `output` field.
- The stub runner's behaviour of returning the empty string when its queue
  is empty is modelled (`Editor/EditorSessionRunner.cs:44`). The console
  runner's `?? string.Empty` gives the same line.
- .NET exceptions are left out as exception types. Each throwing path
  becomes one `Error` value, and the model stops there as the uncaught
  exception does. No state changes before any of these throws.
- The shared, mutable `EditorState` object is left out. `Apply` and `Undo`
  assign into the object they are given and return it. The model flattens
  the session into the processor's `text` and `events` fields, so aliasing
  between state objects is not captured.
- The `_ => state.Text` default arms of `Apply` and `Undo` are left out.
  Only the two event kinds exist, so these arms are unreachable.
- `Enum.Parse` followed by the switch is modelled as one check of the
  token. A numeric token outside 1..4, such as "5" or "0", parses as an
  enum value and then reaches the `default` arm of the switch, which
  throws. An unparsable token makes `Enum.Parse` throw. The model reports
  both as `UnsupportedOperation(token)`.
- `CommandParsing.ParseCommand`: accepts exactly the tokens "1" to "4".
  `Enum.Parse` also accepts the names `Append`, `Delete`, `Print` and
  `Undo`, padded or signed numerals such as "01" or "+1", and
  comma-separated flag lists. The model rejects those, because it treats
  the numeric codes as the protocol.
- `CommandParsing.ParseNat`: accepts only unsigned decimal digits.
  `int.Parse` also accepts surrounding whitespace and a leading sign. A
  negative delete count or print position makes the slice throw in the
  C# code anyway, so that input still fails, but as `MalformedArgument`
  rather than as an out-of-range error.
- `EditorProcessing.EditorProcessor.Initialize`: parses the header with the
  same decimal parser. Its whitespace or sign forms differ as above.
- C# string lengths and `int` counts are bounded by 2^31 - 1. The model's
  texts are unbounded, and only the parsed arguments carry the Int32 bound.
- Lengths, delete counts and print positions count Unicode characters,
  not UTF-16 code units as C# `Length` and the range slices do. They
  differ for characters outside the Basic Multilingual Plane. For example,
  the C# code prints half a surrogate pair for `3 2` after `1 a😀`, while
  the model prints the whole `😀`.
- The processor's lifecycle states (not started, running, finished) are
  left out as explicit states. `RunSession` stands for one whole run.
