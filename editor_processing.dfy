/** The processor: reads one line at a time, dispatches the parsed command
    to the aggregate and the applier, keeps the event log that undo pops,
    and writes printed characters to its output. */
module EditorProcessing {
  import opened EditorTypes
  import opened EditorEvents
  import opened CommandParsing

  /** The whole observable state of a session: the buffer text, the log of
      edits not yet undone (oldest first), and the lines written so far. */
  datatype Session = Session(text: string, events: seq<Event>, output: seq<string>)

  const EmptySession := Session("", [], [])

  /** The session invariant: the text is the log replayed from the empty
      text, every delete in the log recording what it really removed. */
  predicate Consistent(s: Session)
  {
    Replay(s.events) == Some(s.text)
  }

  /** The one-character string at 1-based position `p`. */
  function CharacterAt(text: string, p: nat): (r: string)
    requires 1 <= p <= |text|
    ensures |r| == 1 && r[0] == text[p - 1]
  {
    text[p - 1..p]
  }

  /** One command against a session. Every command that succeeds keeps the
      text equal to the replayed log and only ever adds to the output; what
      each command does is stated by the lemmas StepAppend, StepDelete,
      StepPrint and StepUndo below. */
  function Step(s: Session, c: Command): (r: Result<Session>)
    requires Consistent(s)
    ensures r.Ok? ==> Consistent(r.value)
    ensures r.Ok? ==> s.output <= r.value.output
  {
    match c
    case AppendString(t) =>
      var e := Append(s.text, t);
      ReplayPush(s.events, s.text, e);
      Ok(Session(Apply(s.text, e), s.events + [e], s.output))
    case DeleteLastCharacters(n) =>
      (match Delete(s.text, n)
       case Err(err) => Err(err)
       case Ok(e) =>
         ReplayPush(s.events, s.text, e);
         Ok(Session(Apply(s.text, e), s.events + [e], s.output)))
    case PrintCharacter(p) =>
      if 1 <= p <= |s.text| then Ok(Session(s.text, s.events, s.output + [CharacterAt(s.text, p)]))
      else Err(IndexOutOfRange(p, |s.text|))
    case UndoLastEdit =>
      if s.events == [] then Ok(s)
      else
        var last := s.events[|s.events| - 1];
        ReplayPop(s.events, s.text);
        Ok(Session(Undo(s.text, last), s.events[..|s.events| - 1], s.output))
  }

  /** Append never fails; it pushes one event recording the text verbatim
      and leaves the output alone. */
  lemma StepAppend(s: Session, t: string)
    requires Consistent(s)
    ensures Step(s, AppendString(t)) == Ok(Session(s.text + t, s.events + [StringAppended(t)], s.output))
  {
  }

  /** Delete succeeds exactly when the text has at least `n` characters;
      then it pushes one event recording the `n` characters it removes from
      the end, and otherwise it fails with nothing changed. */
  lemma StepDelete(s: Session, n: nat)
    requires Consistent(s)
    ensures var r := Step(s, DeleteLastCharacters(n));
      && (r.Ok? <==> n <= |s.text|)
      && (r.Err? ==> r.error == DeleteUnderflow(n, |s.text|))
      && (r.Ok? ==>
            && r.value.output == s.output
            && r.value.events == s.events + [LastCharactersDeleted(n, s.text[|s.text| - n..])]
            && r.value.text + s.text[|s.text| - n..] == s.text)
  {
  }

  /** Print succeeds exactly for positions 1..|text|; it writes the one
      character at that position as one more output line and changes
      neither the text nor the log. */
  lemma StepPrint(s: Session, p: nat)
    requires Consistent(s)
    ensures var r := Step(s, PrintCharacter(p));
      && (r.Ok? <==> 1 <= p <= |s.text|)
      && (r.Err? ==> r.error == IndexOutOfRange(p, |s.text|))
      && (r.Ok? ==> r.value == Session(s.text, s.events, s.output + [[s.text[p - 1]]]))
  {
    if 1 <= p <= |s.text| {
      assert CharacterAt(s.text, p) == [s.text[p - 1]];
    }
  }

  /** Undo on an empty log is a no-op; otherwise it removes only the last
      event, and the text becomes the one the remaining log replays to,
      that is, the text from before that event. */
  lemma StepUndo(s: Session)
    requires Consistent(s)
    ensures s.events == [] ==> Step(s, UndoLastEdit) == Ok(s)
    ensures s.events != [] ==>
      var r := Step(s, UndoLastEdit);
      && r.Ok?
      && r.value.events == s.events[..|s.events| - 1]
      && r.value.output == s.output
      && Replay(r.value.events) == Some(r.value.text)
  {
  }

  /** One input line against a session: a blank line ends the session
      (false, nothing changes); any other line is parsed and run, and a
      recognised command that runs reports true. */
  function NextSpec(s: Session, line: string): (r: Result<(bool, Session)>)
    requires Consistent(s)
    ensures IsBlank(line) ==> r == Ok((false, s))
    ensures !IsBlank(line) && r.Ok? ==> r.value.0
    ensures r.Ok? ==> Consistent(r.value.1) && s.output <= r.value.1.output
    ensures !IsBlank(line) && ParseCommand(line).Err? ==> r == Err(ParseCommand(line).error)
    ensures !IsBlank(line) && ParseCommand(line).Ok? ==>
      r == match Step(s, ParseCommand(line).value)
           case Err(e) => Err(e)
           case Ok(s1) => Ok((true, s1))
  {
    if IsBlank(line) then Ok((false, s))
    else
      match ParseCommand(line)
      case Err(e) => Err(e)
      case Ok(c) =>
        match Step(s, c)
        case Err(e) => Err(e)
        case Ok(s1) => Ok((true, s1))
  }

  /** Where a run stops: the session at that point, and the error that
      stopped it, if one did. */
  datatype Halt = Halt(session: Session, failure: Option<Error>)

  /** Runs lines until a blank line, the end of the input (read as an empty
      line) or an error. A failing line leaves the session as it was. */
  function RunFrom(s: Session, lines: seq<string>): (h: Halt)
    requires Consistent(s)
    ensures Consistent(h.session)
    ensures s.output <= h.session.output
    decreases |lines|
  {
    var line := if lines == [] then "" else lines[0];
    match NextSpec(s, line)
    case Err(e) => Halt(s, Some(e))
    case Ok((more, s1)) => if more then RunFrom(s1, lines[1..]) else Halt(s1, None)
  }

  /** At the end of the input the run stops cleanly where it is. */
  lemma RunFromEnd(s: Session)
    requires Consistent(s)
    ensures RunFrom(s, []) == Halt(s, None)
  {
  }

  /** A blank line stops the run cleanly, whatever lines follow it. */
  lemma RunFromBlank(s: Session, line: string, more: seq<string>)
    requires Consistent(s)
    requires IsBlank(line)
    ensures RunFrom(s, [line] + more) == Halt(s, None)
  {
  }

  /** The first line that fails stops the run with its error, leaving the
      session as it was before that line; later lines are never read. */
  lemma RunFromFailure(s: Session, line: string, more: seq<string>)
    requires Consistent(s)
    requires NextSpec(s, line).Err?
    ensures RunFrom(s, [line] + more) == Halt(s, Some(NextSpec(s, line).error))
  {
  }

  /** A line that runs successfully hands the run on to the next line, from
      the session that line produced. */
  lemma RunFromContinue(s: Session, line: string, more: seq<string>)
    requires Consistent(s)
    requires NextSpec(s, line).Ok? && NextSpec(s, line).value.0
    ensures RunFrom(s, [line] + more) == RunFrom(NextSpec(s, line).value.1, more)
  {
    assert ([line] + more)[1..] == more;
  }

  /** A whole session from an empty buffer: the first line is the declared
      command count, parsed and then ignored; the rest are commands. */
  function RunSpec(lines: seq<string>): (h: Halt)
    ensures Consistent(h.session)
    ensures var header := if lines == [] then "" else lines[0];
      && (ParseNat(header).None? ==> h == Halt(EmptySession, Some(MalformedArgument(header))))
      && (ParseNat(header).Some? ==> h == RunFrom(EmptySession, lines[1..]))
  {
    var header := if lines == [] then "" else lines[0];
    if ParseNat(header).None? then Halt(EmptySession, Some(MalformedArgument(header)))
    else RunFrom(EmptySession, lines[1..])
  }

  // ---------------------------------------------------------------------
  // The processor object
  // ---------------------------------------------------------------------

  class EditorProcessor {
    var text: string
    var events: seq<Event>
    var output: seq<string>

    function Current(): Session
      reads this
    {
      Session(text, events, output)
    }

    ghost predicate Valid()
      reads this
    {
      Consistent(Current())
    }

    /** A new session: empty text, empty log, nothing written. */
    constructor ()
      ensures Valid() && Current() == EmptySession
    {
      text, events, output := "", [], [];
    }

    /** Reads the declared command count and discards it; only a line that
      is not a decimal number fails. */
    method Initialize(header: string) returns (r: Option<Error>)
      ensures r.None? <==> |header| > 0 && AllDigits(header) && DigitsValue(header) <= Int32Max
      ensures r.Some? ==> r.value == MalformedArgument(header)
    {
      if ParseNat(header).None? {
        return Some(MalformedArgument(header));
      }
      return None;
    }

    /** Processes one input line. */
    method Next(line: string) returns (r: Result<bool>)
      requires Valid()
      modifies this
      ensures Valid()
      ensures match NextSpec(old(Current()), line)
        case Ok((more, s)) => r == Ok(more) && Current() == s
        case Err(e) => r == Err(e) && Current() == old(Current())
    {
      if IsBlank(line) {
        return Ok(false);
      }
      var command := ParseCommand(line);
      if command.Err? {
        return Err(command.error);
      }
      var failure := Execute(command.value);
      if failure.Some? {
        return Err(failure.value);
      }
      return Ok(true);
    }

    /** Runs one parsed command through the overload that handles it. */
    method Execute(c: Command) returns (failure: Option<Error>)
      requires Valid()
      modifies this
      ensures Valid()
      ensures match Step(old(Current()), c)
        case Ok(s) => failure == None && Current() == s
        case Err(e) => failure == Some(e) && Current() == old(Current())
    {
      ghost var before := Current();
      match c {
        case AppendString(t) =>
          StepAppend(before, t);
          ProcessAppend(t);
          failure := None;
        case DeleteLastCharacters(n) =>
          StepDelete(before, n);
          failure := ProcessDelete(n);
        case PrintCharacter(p) =>
          StepPrint(before, p);
          failure := ProcessPrint(p);
        case UndoLastEdit =>
          ProcessUndo();
          failure := None;
      }
    }

    /** Records the append event, then applies it. */
    method ProcessAppend(t: string)
      requires Valid()
      modifies this
      ensures Valid()
      ensures text == old(text) + t
      ensures events == old(events) + [StringAppended(t)]
      ensures output == old(output)
    {
      var evt := Append(text, t);
      ReplayPush(events, text, evt);
      events := events + [evt];
      text := Apply(text, evt);
    }

    /** Records the delete event, then applies it; a count larger than the
      text fails before anything changes. */
    method ProcessDelete(n: nat) returns (failure: Option<Error>)
      requires Valid()
      modifies this
      ensures Valid()
      ensures failure.None? <==> n <= |old(text)|
      ensures failure.Some? ==>
        failure.value == DeleteUnderflow(n, |old(text)|) && Current() == old(Current())
      ensures failure.None? ==>
        && events == old(events) + [LastCharactersDeleted(n, old(text)[|old(text)| - n..])]
        && text == old(text)[..|old(text)| - n]
        && output == old(output)
    {
      var evt := Delete(text, n);
      if evt.Err? {
        return Some(evt.error);
      }
      ReplayPush(events, text, evt.value);
      events := events + [evt.value];
      text := Apply(text, evt.value);
      return None;
    }

    /** Writes the character at 1-based position `p` as one output line. */
    method ProcessPrint(p: nat) returns (failure: Option<Error>)
      requires Valid()
      modifies this
      ensures Valid()
      ensures failure.None? <==> 1 <= p <= |old(text)|
      ensures failure.Some? ==> failure.value == IndexOutOfRange(p, |old(text)|)
      ensures text == old(text) && events == old(events)
      ensures output == if failure.None? then old(output) + [[old(text)[p - 1]]] else old(output)
    {
      if !(1 <= p <= |text|) {
        return Some(IndexOutOfRange(p, |text|));
      }
      var c := CharacterAt(text, p);
      assert c == [text[p - 1]];
      output := output + [c];
      return None;
    }

    /** Pops the last event and undoes it; with an empty log, does nothing. */
    method ProcessUndo()
      requires Valid()
      modifies this
      ensures Valid()
      ensures Current() == Step(old(Current()), UndoLastEdit).value
    {
      if |events| == 0 {
        return;
      }
      var lastIndex := |events| - 1;
      var lastEvent := events[lastIndex];
      ReplayPop(events, text);
      events := events[..lastIndex];
      text := Undo(text, lastEvent);
    }
  }

  /** A whole session over a list of input lines, as the runner drives it:
      read the header, then call Next until it reports no more work or
      fails. The input source yields the empty line once the list is used
      up. */
  method RunSession(lines: seq<string>) returns (h: Halt)
    ensures h == RunSpec(lines)
  {
    var processor := new EditorProcessor();
    var header := if lines == [] then "" else lines[0];
    var init := processor.Initialize(header);
    if init.Some? {
      return Halt(processor.Current(), init);
    }
    var i := 1;
    while true
      invariant processor.Valid()
      invariant 1 <= i <= |lines|
      invariant RunFrom(processor.Current(), lines[i..]) == RunSpec(lines)
      decreases |lines| - i
    {
      var line := if i < |lines| then lines[i] else "";
      var r := processor.Next(line);
      if r.Err? {
        return Halt(processor.Current(), Some(r.error));
      }
      if !r.value {
        return Halt(processor.Current(), None);
      }
      i := i + 1;
    }
  }
}
