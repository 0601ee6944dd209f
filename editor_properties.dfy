/** Properties of sessions that span several commands: undo reverses edits
    one at a time in last-in first-out order, printing after an append reads
    the appended text, and the recorded session of the test suite. */
module EditorProperties {
  import opened EditorTypes
  import opened EditorEvents
  import opened CommandParsing
  import opened EditorProcessing

  /** Runs commands in order, stopping at the first that fails. */
  function Exec(s: Session, cs: seq<Command>): (r: Result<Session>)
    requires Consistent(s)
    ensures r.Ok? ==> Consistent(r.value) && s.output <= r.value.output
    decreases |cs|
  {
    if cs == [] then Ok(s)
    else
      match Step(s, cs[0])
      case Err(e) => Err(e)
      case Ok(s1) => Exec(s1, cs[1..])
  }

  /** `k` undo commands in a row. */
  function Undos(k: nat): seq<Command>
  {
    seq(k, _ => UndoLastEdit)
  }

  predicate IsEdit(c: Command)
  {
    c.AppendString? || c.DeleteLastCharacters?
  }

  /** Running `a` and then `b` is running `a + b`. */
  lemma {:induction false} ExecConcat(s: Session, a: seq<Command>, b: seq<Command>)
    requires Consistent(s)
    ensures Exec(s, a + b) == match Exec(s, a) case Err(e) => Err(e) case Ok(s1) => Exec(s1, b)
    decreases |a|
  {
    if a != [] {
      assert (a + b)[0] == a[0];
      assert (a + b)[1..] == a[1..] + b;
      match Step(s, a[0])
      case Err(_) =>
      case Ok(s1) => ExecConcat(s1, a[1..], b);
    } else {
      assert a + b == b;
    }
  }

  /** An edit followed by an undo gives back exactly the session it started
      from: text, log and output. */
  lemma EditThenUndo(s: Session, c: Command)
    requires Consistent(s)
    requires IsEdit(c)
    requires Step(s, c).Ok?
    ensures Step(Step(s, c).value, UndoLastEdit) == Ok(s)
  {
    var s1 := Step(s, c).value;
    StepUndo(s1);
    if c.AppendString? {
      StepAppend(s, c.text);
    } else {
      StepDelete(s, c.charactersCount);
    }
    assert s1.events[..|s1.events| - 1] == s.events;
  }

  /** Any run of successful edits followed by as many undos restores the
      starting session: undos reverse edits in strict last-in first-out
      order, each one reversing exactly one edit. */
  lemma {:induction false} EditsThenUndos(s: Session, cs: seq<Command>)
    requires Consistent(s)
    requires forall i :: 0 <= i < |cs| ==> IsEdit(cs[i])
    requires Exec(s, cs).Ok?
    ensures Exec(Exec(s, cs).value, Undos(|cs|)) == Ok(s)
    decreases |cs|
  {
    if cs != [] {
      var s1 := Step(s, cs[0]).value;
      var rest := cs[1..];
      assert Exec(s, cs) == Exec(s1, rest);
      assert forall i :: 0 <= i < |rest| ==> IsEdit(rest[i]) by {
        forall i | 0 <= i < |rest| ensures IsEdit(rest[i]) {
          assert rest[i] == cs[i + 1];
        }
      }
      EditsThenUndos(s1, rest);
      var last := Exec(s, cs).value;
      assert Undos(|cs|) == Undos(|rest|) + [UndoLastEdit];
      ExecConcat(last, Undos(|rest|), [UndoLastEdit]);
      EditThenUndo(s, cs[0]);
      assert Exec(s1, [UndoLastEdit]) == Step(s1, UndoLastEdit);
    }
  }

  /** `k` undos on a log of at least `k` events drop its last `k` events,
      leave the output alone, and bring back the text that the remaining
      log replays to. */
  lemma {:induction false} UndosPopLog(s: Session, k: nat)
    requires Consistent(s)
    requires k <= |s.events|
    ensures var rest := s.events[..|s.events| - k];
      && Replay(rest).Some?
      && Exec(s, Undos(k)) == Ok(Session(Replay(rest).value, rest, s.output))
    decreases k
  {
    var rest := s.events[..|s.events| - k];
    ReplayPrefix(s.events, |s.events| - k);
    if k == 0 {
      assert rest == s.events;
    } else {
      StepUndo(s);
      var s1 := Step(s, UndoLastEdit).value;
      assert Undos(k)[0] == UndoLastEdit;
      assert Undos(k)[1..] == Undos(k - 1);
      UndosPopLog(s1, k - 1);
      assert s1.events[..|s1.events| - (k - 1)] == rest;
    }
  }

  /** After appending `t`, printing position |text| + i writes the i-th
      character of `t`, and only that. */
  lemma AppendThenPrint(s: Session, t: string, i: nat)
    requires Consistent(s)
    requires 1 <= i <= |t|
    ensures Step(s, AppendString(t)).Ok?
    ensures Step(Step(s, AppendString(t)).value, PrintCharacter(|s.text| + i))
         == Ok(Session(s.text + t, s.events + [StringAppended(t)], s.output + [[t[i - 1]]]))
  {
    StepAppend(s, t);
    var s1 := Step(s, AppendString(t)).value;
    StepPrint(s1, |s.text| + i);
    assert s1.text[|s.text| + i - 1] == t[i - 1];
  }

  /** A formatted command line runs exactly that command. */
  lemma NextFormatted(s: Session, c: Command)
    requires Consistent(s)
    requires Representable(c)
    ensures NextSpec(s, FormatCommand(c)) ==
      match Step(s, c) case Err(e) => Err(e) case Ok(s1) => Ok((true, s1))
  {
    ParseFormat(c);
  }

  /** A run whose next line is the formatted form of a command that
      succeeds continues from the session that command produces. */
  lemma RunFromFormatted(s: Session, lines: seq<string>, c: Command)
    requires Consistent(s)
    requires Representable(c)
    requires lines != [] && lines[0] == FormatCommand(c)
    requires Step(s, c).Ok?
    ensures RunFrom(s, lines) == RunFrom(Step(s, c).value, lines[1..])
  {
    NextFormatted(s, c);
  }

  /** The input lines that stand for a list of commands. */
  function Script(cs: seq<Command>): (lines: seq<string>)
    ensures |lines| == |cs|
  {
    seq(|cs|, i requires 0 <= i < |cs| => FormatCommand(cs[i]))
  }

  /** The first line of a script is its first command; the rest of the
      lines are the script of the remaining commands. */
  lemma ScriptCons(cs: seq<Command>, tail: seq<string>)
    requires cs != []
    ensures (Script(cs) + tail)[0] == FormatCommand(cs[0])
    ensures (Script(cs) + tail)[1..] == Script(cs[1..]) + tail
  {
    assert Script(cs)[1..] == Script(cs[1..]);
  }

  /** Feeding the lines of a script whose commands all succeed runs exactly
      those commands, and the run goes on with whatever lines follow. */
  lemma {:induction false} RunScript(s: Session, cs: seq<Command>, tail: seq<string>)
    requires Consistent(s)
    requires forall i :: 0 <= i < |cs| ==> Representable(cs[i])
    requires Exec(s, cs).Ok?
    ensures RunFrom(s, Script(cs) + tail) == RunFrom(Exec(s, cs).value, tail)
    decreases |cs|
  {
    if cs == [] {
      assert Script(cs) + tail == tail;
    } else {
      var s1 := Step(s, cs[0]).value;
      ScriptCons(cs, tail);
      RunFromFormatted(s, Script(cs) + tail, cs[0]);
      assert Exec(s, cs) == Exec(s1, cs[1..]);
      forall i | 0 <= i < |cs[1..]| ensures Representable(cs[1..][i]) {
        assert cs[1..][i] == cs[i + 1];
      }
      RunScript(s1, cs[1..], tail);
    }
  }

  /** One successful command at the head of a list. */
  lemma ExecCons(s: Session, cs: seq<Command>)
    requires Consistent(s)
    requires cs != [] && Step(s, cs[0]).Ok?
    ensures Exec(s, cs) == Exec(Step(s, cs[0]).value, cs[1..])
  {
  }

  /** The commands of the session recorded in the test suite: append "abc",
      print 3, delete 3, append "xy", print 2, undo, undo, print 1. */
  function RecordedCommands(): seq<Command>
  {
    [AppendString("abc"), PrintCharacter(3), DeleteLastCharacters(3), AppendString("xy"),
     PrintCharacter(2), UndoLastEdit, UndoLastEdit, PrintCharacter(1)]
  }

  /** The sessions the recorded commands pass through, before the k-th
      command (k = 0..8). */
  function RecordedState(k: nat): Session
    requires k <= 8
  {
    var e1, e2, e3 := StringAppended("abc"), LastCharactersDeleted(3, "abc"), StringAppended("xy");
    [Session("", [], []),
     Session("abc", [e1], []),
     Session("abc", [e1], ["c"]),
     Session("", [e1, e2], ["c"]),
     Session("xy", [e1, e2, e3], ["c"]),
     Session("xy", [e1, e2, e3], ["c", "y"]),
     Session("", [e1, e2], ["c", "y"]),
     Session("abc", [e1], ["c", "y"]),
     Session("abc", [e1], ["c", "y", "a"])][k]
  }

  /** Each recorded command takes its session to the next one. */
  lemma RecordedStep(k: nat)
    requires k < 8
    requires Consistent(RecordedState(k))
    ensures Step(RecordedState(k), RecordedCommands()[k]) == Ok(RecordedState(k + 1))
  {
    if k == 0 {
      RecordedAppendFirst();
    } else if k == 3 {
      RecordedAppendSecond();
    } else if k == 2 {
      RecordedDelete();
    } else if k == 5 || k == 6 {
      RecordedUndo(k);
    } else if k == 1 {
      RecordedPrintFirst();
    } else if k == 4 {
      RecordedPrintSecond();
    } else {
      RecordedPrintThird();
    }
  }

  lemma RecordedAppendFirst()
    requires Consistent(RecordedState(0))
    ensures Step(RecordedState(0), RecordedCommands()[0]) == Ok(RecordedState(1))
  {
    var s := RecordedState(0);
    StepAppend(s, "abc");
    assert s.text + "abc" == "abc" && s.events + [StringAppended("abc")] == [StringAppended("abc")];
  }

  lemma RecordedAppendSecond()
    requires Consistent(RecordedState(3))
    ensures Step(RecordedState(3), RecordedCommands()[3]) == Ok(RecordedState(4))
  {
    var s := RecordedState(3);
    var e1, e2, e3 := StringAppended("abc"), LastCharactersDeleted(3, "abc"), StringAppended("xy");
    StepAppend(s, "xy");
    assert s.text + "xy" == "xy" && s.events + [e3] == [e1, e2, e3];
  }

  lemma RecordedDelete()
    requires Consistent(RecordedState(2))
    ensures Step(RecordedState(2), RecordedCommands()[2]) == Ok(RecordedState(3))
  {
    var s := RecordedState(2);
    var e1, e2 := StringAppended("abc"), LastCharactersDeleted(3, "abc");
    StepDelete(s, 3);
    assert "abc"[3 - 3..] == "abc";
    assert s.events + [e2] == [e1, e2];
    assert |Step(s, DeleteLastCharacters(3)).value.text| == 0;
  }

  lemma RecordedUndo(k: nat)
    requires k == 5 || k == 6
    requires Consistent(RecordedState(k))
    ensures Step(RecordedState(k), RecordedCommands()[k]) == Ok(RecordedState(k + 1))
  {
    var s := RecordedState(k);
    var e1, e2 := StringAppended("abc"), LastCharactersDeleted(3, "abc");
    StepUndo(s);
    if k == 5 {
      assert s.events[..2] == [e1, e2];
    } else {
      assert s.events[..1] == [e1];
      assert Replay([e1]) == Some("abc");
    }
  }

  lemma RecordedPrintFirst()
    requires Consistent(RecordedState(1))
    ensures Step(RecordedState(1), RecordedCommands()[1]) == Ok(RecordedState(2))
  {
    var s := RecordedState(1);
    StepPrint(s, 3);
    assert s.output + [[s.text[2]]] == ["c"];
  }

  lemma RecordedPrintSecond()
    requires Consistent(RecordedState(4))
    ensures Step(RecordedState(4), RecordedCommands()[4]) == Ok(RecordedState(5))
  {
    var s := RecordedState(4);
    StepPrint(s, 2);
    assert s.output + [[s.text[1]]] == ["c", "y"];
  }

  lemma RecordedPrintThird()
    requires Consistent(RecordedState(7))
    ensures Step(RecordedState(7), RecordedCommands()[7]) == Ok(RecordedState(8))
  {
    var s := RecordedState(7);
    StepPrint(s, 1);
    assert s.output + [[s.text[0]]] == ["c", "y", "a"];
  }

  /** From the k-th recorded session, the remaining recorded commands reach
      the last one. */
  lemma {:induction false} RecordedRest(k: nat)
    requires k <= 8
    requires Consistent(RecordedState(k))
    ensures Exec(RecordedState(k), RecordedCommands()[k..]) == Ok(RecordedState(8))
    decreases 8 - k
  {
    var cs := RecordedCommands()[k..];
    if k < 8 {
      RecordedStep(k);
      assert cs[0] == RecordedCommands()[k] && cs[1..] == RecordedCommands()[k + 1..];
      ExecCons(RecordedState(k), cs);
      RecordedRest(k + 1);
    } else {
      assert cs == [];
    }
  }

  /** Those commands write "c", "y", "a", and leave "abc" with one append in
      the log. */
  lemma RecordedCommandsRun(s: Session, cs: seq<Command>)
    requires s == EmptySession && cs == RecordedCommands()
    ensures Exec(s, cs).Ok?
    ensures var r := Exec(s, cs).value;
      r.text == "abc" && r.events == [StringAppended("abc")] && r.output == ["c", "y", "a"]
  {
    assert RecordedState(0) == s;
    assert cs[0..] == cs;
    RecordedRest(0);
  }

  /** The input lines of the recorded commands. */
  lemma RecordedScript()
    ensures Script(RecordedCommands()) == ["1 abc", "3 3", "2 3", "1 xy", "3 2", "4", "4", "3 1"]
  {
    assert DecimalString(3) == "3" && DecimalString(2) == "2" && DecimalString(1) == "1";
    var script := Script(RecordedCommands());
    assert script[0] == "1 abc" && script[1] == "3 3" && script[2] == "2 3" && script[3] == "1 xy";
    assert script[4] == "3 2" && script[5] == "4" && script[6] == "4" && script[7] == "3 1";
  }

  /** A session whose header parses and whose command lines are the script
      of commands that all succeed ends, without error, in the session those
      commands produce from the empty one. */
  lemma RunSpecScript(lines: seq<string>, cs: seq<Command>)
    requires lines != [] && ParseNat(lines[0]).Some?
    requires lines[1..] == Script(cs)
    requires forall i :: 0 <= i < |cs| ==> Representable(cs[i])
    requires Exec(EmptySession, cs).Ok?
    ensures RunSpec(lines) == Halt(Exec(EmptySession, cs).value, None)
  {
    RunScript(EmptySession, cs, []);
    assert Script(cs) + [] == Script(cs);
    var last := Exec(EmptySession, cs).value;
    assert RunFrom(last, []) == Halt(last, None);
  }

  /** The recorded commands, as far as the run of the recorded lines needs
      to know them. */
  lemma RecordedFacts() returns (cs: seq<Command>)
    ensures Script(cs) == ["1 abc", "3 3", "2 3", "1 xy", "3 2", "4", "4", "3 1"]
    ensures forall i :: 0 <= i < |cs| ==> Representable(cs[i])
    ensures Exec(EmptySession, cs).Ok?
    ensures var r := Exec(EmptySession, cs).value;
      r.text == "abc" && r.events == [StringAppended("abc")] && r.output == ["c", "y", "a"]
  {
    cs := RecordedCommands();
    assert forall i :: 0 <= i < |cs| ==> Representable(cs[i]);
    RecordedScript();
    RecordedCommandsRun(EmptySession, cs);
  }

  /** The session recorded in the test suite: the declared count 8, then the
      eight commands, then the end of input. It writes "c", "y", "a" and
      ends without error, with "abc" in the buffer. */
  lemma RecordedSession(lines: seq<string>)
    requires lines == ["8", "1 abc", "3 3", "2 3", "1 xy", "3 2", "4", "4", "3 1"]
    ensures RunSpec(lines).failure == None
    ensures RunSpec(lines).session.output == ["c", "y", "a"]
    ensures RunSpec(lines).session.text == "abc"
    ensures RunSpec(lines).session.events == [StringAppended("abc")]
  {
    var cs := RecordedFacts();
    assert ParseNat(lines[0]).Some? by {
      assert DecimalString(8) == "8";
      DecimalStringValue(8);
    }
    assert lines[1..] == Script(cs);
    RunSpecScript(lines, cs);
  }
}
