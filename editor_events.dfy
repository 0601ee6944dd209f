/** The event-sourcing core: the aggregate turns a command and the current
    text into an event, the applier moves the text forward over an event
    (Apply) or back over it (Undo), and Replay rebuilds a text from a log. */
module EditorEvents {
  import opened EditorTypes

  // ---------------------------------------------------------------------
  // Aggregate
  // ---------------------------------------------------------------------

  /** The event for appending `t`. It records the text verbatim and looks at
      the current text only to say what applying it will produce. */
  function Append(text: string, t: string): (e: Event)
    ensures e.StringAppended? && e.appendedText == t
  {
    StringAppended(t)
  }

  /** The event for deleting the last `n` characters of `text`: it records
      exactly the characters that go. Asking for more characters than the
      text has fails, as the slice in the C# code does. */
  function Delete(text: string, n: nat): (r: Result<Event>)
    ensures r.Ok? <==> n <= |text|
    ensures r.Err? ==> r.error == DeleteUnderflow(n, |text|)
    ensures r.Ok? ==> r.value.LastCharactersDeleted? && r.value.charactersCount == n
    ensures r.Ok? ==> |r.value.deletedText| == n
    ensures r.Ok? ==> text == text[..|text| - n] + r.value.deletedText
  {
    if n <= |text| then Ok(LastCharactersDeleted(n, text[|text| - n..]))
    else Err(DeleteUnderflow(n, |text|))
  }

  /** `e` is an event the aggregate produces from `text`: any append, or a
      deletion whose recorded characters are the actual tail of `text`. */
  predicate Produced(text: string, e: Event)
  {
    e.LastCharactersDeleted? ==> Delete(text, e.charactersCount) == Ok(e)
  }

  // ---------------------------------------------------------------------
  // Applier
  // ---------------------------------------------------------------------

  /** Apply can only be asked to delete characters that exist. */
  predicate CanApply(text: string, e: Event)
  {
    e.LastCharactersDeleted? ==> e.charactersCount <= |text|
  }

  /** Undo can only be asked to strip an append that fits in the text. */
  predicate CanUndo(text: string, e: Event)
  {
    e.StringAppended? ==> |e.appendedText| <= |text|
  }

  /** The text after `e`: an append adds its text at the end, a deletion
      keeps all but the last `charactersCount` characters. */
  function Apply(text: string, e: Event): (r: string)
    requires CanApply(text, e)
    ensures e.StringAppended? ==> |r| == |text| + |e.appendedText|
    ensures e.StringAppended? ==> r[..|text|] == text && r[|text|..] == e.appendedText
    ensures e.LastCharactersDeleted? ==> |r| == |text| - e.charactersCount
    ensures e.LastCharactersDeleted? ==> r == text[..|r|]
  {
    match e
    case StringAppended(t) => text + t
    case LastCharactersDeleted(n, _) => text[..|text| - n]
  }

  /** The text before `e`: an append is removed by length (not by matching
      its content), a deletion is reversed by putting its recorded
      characters back at the end. */
  function Undo(text: string, e: Event): (r: string)
    requires CanUndo(text, e)
    ensures e.StringAppended? ==> |r| == |text| - |e.appendedText|
    ensures e.StringAppended? ==> r == text[..|r|]
    ensures e.LastCharactersDeleted? ==> |r| == |text| + |e.deletedText|
    ensures e.LastCharactersDeleted? ==> r[..|text|] == text && r[|text|..] == e.deletedText
  {
    match e
    case StringAppended(t) => text[..|text| - |t|]
    case LastCharactersDeleted(_, d) => text + d
  }

  /** Undo reverses Apply exactly, content and not only length, for every
      event the aggregate can produce from the text. */
  lemma UndoApply(text: string, e: Event)
    requires Produced(text, e)
    ensures CanApply(text, e) && CanUndo(Apply(text, e), e)
    ensures Undo(Apply(text, e), e) == text
  {
    match e
    case StringAppended(t) =>
      assert (text + t)[..|text|] == text;
    case LastCharactersDeleted(n, d) =>
      assert d == text[|text| - n..];
      assert text[..|text| - n] + text[|text| - n..] == text;
  }

  /** Conversely, Apply redoes Undo when the undone append really is the
      tail of the text and the deletion records as many characters as it
      counts. */
  lemma ApplyUndo(text: string, e: Event)
    requires e.StringAppended? ==> |e.appendedText| <= |text| && text[|text| - |e.appendedText|..] == e.appendedText
    requires e.LastCharactersDeleted? ==> |e.deletedText| == e.charactersCount
    ensures CanUndo(text, e) && CanApply(Undo(text, e), e)
    ensures Apply(Undo(text, e), e) == text
  {
    match e
    case StringAppended(t) =>
      assert text[..|text| - |t|] + text[|text| - |t|..] == text;
    case LastCharactersDeleted(n, d) =>
      assert (text + d)[..|text|] == text;
  }

  /** Undoing a recorded deletion restores the text from before the delete,
      whatever was deleted. */
  lemma UndoDelete(text: string, n: nat)
    requires n <= |text|
    ensures Delete(text, n).Ok?
    ensures Undo(Apply(text, Delete(text, n).value), Delete(text, n).value) == text
  {
    UndoApply(text, Delete(text, n).value);
  }

  // ---------------------------------------------------------------------
  // Replay of a log
  // ---------------------------------------------------------------------

  /** The text obtained by applying `events` in order to the empty text, or
      None when some event is not one the aggregate would have produced at
      that point. */
  function Replay(events: seq<Event>): Option<string>
    decreases |events|
  {
    if events == [] then Some("")
    else
      var last := events[|events| - 1];
      match Replay(events[..|events| - 1])
      case None => None
      case Some(t) => if Produced(t, last) then Some(Apply(t, last)) else None
  }

  /** Pushing an event the aggregate produced from the current text keeps
      the log and the text in step. */
  lemma ReplayPush(events: seq<Event>, text: string, e: Event)
    requires Replay(events) == Some(text)
    requires Produced(text, e)
    ensures CanApply(text, e)
    ensures Replay(events + [e]) == Some(Apply(text, e))
  {
    assert (events + [e])[..|events|] == events;
  }

  /** Popping the last event of a consistent log leaves a consistent log
      whose text is what Undo computes from the current text: undo goes
      back exactly one step. */
  lemma ReplayPop(events: seq<Event>, text: string)
    requires events != []
    requires Replay(events) == Some(text)
    ensures CanUndo(text, events[|events| - 1])
    ensures Replay(events[..|events| - 1]) == Some(Undo(text, events[|events| - 1]))
  {
    var last := events[|events| - 1];
    var prev := Replay(events[..|events| - 1]);
    assert prev.Some? && Produced(prev.value, last) && text == Apply(prev.value, last);
    UndoApply(prev.value, last);
  }

  /** Every prefix of a consistent log is consistent: each intermediate text
      of the history can be recovered. */
  lemma {:induction false} ReplayPrefix(events: seq<Event>, k: nat)
    requires Replay(events).Some?
    requires k <= |events|
    ensures Replay(events[..k]).Some?
    decreases |events| - k
  {
    if k < |events| {
      var shorter := events[..|events| - 1];
      assert Replay(shorter).Some?;
      ReplayPrefix(shorter, k);
      assert shorter[..k] == events[..k];
    } else {
      assert events[..k] == events;
    }
  }
}
