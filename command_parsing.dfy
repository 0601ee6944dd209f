/** Turning one input line into a command: the blank-line test that ends a
    session, the split at the first space, and the decimal arguments. */
module CommandParsing {
  import opened EditorTypes

  /** The largest value of a 32-bit signed integer; a larger argument makes
      the C# code's `int.Parse` overflow. */
  const Int32Max: nat := 0x7FFF_FFFF

  /** The characters that .NET's whitespace test accepts. */
  predicate IsWhiteSpace(c: char)
  {
    ('\t' <= c <= '\r') || c == ' ' || c == '\U{0085}' || c == '\U{00A0}' ||
    c == '\U{1680}' || ('\U{2000}' <= c <= '\U{200A}') || c == '\U{2028}' ||
    c == '\U{2029}' || c == '\U{202F}' || c == '\U{205F}' || c == '\U{3000}'
  }

  /** A line that is empty or only whitespace, tested character by
      character from the front; the input source also reports an absent
      line as the empty line. */
  predicate IsBlank(line: string): (b: bool)
    ensures b <==> forall i :: 0 <= i < |line| ==> IsWhiteSpace(line[i])
  {
    line == [] || (IsWhiteSpace(line[0]) && IsBlank(line[1..]))
  }

  // ---------------------------------------------------------------------
  // Splitting at the first space
  // ---------------------------------------------------------------------

  /** Index of the first ' ' in `s`, or |s| when there is none. */
  function IndexOfSpace(s: string): (r: nat)
    ensures r <= |s|
    ensures r < |s| ==> s[r] == ' '
    ensures forall j :: 0 <= j < r ==> s[j] != ' '
  {
    if s == [] then 0
    else if s[0] == ' ' then 0
    else 1 + IndexOfSpace(s[1..])
  }

  /** Splits `line` into at most two parts at its first space, as
      `Split(' ', 2)` does: the operation token and, when there is a space,
      the whole rest of the line, embedded spaces included. */
  function SplitOnFirstSpace(line: string): (r: (string, Option<string>))
    ensures ' ' !in r.0
    ensures r.1.None? ==> r.0 == line
    ensures r.1.Some? ==> line == r.0 + " " + r.1.value
  {
    var i := IndexOfSpace(line);
    if i == |line| then (line, None)
    else
      assert line == line[..i] + " " + line[i + 1..];
      (line[..i], Some(line[i + 1..]))
  }

  /** Joining a space-free token and a rest with one space and splitting
      again gives back the same two parts. */
  lemma SplitJoin(op: string, rest: string)
    requires ' ' !in op
    ensures SplitOnFirstSpace(op + " " + rest) == (op, Some(rest))
  {
    var line := op + " " + rest;
    var i := IndexOfSpace(line);
    assert line[|op|] == ' ';
    assert forall j :: 0 <= j < |op| ==> line[j] == op[j];
    assert i == |op|;
    assert line[..i] == op;
    assert line[i + 1..] == rest;
  }

  // ---------------------------------------------------------------------
  // Decimal naturals
  // ---------------------------------------------------------------------

  predicate IsDigit(c: char)
  {
    '0' <= c <= '9'
  }

  predicate AllDigits(s: string)
  {
    forall i :: 0 <= i < |s| ==> IsDigit(s[i])
  }

  /** The value of a string of decimal digits, most significant first. */
  function DigitsValue(s: string): nat
    requires AllDigits(s)
    decreases |s|
  {
    if s == [] then 0
    else 10 * DigitsValue(s[..|s| - 1]) + (s[|s| - 1] as int - '0' as int)
  }

  /** The decimal digits of `n`, without leading zeros. */
  function DecimalString(n: nat): (s: string)
    ensures |s| > 0 && AllDigits(s)
  {
    var d := ['0' + (n % 10) as char];
    if n < 10 then d else DecimalString(n / 10) + d
  }

  /** Reading back the digits written for `n` gives `n`. */
  lemma {:induction false} DecimalStringValue(n: nat)
    ensures DigitsValue(DecimalString(n)) == n
  {
    var s := DecimalString(n);
    if n >= 10 {
      DecimalStringValue(n / 10);
      assert s[..|s| - 1] == DecimalString(n / 10);
    }
  }

  /** A command argument: a non-empty run of decimal digits whose value
      fits a 32-bit signed integer. */
  function ParseNat(s: string): (r: Option<nat>)
    ensures r.Some? <==> |s| > 0 && AllDigits(s) && DigitsValue(s) <= Int32Max
    ensures r.Some? ==> r.value <= Int32Max && r.value == DigitsValue(s)
  {
    if |s| > 0 && AllDigits(s) && DigitsValue(s) <= Int32Max then Some(DigitsValue(s)) else None
  }

  /** Every argument the parser accepts is read back from its own decimal
      form. */
  lemma ParseNatDecimal(n: nat)
    requires n <= Int32Max
    ensures ParseNat(DecimalString(n)) == Some(n)
  {
    DecimalStringValue(n);
  }

  // ---------------------------------------------------------------------
  // Commands
  // ---------------------------------------------------------------------

  /** Reads the decimal argument of a delete or print command. */
  function ParseArgument(rest: Option<string>): (r: Result<nat>)
    ensures r.Ok? <==> rest.Some? && ParseNat(rest.value).Some?
    ensures rest.None? ==> r == Err(MissingArgument)
    ensures r.Ok? ==> r.value <= Int32Max && r.value == DigitsValue(rest.value)
    ensures rest.Some? && ParseNat(rest.value).None? ==> r == Err(MalformedArgument(rest.value))
  {
    match rest
    case None => Err(MissingArgument)
    case Some(a) =>
      match ParseNat(a)
      case None => Err(MalformedArgument(a))
      case Some(n) => Ok(n)
  }

  /** The command on one non-blank input line: "1 <text>", "2 <n>",
      "3 <pos>" or "4". The operation token ends at the first space; for an
      append the rest of the line is the text, spaces and all; an undo
      ignores whatever follows its token. */
  function ParseCommand(line: string): (r: Result<Command>)
    ensures var (op, rest) := SplitOnFirstSpace(line);
      && (r.Ok? ==> op in {"1", "2", "3", "4"})
      && (op !in {"1", "2", "3", "4"} ==> r == Err(UnsupportedOperation(op)))
      && (op in {"1", "2", "3"} && rest.None? ==> r == Err(MissingArgument))
      && (op == "4" ==> r == Ok(UndoLastEdit))
      && (op == "1" && rest.Some? ==> r == Ok(AppendString(rest.value)))
      && (op in {"2", "3"} && rest.Some? ==>
            r == match ParseArgument(rest)
                 case Err(e) => Err(e)
                 case Ok(n) => Ok(if op == "2" then DeleteLastCharacters(n) else PrintCharacter(n)))
    ensures r.Ok? ==> Representable(r.value)
  {
    var (op, rest) := SplitOnFirstSpace(line);
    if op == "1" then
      match rest
      case None => Err(MissingArgument)
      case Some(t) => Ok(AppendString(t))
    else if op == "2" then
      match ParseArgument(rest)
      case Err(e) => Err(e)
      case Ok(n) => Ok(DeleteLastCharacters(n))
    else if op == "3" then
      match ParseArgument(rest)
      case Err(e) => Err(e)
      case Ok(p) => Ok(PrintCharacter(p))
    else if op == "4" then Ok(UndoLastEdit)
    else Err(UnsupportedOperation(op))
  }

  /** A command whose number, if it has one, is one the parser accepts. */
  predicate Representable(c: Command)
  {
    && (c.DeleteLastCharacters? ==> c.charactersCount <= Int32Max)
    && (c.PrintCharacter? ==> c.characterPosition <= Int32Max)
  }

  /** The input line that stands for a command, in the protocol's format. */
  function FormatCommand(c: Command): string
  {
    match c
    case AppendString(t) => "1 " + t
    case DeleteLastCharacters(n) => "2 " + DecimalString(n)
    case PrintCharacter(p) => "3 " + DecimalString(p)
    case UndoLastEdit => "4"
  }

  /** Parsing the formatted line of a command gives the command back, for
      every append text (empty, or holding spaces) and every argument that
      fits an Int32; and that line is never mistaken for the end of input. */
  lemma ParseFormat(c: Command)
    requires Representable(c)
    ensures !IsBlank(FormatCommand(c))
    ensures ParseCommand(FormatCommand(c)) == Ok(c)
  {
    match c
    case AppendString(t) => ParseFormatAppend(t);
    case DeleteLastCharacters(_) => ParseFormatNumbered(c);
    case PrintCharacter(_) => ParseFormatNumbered(c);
    case UndoLastEdit => ParseFormatUndo();
  }

  /** "1 " followed by any text, spaces included, is an append of that text. */
  lemma ParseFormatAppend(t: string)
    ensures !IsBlank(FormatCommand(AppendString(t)))
    ensures ParseCommand(FormatCommand(AppendString(t))) == Ok(AppendString(t))
  {
    var line := FormatCommand(AppendString(t));
    assert line == "1" + " " + t;
    SplitJoin("1", t);
    assert !IsWhiteSpace(line[0]);
  }

  /** "2 " or "3 " followed by the decimal form of a number that fits an
      Int32 is a delete or a print of that number. */
  lemma ParseFormatNumbered(c: Command)
    requires c.DeleteLastCharacters? || c.PrintCharacter?
    requires Representable(c)
    ensures !IsBlank(FormatCommand(c))
    ensures ParseCommand(FormatCommand(c)) == Ok(c)
  {
    var op := if c.DeleteLastCharacters? then "2" else "3";
    var n := if c.DeleteLastCharacters? then c.charactersCount else c.characterPosition;
    var line := FormatCommand(c);
    assert line == op + " " + DecimalString(n);
    SplitJoin(op, DecimalString(n));
    ParseNatDecimal(n);
    assert !IsWhiteSpace(line[0]);
  }

  /** "4" on its own is an undo. */
  lemma ParseFormatUndo()
    ensures !IsBlank(FormatCommand(UndoLastEdit))
    ensures ParseCommand(FormatCommand(UndoLastEdit)) == Ok(UndoLastEdit)
  {
    assert SplitOnFirstSpace("4") == ("4", None);
    assert !IsWhiteSpace("4"[0]);
  }
}
