/**
 The journal line decoder (`journal/journal.go`).

 A journal line is `command && action [&& revert]`, or a remark line that
 starts with `REM`. Each Go `UnmarshalText` method writes through
 its pointer receiver; here it is a function from the receiver's value before
 the call and the input to a `Run` carrying the receiver's value after it.
 Slicing out of bounds and indexing past the end of a slice are Go panics and
 appear as `Crash`.
 */
module Journal {
  import opened Outcomes
  import opened Text
  import Instructions

  type Instruction = Instructions.Instruction

  /** Go's `uint32`: the two named action instructions are single set bits. */
  newtype ActionInstruction = x: int | 0 <= x < 0x1_0000_0000

  const Nop: ActionInstruction := 1
  const Sysctl: ActionInstruction := 2

  /** The lookup table of `ActionInstruction.UnmarshalText`. */
  const ActionKeys: map<string, ActionInstruction> := map["NOP" := Nop, "SYSCTL" := Sysctl]

  datatype Command = Command(instruction: Instruction, args: seq<string>)

  datatype Action = Action(instruction: ActionInstruction, args: seq<string>)

  /** `Action` and `Revert` are pointers in the Go struct; `None` is nil. */
  datatype Entry = Entry(command: Command, action: Option<Action>, revert: Option<Command>)

  /** The zero values of a freshly declared `var`. */
  const ZeroCommand := Command(0, [])
  const ZeroAction := Action(0, [])
  const ZeroEntry := Entry(ZeroCommand, None, None)

  /** The clause separator. */
  const Sep := "&&"

  datatype Error =
    | EmptyLine                                // ErrEmptyLine
    | MissingAction                            // ErrMissingAction
    | EmptyCommand                             // "empty command"
    | EmptyAction                              // "empty action"
    | Vocabulary(inner: Instructions.Error)    // error of instruction.Instruction.UnmarshalText
    | UnknownActionInstruction(token: string)  // error of ActionInstruction.UnmarshalText
    | UnmarshalInstruction(cause: Error)       // "unmarshal instruction: %w"
    | ParseCommand(cause: Error)               // "parse command: %w"
    | ParseAction(cause: Error)                // "parse action: %w"
    | ParseRevert(cause: Error)                // "parse undo/revert command: %w"

  // ---------------------------------------------------------------------------
  // Action vocabulary

  /** `ActionInstruction.UnmarshalText` on a receiver holding `prev`. */
  function UnmarshalActionInstruction(prev: ActionInstruction, text: string): (r: Run<ActionInstruction, Error>)
    ensures !r.Crash?
    ensures r.Ok? <==> text in ActionKeys
    ensures text == "NOP" ==> r == Ok(Nop)
    ensures text == "SYSCTL" ==> r == Ok(Sysctl)
    ensures r.Err? ==> r == Err(prev, UnknownActionInstruction(text))
  {
    if text in ActionKeys then Ok(ActionKeys[text]) else Err(prev, UnknownActionInstruction(text))
  }

  /** No token is valid in both vocabularies. */
  lemma VocabulariesAreDisjoint(i: Instruction, a: ActionInstruction, p: string)
    ensures !(Instructions.Unmarshal(i, p).Ok? && UnmarshalActionInstruction(a, p).Ok?)
  {
    if p in ActionKeys {
      assert p == "NOP" || p == "SYSCTL";
    }
  }

  // ---------------------------------------------------------------------------
  // Clause parsers

  /** The argument-copy loop `for i, f := range src { args[i] = f }` into the
      slice `dst`, from index `i` on. Writing past the end of `dst` panics, so
      the loop succeeds exactly when `dst` has room for every element of `src`. */
  function CopyLoop(dst: seq<string>, src: seq<string>, i: nat): (r: Run<seq<string>, Error>)
    requires i <= |src| && i <= |dst|
    requires dst[..i] == src[..i]
    ensures r.Crash? <==> |dst| < |src|
    ensures !r.Err?
    ensures r.Ok? ==> |r.value| == |dst| && r.value[..|src|] == src && r.value[|src|..] == dst[|src|..]
    decreases |src| - i
  {
    if i == |src| then Ok(dst)
    else if i >= |dst| then Crash
    else
      var next := dst[i := src[i]];
      assert next[..i + 1] == src[..i + 1] by {
        assert next[..i] == dst[..i];
      }
      assert next[i + 1..] == dst[i + 1..];
      CopyLoop(next, src, i + 1)
  }

  /** `make([][]byte, n)`: n nil slices. */
  function Slots(n: nat): (s: seq<string>)
    ensures |s| == n
  {
    seq(n, _ => [])
  }

  /** `Command.UnmarshalText` on a receiver holding `c`. */
  function UnmarshalCommand(c: Command, input: string): (r: Run<Command, Error>)
    ensures !r.Crash?
    ensures AllSpace(input) ==> r == Err(c, EmptyCommand)
    ensures !AllSpace(input) ==> (r.Err? <==> Fields(input)[0] !in Instructions.Keys)
    ensures r.Err? ==> r.value == c
    // A clause with no arguments succeeds without writing the receiver.
    ensures r.Ok? && |Fields(input)| == 1 ==> r.value == c
    // Otherwise the head's tag and the remaining fields, in order.
    ensures r.Ok? && |Fields(input)| >= 2 ==>
              && r.value.instruction == Instructions.Keys[Fields(input)[0]]
              && Instructions.IsTag(r.value.instruction)
              && r.value.args == Fields(input)[1..]
  {
    if TrimSpace(input) == [] then Err(c, EmptyCommand)
    else
      var fields := Fields(input);
      match Instructions.Unmarshal(0, fields[0])
      case Err(_, e) => Err(c, UnmarshalInstruction(Vocabulary(e)))
      case Crash => Crash
      case Ok(tag) =>
        if |fields| < 2 then Ok(c)
        else
          match CopyLoop(Slots(|fields| - 1), fields[1..], 0)
          case Ok(args) => Ok(Command(tag, args))
          case _ => Crash
  }

  /** `Action.UnmarshalText` on a receiver holding `a`. The receiver is never
      written: a clause with a valid head and no arguments returns without
      writing, and one with arguments panics in its copy loop, which ranges
      over all n fields but has n - 1 slots. */
  function UnmarshalAction(a: Action, input: string): (r: Run<Action, Error>)
    ensures r.Ok? || r.Err? ==> r.value == a
    ensures AllSpace(input) ==> r == Err(a, EmptyAction)
    ensures r.Ok? <==> |Fields(input)| == 1 && Fields(input)[0] in ActionKeys
    ensures r.Crash? <==> |Fields(input)| >= 2 && Fields(input)[0] in ActionKeys
  {
    if TrimSpace(input) == [] then Err(a, EmptyAction)
    else
      var fields := Fields(input);
      match UnmarshalActionInstruction(0, fields[0])
      case Err(_, e) => Err(a, UnmarshalInstruction(e))
      case Crash => Crash
      case Ok(tag) =>
        if |fields| < 2 then Ok(a)
        else
          match CopyLoop(Slots(|fields| - 1), fields, 0)
          case Ok(args) => Ok(Action(tag, args))
          case _ => Crash
  }

  // ---------------------------------------------------------------------------
  // Entry decoder

  /** A line whose trimmed text begins with the printed name of Rem. */
  predicate IsRemark(text: string) {
    HasPrefix(TrimSpace(text), Instructions.Name(Instructions.Rem))
  }

  /** Where the action clause ends: at the last separator when there are two,
      otherwise at the end of the line. */
  function ActionEnd(input: string): int {
    var first := Index(input, Sep);
    var last := LastIndex(input, Sep);
    if last == first then |input| else last
  }

  /** The action clause is sliced from `first + 3` bytes, as if a single
      space always followed the first separator; the slice is inverted when that start
      passes its end. */
  predicate InvertedActionSpan(input: string) {
    Index(input, Sep) + |"&& "| > ActionEnd(input)
  }

  /** `Entry.UnmarshalText` on a receiver holding `e`. */
  function UnmarshalEntry(e: Entry, text: string): (r: Run<Entry, Error>)
    ensures AllSpace(text) ==> r == Err(e, EmptyLine)
    // Remark lines go whole to the command parser: never split, never crash,
    // and the action and revert are not touched.
    ensures IsRemark(text) ==>
              && !r.Crash?
              && r.value.action == e.action && r.value.revert == e.revert
              && (r.Err? <==> UnmarshalCommand(e.command, TrimSpace(text)).Err?)
              && r.value.command == UnmarshalCommand(e.command, TrimSpace(text)).value
    // Any other line needs a separator.
    ensures !AllSpace(text) && !IsRemark(text) && Index(TrimSpace(text), Sep) == -1 ==>
              r == Err(e, MissingAction)
    // Errors before the action is parsed, and action errors, leave the receiver as it was.
    ensures r.Err? && !IsRemark(text) && !r.error.ParseRevert? ==> r.value == e
    // A revert error comes after command and (zero) action have been written.
    ensures r.Err? && r.error.ParseRevert? ==>
              var input := TrimSpace(text);
              var first := Index(input, Sep);
              && 0 <= first < LastIndex(input, Sep)
              && r.value.command == UnmarshalCommand(ZeroCommand, TrimSpace(input[..first])).value
              && r.value.action == Some(ZeroAction)
              && r.value.revert == e.revert
    // Success on a non-remark line writes the command parsed from the text
    // before the first separator and an action, always the zero one since the
    // action parser never writes its receiver; the revert is written exactly
    // when the line has two distinct separators, parsed from the text after
    // the last one.
    ensures r.Ok? && !IsRemark(text) ==>
              var input := TrimSpace(text);
              var first := Index(input, Sep);
              var last := LastIndex(input, Sep);
              && 0 <= first <= last && last + |Sep| <= |input|
              && r.value.command == UnmarshalCommand(ZeroCommand, TrimSpace(input[..first])).value
              && r.value.action == Some(ZeroAction)
              && (first == last ==> r.value.revert == e.revert)
              && (first != last ==>
                    r.value.revert == Some(UnmarshalCommand(ZeroCommand, TrimSpace(input[last + |Sep|..])).value))
  {
    var input := TrimSpace(text);
    if input == [] then Err(e, EmptyLine)
    else if HasPrefix(input, Instructions.Name(Instructions.Rem)) then
      match UnmarshalCommand(e.command, input)
      case Ok(c) => Ok(e.(command := c))
      case Err(c, err) => Err(e.(command := c), err)
      case Crash => Crash
    else
      var actionSep := Index(input, Sep);
      if actionSep == -1 then Err(e, MissingAction)
      else
        var lastSep := LastIndex(input, Sep);
        assert OccursAt(input, Sep, lastSep);
        DecodeClauses(e, input, actionSep, lastSep)
  }

  /** The clauses of a non-remark line whose first separator is at `actionSep`
      and whose last is at `lastSep`: the command before the first, then the
      action span, then the revert after the last when the two differ. */
  function DecodeClauses(e: Entry, input: string, actionSep: nat, lastSep: nat): (r: Run<Entry, Error>)
    requires actionSep <= lastSep && lastSep + |Sep| <= |input|
    ensures r.Err? && !r.error.ParseRevert? ==> r.value == e
    ensures r.Err? && r.error.ParseRevert? ==>
              r.value.action == Some(ZeroAction) && r.value.revert == e.revert && actionSep != lastSep
    ensures r.Ok? || (r.Err? && r.error.ParseRevert?) ==>
              r.value.command == UnmarshalCommand(ZeroCommand, TrimSpace(input[..actionSep])).value
    ensures r.Ok? ==> r.value.action == Some(ZeroAction)
    ensures r.Ok? && actionSep == lastSep ==> r.value.revert == e.revert
    ensures r.Ok? && actionSep != lastSep ==>
              r.value.revert == Some(UnmarshalCommand(ZeroCommand, TrimSpace(input[lastSep + |Sep|..])).value)
  {
    match UnmarshalCommand(ZeroCommand, TrimSpace(input[..actionSep]))
    case Err(_, err) => Err(e, ParseCommand(err))
    case Crash => Crash
    case Ok(cmd) =>
      var undoSep := if lastSep == actionSep then |input| else lastSep;
      var actionStart := actionSep + |"&& "|;
      if actionStart > undoSep then Crash
      else DecodeAction(e, cmd, input, actionStart, undoSep)
  }

  /** The action clause `input[start..undoSep]`, parsed once the command `cmd`
      has been, and then the revert clause after `undoSep` unless it is the end of the line. */
  function DecodeAction(e: Entry, cmd: Command, input: string, start: nat, undoSep: nat): (r: Run<Entry, Error>)
    requires start <= undoSep <= |input|
    requires undoSep == |input| || undoSep + |Sep| <= |input|
    ensures r.Err? && !r.error.ParseRevert? ==> r.value == e
    ensures r.Err? && r.error.ParseRevert? ==>
              r.value.action == Some(ZeroAction) && r.value.revert == e.revert && undoSep != |input|
    ensures r.Ok? || (r.Err? && r.error.ParseRevert?) ==> r.value.command == cmd
    ensures r.Ok? ==> r.value.action == Some(ZeroAction)
    ensures r.Ok? && undoSep == |input| ==> r.value.revert == e.revert
    ensures r.Ok? && undoSep != |input| ==>
              r.value.revert == Some(UnmarshalCommand(ZeroCommand, TrimSpace(input[undoSep + |Sep|..])).value)
  {
    match UnmarshalAction(ZeroAction, TrimSpace(input[start..undoSep]))
    case Err(_, err) => Err(e, ParseAction(err))
    case Crash => Crash
    case Ok(action) =>
      var written := e.(command := cmd, action := Some(action));
      if undoSep == |input| then Ok(written)
      else DecodeRevert(written, TrimSpace(input[undoSep + |Sep|..]))
  }

  /** The revert clause, parsed after command and action have been written to `written`. */
  function DecodeRevert(written: Entry, clause: string): (r: Run<Entry, Error>)
    ensures !r.Crash?
    ensures r.Err? ==> r.value == written && r.error.ParseRevert?
    ensures r.Ok? ==> r.value == written.(revert := Some(UnmarshalCommand(ZeroCommand, clause).value))
    ensures r.Ok? <==> !AllSpace(clause) && Fields(clause)[0] in Instructions.Keys
  {
    match UnmarshalCommand(ZeroCommand, clause)
    case Err(_, err) => Err(written, ParseRevert(err))
    case Crash => Crash
    case Ok(undo) => Ok(written.(revert := Some(undo)))
  }
}
