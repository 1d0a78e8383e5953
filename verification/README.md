# mct line formats in Dafny

mct reads configuration steps written one per line. This project models the
two line formats it decodes, and the instruction vocabulary they share:

- the **journal** format (`journal/journal.go`). A line is
  `command && action [&& revert]`, or a remark line starting with `REM`.
  The command and revert heads come from the instruction vocabulary
  (`instruction/instruction.go`), and the action head is `NOP` or `SYSCTL`;
- the **microcode** format (`microcode/*.go`, copied into `main.go`). A line
  is `Name Args && ActionName ActionArgs`, with free-text names. This format
  has a printer and a driver that parses a list of lines.

Each Go `UnmarshalText` method writes through its pointer receiver. Here it
is a function from the receiver's value before the call and the input to a
`Run` (`outcomes.dfy`):

- `Ok(value)` carries the receiver after a successful call;
- `Err(value, error)` carries the receiver after a failed call;
- `Crash` is a Go panic: a slice index out of range or an inverted slice.

Errors are datatypes that mirror the wrapping chain of the Go errors
(`ParseCommand(UnmarshalInstruction(...))`, for example). `Text` models the
parts of `bytes`/`strings` that are used:

- `TrimSpace`, `Fields`, `Index`, `LastIndex`, `HasPrefix` and `Join`,
  over ASCII white space;
- the journal methods take byte slices, and a `char` of a journal line
  stands for one byte. Positions are then Go's byte offsets, and non-ASCII
  text is given as its UTF-8 bytes;
- the Go `uint32` instruction types are newtypes over its range, so the zero
  value and the names that print as `???` can be represented.

Modules:

- `Instructions` (instruction.go)
- `Journal` (journal.go), with `JournalProperties` and `JournalExamples`
- `Microcode` (microcode/), with `MicrocodeProperties`
- `Mct` (the copies in main.go, each stated as the microcode member under
  the program's name)

## Model

| member | source | states |
|---|---|---|
| Instructions.TagsArePowersOfTwo | instruction/instruction.go:8-17 | the eight instructions are 1<<0 … 1<<7 in declaration order, so they are pairwise distinct |
| Instructions.Name | instruction/instruction.go:20-41 | a value prints as "???" exactly when it is not one of the eight tags; every tag except Exec prints as the key that decodes back to it; Exec prints as a string that is not a key |
| Instructions.Marshal | instruction/instruction.go:43-49 | fails exactly for a value that is not a tag, with the unknown-instruction error carrying that value; otherwise yields the printed name, never "???"; never panics |
| Instructions.Unmarshal | instruction/instruction.go:51-68 | succeeds exactly for the eight upper-case keys and yields a tag; any other token is the unknown-command error and leaves the receiver as it was |
| Instructions.KeysAreOneToOne | instruction/instruction.go:52-61 | distinct keys decode to distinct tags, and every tag has a key |
| Instructions.LowerCaseIsRejected | instruction/instruction.go:62-65 | decoding is case-sensitive: "mkdir" is rejected and "MKDIR" is accepted |
| Instructions.RoundTrip | instruction/instruction.go:20-68 | printing and then decoding gives back every tag except Exec |
| Instructions.ExecDoesNotRoundTrip | instruction/instruction.go:36-37 | Exec marshals to "Exec", which decoding rejects as an unknown command |
| Instructions.UnmarshalThenName | instruction/instruction.go:20-68 | decoding a token and then printing gives the token back, except "EXEC", which prints as "Exec" |
| Journal.UnmarshalActionInstruction | journal/journal.go:135-157 | "NOP" yields Nop and "SYSCTL" yields Sysctl, the only tokens that succeed; any other token is an error that names it and leaves the receiver alone; never panics |
| Journal.VocabulariesAreDisjoint | journal/journal.go:142-150 | no token is both an instruction key and an action key |
| Journal.CopyLoop | journal/journal.go:118-123 | the argument-copy loop panics exactly when the destination has fewer slots than the source has elements; otherwise the source is copied into the destination's prefix and the rest is left alone |
| Journal.UnmarshalCommand | journal/journal.go:164-193 | a blank clause is the empty-command error; otherwise the clause fails exactly when its first field is not an instruction key; errors leave the receiver alone; a head with no arguments succeeds without writing; otherwise the result is the head's tag plus the remaining fields in order; never panics |
| Journal.UnmarshalAction | journal/journal.go:105-133 | the receiver is never written; the clause succeeds exactly when it is a known action head alone, and panics exactly when a known head has arguments, because the copy loop ranges over all n fields into n-1 slots |
| Journal.UnmarshalEntry | journal/journal.go:45-93 | blank line: EmptyLine. A remark line goes whole to the command parser, never panics and leaves action and revert alone. Any other line with no separator: MissingAction. Every error except a revert error leaves the receiver as it was. Success on a non-remark line writes the command parsed from the text before the first separator and the zero action; the revert is written exactly when the line has two distinct separators, as the command parsed from the text after the last one. A revert error comes after the command and zero action are written |
| Journal.DecodeClauses | journal/journal.go:58-73 | a command error leaves the receiver alone; the action is sliced from 3 bytes past the first separator up to the last separator (or the line's end); success writes the command parsed before the first separator, the zero action, and, when the separators differ, the revert parsed after the last one |
| Journal.DecodeAction | journal/journal.go:69-85 | an action error leaves the receiver alone; success (and a later revert error) writes the given command and the zero action; the revert is left alone without a revert span and is otherwise the command parsed from the text after the last separator |
| Journal.DecodeRevert | journal/journal.go:86-92 | the revert clause succeeds exactly when its first field is an instruction key, and then only the revert changes, to the command parsed from the clause; on failure the command and action are already written and the error is a revert error; never panics |
| JournalProperties.DecodeOneSeparator | journal/journal.go:54-85 | a line `c && a`, with the clauses trimmed and single spaces round the separator, decodes clause by clause: command, then action, with no revert |
| JournalProperties.DecodeTwoSeparators | journal/journal.go:54-92 | a line `c && a && v` decodes clause by clause: command, then action, then `v` as the revert command |
| JournalProperties.InvertedSpanShapes | journal/journal.go:63-69 | the action span starting 3 bytes past the first separator is inverted exactly when the line ends at its only separator, or the last separator starts one or two bytes after the first |
| JournalProperties.ClausesCrash | journal/journal.go:58-73 | the clause decoder panics exactly when the command parses and then the action span is inverted or the action clause panics |
| JournalProperties.EntryCrash | journal/journal.go:45-93 | a line panics exactly when it is a non-remark line with a separator, its command clause parses, and its action span is inverted or holds a known action head with arguments |
| JournalProperties.TrailingSeparatorCrashes | journal/journal.go:63-69 | a line that ends at its only separator, `c &&` with a valid command `c`, panics instead of reporting an empty action |
| JournalProperties.ByteAfterSeparatorIsSkipped | journal/journal.go:68-69 | on a line `c &&` followed directly by a byte `b` other than `&` and a trimmed text `t`, the action clause is `t`: the byte right after the separator is skipped |
| JournalExamples.RemarkCommand | journal/journal_test.go:18-26 | the command clause "REM hello, there!" is Rem with arguments "hello," and "there!" |
| JournalExamples.ExecCommand | journal/journal_test.go:27-37 | the command clause "EXEC apt install -y coredns" is Exec with four arguments in order |
| JournalExamples.HeadOnlyCommand | journal/journal.go:173-176 | a command clause that is a lone key succeeds and leaves the receiver as it was |
| JournalExamples.HeadOnlyAction | journal/journal.go:114-117 | an action clause that is a lone action key succeeds and leaves the receiver as it was |
| JournalExamples.ExecEntry | journal/journal.go:45-85 | "EXEC apt install -y coredns && NOP" decodes to the Exec command with its four arguments and the zero action (not Nop), with no revert |
| JournalExamples.RevertEntry | journal/journal.go:82-92 | "MKDIR /tmp/x && NOP && RM /tmp/x" decodes with the revert command Rm ["/tmp/x"] |
| JournalExamples.HeadOnlyRevertEntry | journal/journal.go:86-91 | "MKDIR /tmp/x && NOP && RM" records a revert that is the zero command, not Rm |
| JournalExamples.HeadOnlyCommandEntry | journal/journal.go:58-81 | "MKDIR && NOP" records the zero command, not Mkdir |
| JournalExamples.MissingActionEntry | journal/journal.go:54-57 | "MKDIR /tmp/x" is the missing-action error and leaves the receiver alone |
| JournalExamples.UnknownCommandEntry | journal/journal.go:58-62 | "FOO && NOP" fails as a parse-command error wrapping the unknown command "FOO", and leaves the receiver alone |
| JournalExamples.ActionArgumentsEntry | journal/journal.go:118-123 | "MKDIR /tmp/x && SYSCTL a=b" panics |
| JournalExamples.TrailingSeparatorEntry | journal/journal.go:63-69 | "MKDIR /tmp/x &&" panics |
| JournalExamples.RemarkEntry | journal/journal.go:50-53 | "REM a && b" is not split: the command is Rem with arguments "a", "&&", "b", and there is no action or revert |
| JournalExamples.SplitCharacterEntry | journal/journal.go:68-73 | "MKDIR /tmp/x &&é NOP", with é given as its UTF-8 bytes C3 A9, fails as a parse-action error naming the lone byte A9, because the action is sliced from inside é; the receiver is left as it was |
| Microcode.IsZero | microcode/action.go:23-25 | an action is zero exactly when it equals the zero action |
| Microcode.ActionString | microcode/action.go:13-21 | the rendering is empty exactly for the zero action; otherwise it is the name, a space and the space-joined arguments |
| Microcode.CompareSlices | microcode/action.go:28 | the slice comparison returns -1, 0 or 1, and 0 exactly when the slices are equal |
| Microcode.CompareSlicesFlips | microcode/action.go:28 | swapping the operands negates the slice comparison |
| Microcode.Equals | microcode/action.go:27-29 | two actions are Equal exactly when they are the same value |
| Microcode.EqualsIsEquivalence | microcode/action.go:27-29 | Equals is reflexive, symmetric and transitive |
| Microcode.MarshalText | microcode/command.go:67-83 | marshalling never fails; the text is the name, a space and the space-joined arguments, followed, when the action is not zero, by " && ", the action's name, a space and its space-joined arguments |
| Microcode.UnmarshalText | microcode/command.go:16-65 | a blank line is the only error and leaves the receiver alone. The line panics exactly when its first separator is at index 0 or only white space follows it. Otherwise the command is the fields before the first separator, and the action is the fields after it (the zero action when there is no separator) |
| Microcode.Split | microcode/command.go:22-62 | on a trimmed non-empty line with its first separator at k, the result is the same panic condition and the same fields as UnmarshalText; it is never an error |
| Microcode.ParseCommandString | microcode/parse.go:31-42 | the result is an error exactly for a blank line, and that error is ErrEmptyLine with the zero command |
| Microcode.Collect | microcode/parse.go:11-29 | the loop succeeds exactly when every outcome succeeds, and then returns the commands one for one; otherwise it passes on the first failure, an error tagged with its 1-based line number or a panic |
| Microcode.ParseCommands | microcode/parse.go:11-29 | one command per line, in order, when every line parses; otherwise an error is the first blank line's ErrEmptyLine with its 1-based number, and a panic comes from the first line that panics |
| MicrocodeProperties.ActionStringFields | microcode/action.go:13-21 | the fields of a printed non-zero action whose name and arguments are words are its name followed by its arguments |
| MicrocodeProperties.PlainLine | microcode/command.go:46-62 | a line without a separator that starts with a non-space reads as its first field plus the remaining fields, with the zero action |
| MicrocodeProperties.SplitLine | microcode/command.go:22-62 | a line `x && y`, whose first separator follows `x` and is followed by non-blank `y`, reads as the fields of `x` and the fields of `y` |
| MicrocodeProperties.RoundTrip | microcode/command.go:67-71 | for a well-formed command, parsing its MarshalText output gives the command back, whatever the receiver held. Well-formed: the name and arguments are words without "&&", and the action is zero or its name and arguments are words |
| MicrocodeProperties.ParsedIsWellFormed | microcode/command.go:16-65 | every command UnmarshalText produces is well-formed |
| MicrocodeProperties.ReparseIsStable | microcode/command.go:16-83 | printing a parsed command and parsing it again gives the same result |
| MicrocodeProperties.LeadingSeparatorCrashes | microcode/command.go:27-53 | a line that starts with "&&" panics |
| MicrocodeProperties.TrailingSeparatorCrashes | microcode/command.go:27-32 | a line `x &&`, with nothing after its first separator, panics |
| MicrocodeProperties.ParseIsUnmarshal | microcode/parse.go:31-42 | on a line that is not blank, ParseCommandString is UnmarshalText into any receiver, and its wrapped error never happens |
| Mct.ParseCommandString | main.go:56-67 | the result is an error exactly for a blank line, and that error is ErrEmptyLine with the zero command |
| Mct.UnmarshalText | main.go:82-131 | a blank line is the only error and leaves the receiver alone; the panic condition is as in the microcode package; the command is the fields before the first separator and the action the fields after it |
| Mct.Equals | main.go:153-155 | actions are equal exactly when their names are equal and their arguments have the same length and are equal element by element |
| Mct.ParseCommands | main.go:36-54 | one command per line, in order, when every line parses; otherwise the first blank line's ErrEmptyLine with its 1-based number, or the first line that panics, with every earlier line parsing |

## Where the code differs from the intended format

The model follows the code. The journal format is meant to record a typed
action per entry and to round-trip through its printed form, and the code
does less than that. Each gap below is a behaviour of the code, stated as a
lemma:

- The action is never recorded. `Action.UnmarshalText` returns before it
  writes its receiver when the clause has no arguments. With arguments, its
  copy loop ranges over all n fields into n-1 slots and panics. So a decoded
  entry always carries the zero action, never `Nop` or `Sysctl`
  (`JournalExamples.ExecEntry`, `JournalProperties.EntryCrash`,
  `JournalExamples.ActionArgumentsEntry`).
- A clause that is a lone instruction succeeds but records nothing. The
  command or revert keeps the zero value instead of the instruction
  (`JournalExamples.HeadOnlyCommandEntry`,
  `JournalExamples.HeadOnlyRevertEntry`).
- The action span starts three bytes after the first separator, as if
  exactly one space followed it. A line ending at its separator therefore
  panics instead of reporting an empty clause
  (`JournalProperties.InvertedSpanShapes`,
  `JournalProperties.TrailingSeparatorCrashes`).
- A remark line writes only the command. The action and revert of a reused
  receiver are left as they were rather than cleared (`Journal.UnmarshalEntry`).
- Exec prints as "Exec", which the decoder rejects, so the instruction round
  trip fails for Exec alone (`Instructions.ExecDoesNotRoundTrip`).
- The journal package has no entry encoder. The only encoder is
  `Instruction.MarshalText`.
- The microcode parser panics on a line that starts with "&&", or has only
  white space after its first "&&" (`Microcode.UnmarshalText`).
- The microcode `ParseCommands` treats a blank line as an error, so it stops
  at the first one (`Microcode.ParseCommands`).

## Left out

- `journal.ReadFrom` (journal/journal.go:19-37): the channel send, the
  cancellation `select` and the close on return are concurrency. What it
  does for each line is `Journal.UnmarshalEntry`.
- Scanner framing and read errors. The list drivers take the input as a
  sequence of lines: `bufio.Scanner` line splitting, its token-size limit and
  its "scan" error are not modelled.
- The `main` function, the `String`/`MarshalText` of main.go and its
  `Action.String`. These are `fmt` padding and `%v` formatting for display
  only.
- Unicode white space. `TrimSpace` and `Fields` use the ASCII white space set
  (space, \t, \n, \v, \f, \r). Go also trims U+0085, U+00A0 and other Unicode
  spaces.
- The `nil`-receiver branches of the journal methods. Every call in the core
  passes a non-nil receiver, so they are unreachable.
- Byte slices and copying. Arguments are strings, so the defensive copies and
  aliasing are not visible.
- Error message text. Errors are datatypes that keep the wrapping chain and
  the offending token, value or line number, but not the formatted message.
- The receiver's partial writes before a panic. `Crash` carries no receiver
  value.
- Microcode.String: has no contract of its own. The string form is stated by
  `Microcode.MarshalText`, through the lemmas `Microcode.StringWithoutAction`
  and `Microcode.StringWithAction`.
- Mct.UnmarshalText: states the panic condition through the microcode
  package's predicate rather than spelling it out again, because main.go's
  method is the same code.
- Journal.UnmarshalEntry: positions count the elements of the line, which
  are Go's byte offsets only when each `char` stands for one byte. A line
  given as whole characters rather than as UTF-8 bytes, with a non-ASCII
  character right after the first `&&`, is sliced elsewhere than Go slices it.
  For example, with `é` as one `char`, "MKDIR x &&é NOP" succeeds here. Go
  slices into the middle of `é` and reports a parse-action error, as the model
  does when the line is given as the two bytes of `é`
  (`JournalExamples.SplitCharacterEntry`).
- Journal.DecodeClauses: the `+ 3` of the action start counts elements of
  the line. It matches Go's `len("&& ")` only under the same one-byte-per-`char`
  reading.
- JournalProperties.EntryCrash: the panic condition is Go's under the same
  one-byte-per-`char` reading. A line given as whole characters, with a
  non-ASCII character right after the first `&&`, can panic here where Go
  reports an error.
