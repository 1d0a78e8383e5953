/**
 Worked journal lines: the command cases of the package's tests, and lines
 that show each branch of the entry decoder, including the ones where it
 panics or records less than the line says.
 */
module JournalExamples {
  import opened Outcomes
  import opened Text
  import Instructions
  import opened Journal
  import opened JournalProperties

  /** A command clause whose fields are a known head and its arguments. */
  lemma CommandOf(text: string, head: string, args: seq<string>, tag: Instructions.Instruction)
    requires AllWords([head] + args) && args != []
    requires head in Instructions.Keys && Instructions.Keys[head] == tag
    requires text == Join([head] + args, " ")
    ensures UnmarshalCommand(ZeroCommand, text) == Ok(Command(tag, args))
  {
    FieldsOfJoin([head] + args);
    assert ([head] + args)[1..] == args;
  }

  lemma RemarkFields()
    ensures AllWords(["REM", "hello,", "there!"])
    ensures Join(["REM", "hello,", "there!"], " ") == "REM hello, there!"
  {
    var ws := ["REM", "hello,", "there!"];
    assert IsWord(ws[0]) && IsWord(ws[1]) && IsWord(ws[2]);
  }

  /** The remark case of the package's command tests. */
  lemma RemarkCommand(text: string)
    requires text == "REM hello, there!"
    ensures UnmarshalCommand(ZeroCommand, text) == Ok(Command(Instructions.Rem, ["hello,", "there!"]))
  {
    RemarkFields();
    CommandOf(text, "REM", ["hello,", "there!"], Instructions.Rem);
  }

  lemma ExecWords()
    ensures AllWords(["EXEC", "apt", "install", "-y", "coredns"])
  {
    var ws := ["EXEC", "apt", "install", "-y", "coredns"];
    assert IsWord(ws[0]) && IsWord(ws[1]) && IsWord(ws[2]);
    assert IsWord(ws[3]) && IsWord(ws[4]);
  }

  lemma ExecJoin()
    ensures Join(["EXEC", "apt", "install", "-y", "coredns"], " ") == "EXEC apt install -y coredns"
  {
  }

  /** The exec case of the package's command tests. */
  lemma ExecCommand(text: string)
    requires text == "EXEC apt install -y coredns"
    ensures UnmarshalCommand(ZeroCommand, text) ==
              Ok(Command(Instructions.Exec, ["apt", "install", "-y", "coredns"]))
  {
    ExecWords();
    ExecJoin();
    CommandOf(text, "EXEC", ["apt", "install", "-y", "coredns"], Instructions.Exec);
  }

  // ---------------------------------------------------------------------------
  // Clause facts

  /** A clause of one word with a known head parses without writing its receiver. */
  lemma HeadOnlyCommand(c: Command, w: string)
    requires IsWord(w) && w in Instructions.Keys
    ensures UnmarshalCommand(c, w) == Ok(c)
  {
    FieldsOfWord(w);
  }

  /** An action clause of one word with a known head parses without writing its receiver. */
  lemma HeadOnlyAction(a: Action, w: string)
    requires IsWord(w) && w in ActionKeys
    ensures UnmarshalAction(a, w) == Ok(a)
  {
    FieldsOfWord(w);
  }

  /** A non-empty clause without surrounding space and without `&`. */
  lemma PlainClause(c: string)
    requires c != [] && !IsSpace(c[0]) && !IsSpace(c[|c| - 1])
    requires forall i :: 0 <= i < |c| ==> c[i] != '&'
    ensures Trimmed(c) && Excludes(c, Sep)
  {
    ExcludesByFirst(c, Sep);
  }

  /** A well-spaced line `c && a` whose clauses parse, from any receiver. */
  lemma EntryOfOne(e: Entry, text: string, c: string, a: string, cmd: Command)
    requires text == c + " && " + a
    requires Trimmed(c) && Trimmed(a) && Excludes(c, Sep) && Excludes(a, Sep)
    requires !HasPrefix(c, "REM")
    requires UnmarshalCommand(ZeroCommand, c) == Ok(cmd)
    requires UnmarshalAction(ZeroAction, a).Ok?
    ensures UnmarshalEntry(e, text) == Ok(e.(command := cmd, action := Some(ZeroAction)))
  {
    DecodeOneSeparator(e, c, a);
  }

  /** A well-spaced line `c && a && v` whose clauses parse, from any receiver. */
  lemma EntryOfTwo(e: Entry, text: string, c: string, a: string, v: string, cmd: Command, undo: Command)
    requires text == c + " && " + a + " && " + v
    requires Trimmed(c) && Trimmed(a) && Trimmed(v) && Excludes(c, Sep) && Excludes(v, Sep)
    requires !HasPrefix(c, "REM")
    requires UnmarshalCommand(ZeroCommand, c) == Ok(cmd)
    requires UnmarshalAction(ZeroAction, a).Ok?
    requires UnmarshalCommand(ZeroCommand, v) == Ok(undo)
    ensures UnmarshalEntry(e, text) == Ok(e.(command := cmd, action := Some(ZeroAction), revert := Some(undo)))
  {
    DecodeTwoSeparators(e, c, a, v);
  }

  // ---------------------------------------------------------------------------
  // Entry lines

  lemma ExecClause(c: string)
    requires c == "EXEC apt install -y coredns"
    ensures Trimmed(c) && Excludes(c, Sep) && !HasPrefix(c, "REM")
  {
    PlainClause(c);
  }

  lemma NopClause(a: string)
    requires a == "NOP"
    ensures IsWord(a) && a in ActionKeys && Trimmed(a) && Excludes(a, Sep)
  {
    PlainClause(a);
  }

  lemma ExecLine(text: string, c: string, a: string)
    requires text == "EXEC apt install -y coredns && NOP"
    requires c == "EXEC apt install -y coredns" && a == "NOP"
    ensures text == c + " && " + a
  {
  }

  /** A command with an action and no revert: the action is recorded as the zero action. */
  lemma ExecEntry(text: string)
    requires text == "EXEC apt install -y coredns && NOP"
    ensures UnmarshalEntry(ZeroEntry, text) ==
              Ok(Entry(Command(Instructions.Exec, ["apt", "install", "-y", "coredns"]), Some(ZeroAction), None))
  {
    var c, a := "EXEC apt install -y coredns", "NOP";
    ExecLine(text, c, a);
    ExecClause(c);
    NopClause(a);
    ExecCommand(c);
    HeadOnlyAction(ZeroAction, a);
    EntryOfOne(ZeroEntry, text, c, a, Command(Instructions.Exec, ["apt", "install", "-y", "coredns"]));
  }

  lemma MkdirWords(c: string)
    requires c == "MKDIR /tmp/x"
    ensures AllWords(["MKDIR", "/tmp/x"]) && Join(["MKDIR", "/tmp/x"], " ") == c
  {
    var ws := ["MKDIR", "/tmp/x"];
    assert IsWord(ws[0]) && IsWord(ws[1]);
  }

  lemma MkdirClause(c: string)
    requires c == "MKDIR /tmp/x"
    ensures Trimmed(c) && Excludes(c, Sep) && !HasPrefix(c, "REM")
    ensures UnmarshalCommand(ZeroCommand, c) == Ok(Command(Instructions.Mkdir, ["/tmp/x"]))
  {
    assert Trimmed(c) && Excludes(c, Sep) by {
      PlainClause(c);
    }
    assert !HasPrefix(c, "REM") by {
      assert c[1] == 'K';
    }
    MkdirWords(c);
    CommandOf(c, "MKDIR", ["/tmp/x"], Instructions.Mkdir);
  }

  lemma RmClause(v: string)
    requires v == "RM /tmp/x"
    ensures Trimmed(v) && Excludes(v, Sep)
    ensures UnmarshalCommand(ZeroCommand, v) == Ok(Command(Instructions.Rm, ["/tmp/x"]))
  {
    PlainClause(v);
    var ws := ["RM", "/tmp/x"];
    assert IsWord(ws[0]) && IsWord(ws[1]);
    CommandOf(v, "RM", ["/tmp/x"], Instructions.Rm);
  }

  lemma RevertLine(text: string, c: string, a: string, v: string)
    requires text == "MKDIR /tmp/x && NOP && RM /tmp/x"
    requires c == "MKDIR /tmp/x" && a == "NOP" && v == "RM /tmp/x"
    ensures text == c + " && " + a + " && " + v
  {
  }

  /** A command, an action and a revert command. */
  lemma RevertEntry(text: string)
    requires text == "MKDIR /tmp/x && NOP && RM /tmp/x"
    ensures UnmarshalEntry(ZeroEntry, text) ==
              Ok(Entry(Command(Instructions.Mkdir, ["/tmp/x"]), Some(ZeroAction),
                       Some(Command(Instructions.Rm, ["/tmp/x"]))))
  {
    var c, a, v := "MKDIR /tmp/x", "NOP", "RM /tmp/x";
    RevertLine(text, c, a, v);
    MkdirClause(c);
    NopClause(a);
    RmClause(v);
    HeadOnlyAction(ZeroAction, a);
    EntryOfTwo(ZeroEntry, text, c, a, v, Command(Instructions.Mkdir, ["/tmp/x"]),
               Command(Instructions.Rm, ["/tmp/x"]));
  }

  lemma RmHeadClause(v: string)
    requires v == "RM"
    ensures IsWord(v) && v in Instructions.Keys && Trimmed(v) && Excludes(v, Sep)
  {
    PlainClause(v);
  }

  lemma HeadOnlyRevertLine(text: string, c: string, a: string, v: string)
    requires text == "MKDIR /tmp/x && NOP && RM"
    requires c == "MKDIR /tmp/x" && a == "NOP" && v == "RM"
    ensures text == c + " && " + a + " && " + v
  {
  }

  /** A revert clause with no arguments is recorded as the zero command: the
      instruction it names is lost. */
  lemma HeadOnlyRevertEntry(text: string)
    requires text == "MKDIR /tmp/x && NOP && RM"
    ensures UnmarshalEntry(ZeroEntry, text) ==
              Ok(Entry(Command(Instructions.Mkdir, ["/tmp/x"]), Some(ZeroAction), Some(ZeroCommand)))
  {
    var c, a, v := "MKDIR /tmp/x", "NOP", "RM";
    HeadOnlyRevertLine(text, c, a, v);
    MkdirClause(c);
    NopClause(a);
    RmHeadClause(v);
    HeadOnlyAction(ZeroAction, a);
    HeadOnlyCommand(ZeroCommand, v);
    EntryOfTwo(ZeroEntry, text, c, a, v, Command(Instructions.Mkdir, ["/tmp/x"]), ZeroCommand);
  }

  lemma MkdirHeadClause(c: string)
    requires c == "MKDIR"
    ensures IsWord(c) && c in Instructions.Keys && Trimmed(c) && Excludes(c, Sep) && !HasPrefix(c, "REM")
  {
    PlainClause(c);
  }

  lemma HeadOnlyCommandLine(text: string, c: string, a: string)
    requires text == "MKDIR && NOP"
    requires c == "MKDIR" && a == "NOP"
    ensures text == c + " && " + a
  {
  }

  /** A command clause with no arguments overwrites whatever command the
      receiver held with the zero command. */
  lemma HeadOnlyCommandEntry(e: Entry, text: string)
    requires text == "MKDIR && NOP"
    ensures UnmarshalEntry(e, text) == Ok(e.(command := ZeroCommand, action := Some(ZeroAction)))
  {
    var c, a := "MKDIR", "NOP";
    HeadOnlyCommandLine(text, c, a);
    MkdirHeadClause(c);
    NopClause(a);
    HeadOnlyCommand(ZeroCommand, c);
    HeadOnlyAction(ZeroAction, a);
    EntryOfOne(e, text, c, a, ZeroCommand);
  }

  /** A line without a separator is refused, and the receiver is left as it was. */
  lemma MissingActionEntry(e: Entry, text: string)
    requires text == "MKDIR /tmp/x"
    ensures UnmarshalEntry(e, text) == Err(e, MissingAction)
  {
    MkdirClause(text);
    assert [] + text + [] == text;
    TrimSpaceOf([], text, []);
  }

  lemma FooClause(c: string)
    requires c == "FOO"
    ensures IsWord(c) && c !in Instructions.Keys && Trimmed(c) && Excludes(c, Sep) && !HasPrefix(c, "REM")
  {
    PlainClause(c);
  }

  /** An unknown head as a command clause, with the error chain the decoder builds. */
  lemma UnknownCommand(c: string)
    requires c == "FOO"
    ensures UnmarshalCommand(ZeroCommand, c) ==
              Err(ZeroCommand, UnmarshalInstruction(Vocabulary(Instructions.UnknownCommand("FOO"))))
  {
    FooClause(c);
    FieldsOfWord(c);
  }

  lemma UnknownCommandLine(text: string, c: string, a: string)
    requires text == "FOO && NOP"
    requires c == "FOO" && a == "NOP"
    ensures text == c + " && " + a
  {
  }

  /** An unknown command is reported as a command error, and the receiver is
      left as it was. */
  lemma UnknownCommandEntry(e: Entry, text: string)
    requires text == "FOO && NOP"
    ensures UnmarshalEntry(e, text) ==
              Err(e, ParseCommand(UnmarshalInstruction(Vocabulary(Instructions.UnknownCommand("FOO")))))
  {
    var c, a := "FOO", "NOP";
    UnknownCommandLine(text, c, a);
    FooClause(c);
    NopClause(a);
    UnknownCommand(c);
    DecodeOneSeparator(e, c, a);
  }

  lemma SysctlClause(a: string)
    requires a == "SYSCTL a=b"
    ensures Trimmed(a) && Excludes(a, Sep)
    ensures UnmarshalAction(ZeroAction, a).Crash?
  {
    PlainClause(a);
    var ws := ["SYSCTL", "a=b"];
    assert IsWord(ws[0]) && IsWord(ws[1]);
    assert Join(ws, " ") == a;
    FieldsOfJoin(ws);
  }

  lemma ActionArgumentsLine(text: string, c: string, a: string)
    requires text == "MKDIR /tmp/x && SYSCTL a=b"
    requires c == "MKDIR /tmp/x" && a == "SYSCTL a=b"
    ensures text == c + " && " + a
  {
  }

  /** An action with arguments panics in the action parser's copy loop. */
  lemma ActionArgumentsEntry(e: Entry, text: string)
    requires text == "MKDIR /tmp/x && SYSCTL a=b"
    ensures UnmarshalEntry(e, text) == Crash
  {
    var c, a := "MKDIR /tmp/x", "SYSCTL a=b";
    ActionArgumentsLine(text, c, a);
    MkdirClause(c);
    SysctlClause(a);
    DecodeOneSeparator(e, c, a);
  }

  lemma TrailingLine(text: string, c: string)
    requires text == "MKDIR /tmp/x &&"
    requires c == "MKDIR /tmp/x"
    ensures text == c + " " + Sep
  {
  }

  /** A line that ends at its separator panics. */
  lemma TrailingSeparatorEntry(e: Entry, text: string)
    requires text == "MKDIR /tmp/x &&"
    ensures UnmarshalEntry(e, text) == Crash
  {
    var c := "MKDIR /tmp/x";
    TrailingLine(text, c);
    MkdirClause(c);
    TrailingSeparatorCrashes(e, c);
  }

  lemma RemarkWords(text: string)
    requires text == "REM a && b"
    ensures AllWords(["REM", "a", "&&", "b"])
  {
    var ws := ["REM", "a", "&&", "b"];
    assert IsWord(ws[0]) && IsWord(ws[1]) && IsWord(ws[2]) && IsWord(ws[3]);
  }

  lemma RemarkJoin(text: string)
    requires text == "REM a && b"
    ensures Join(["REM", "a", "&&", "b"], " ") == text
  {
  }

  lemma RemarkLine(text: string)
    requires text == "REM a && b"
    ensures TrimSpace(text) == text && IsRemark(text)
  {
    assert Trimmed(text);
    assert [] + text + [] == text;
    TrimSpaceOf([], text, []);
    assert HasPrefix(text, "REM");
  }

  lemma RemarkClause(text: string)
    requires text == "REM a && b"
    ensures UnmarshalCommand(ZeroCommand, text) == Ok(Command(Instructions.Rem, ["a", "&&", "b"]))
  {
    RemarkWords(text);
    RemarkJoin(text);
    CommandOf(text, "REM", ["a", "&&", "b"], Instructions.Rem);
  }

  /** A remark is never split at its separators: they become arguments, and
      no action or revert is recorded. */
  lemma RemarkEntry(text: string)
    requires text == "REM a && b"
    ensures UnmarshalEntry(ZeroEntry, text) == Ok(Entry(Command(Instructions.Rem, ["a", "&&", "b"]), None, None))
  {
    RemarkLine(text);
    RemarkClause(text);
  }

  // ---------------------------------------------------------------------------
  // Byte offsets

  /** The tail of the UTF-8 bytes of é (C3 A9) followed by ` NOP`, as an
      action clause: its head is the lone byte A9, which is no action. */
  lemma SplitCharacterClause(t: string)
    requires t == "\U{A9} NOP"
    ensures Trimmed(t) && Excludes(t, Sep)
    ensures UnmarshalAction(ZeroAction, t) == Err(ZeroAction, UnmarshalInstruction(UnknownActionInstruction("\U{A9}")))
  {
    PlainClause(t);
    var ws := ["\U{A9}", "NOP"];
    assert IsWord(ws[0]) && IsWord(ws[1]);
    assert Join(ws, " ") == t;
    FieldsOfJoin(ws);
  }

  lemma SplitCharacterLine(text: string, c: string, b: char, t: string)
    requires text == "MKDIR /tmp/x &&\U{C3}\U{A9} NOP"
    requires c == "MKDIR /tmp/x" && b == '\U{C3}' && t == "\U{A9} NOP"
    ensures text == c + " " + (Sep + [b] + t)
  {
  }

  /** A line whose first `&&` is followed directly by é, given as its UTF-8
      bytes: the action is sliced from three bytes past the separator, inside
      é, and its head, the byte A9, is refused. The receiver is left as it was. */
  lemma SplitCharacterEntry(e: Entry, text: string)
    requires text == "MKDIR /tmp/x &&\U{C3}\U{A9} NOP"
    ensures UnmarshalEntry(e, text) == Err(e, ParseAction(UnmarshalInstruction(UnknownActionInstruction("\U{A9}"))))
  {
    var c, b, t := "MKDIR /tmp/x", '\U{C3}', "\U{A9} NOP";
    SplitCharacterLine(text, c, b, t);
    MkdirClause(c);
    SplitCharacterClause(t);
    ByteAfterSeparatorIsSkipped(e, c, b, t);
  }
}
