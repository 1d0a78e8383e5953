/**
 The command-line program's own copy of the line format (`main.go`). Its
 `ParseCommands`, `ParseCommandString`, `Command.UnmarshalText` and
 `Action.Equals` are the microcode package's, statement for statement, over
 types of the same shape, so each is the microcode member under the
 program's name, with the contract the program relies on.
 */
module Mct {
  import opened Outcomes
  import opened Text
  import Microcode

  type Command = Microcode.Command
  type Action = Microcode.Action

  /** `ParseCommandString`: a blank line is `ErrEmptyLine` with the zero
      command, and nothing else is an error. */
  function ParseCommandString(input: string): (r: Run<Command, Microcode.Error>)
    ensures r.Err? <==> AllSpace(input)
    ensures r.Err? ==> r == Err(Microcode.ZeroCommand, Microcode.EmptyLine)
  {
    Microcode.ParseCommandString(input)
  }

  /** `Command.UnmarshalText`: a blank line is the one error and leaves the
      receiver alone; the line panics when it starts with the separator or
      has only white space after its first one; otherwise the fields before
      the first separator are the command and those after it the action. */
  function UnmarshalText(c: Command, p: string): (r: Run<Command, Microcode.Error>)
    ensures r.Err? <==> AllSpace(p)
    ensures r.Err? ==> r == Err(c, Microcode.EmptyLine)
    ensures r.Crash? <==> !AllSpace(p) && Microcode.SplitCrashes(TrimSpace(p))
    ensures r.Ok? && Index(TrimSpace(p), Microcode.Sep) == -1 ==>
              && [r.value.name] + r.value.args == Fields(TrimSpace(p))
              && r.value.action == Microcode.ZeroAction
    ensures r.Ok? && Index(TrimSpace(p), Microcode.Sep) != -1 ==>
              var k := Index(TrimSpace(p), Microcode.Sep);
              && [r.value.name] + r.value.args == Fields(TrimSpace(p)[..k])
              && [r.value.action.name] + r.value.action.args == Fields(TrimSpace(p)[k + |Microcode.Sep|..])
  {
    Microcode.UnmarshalText(c, p)
  }

  /** `Action.Equals`: equal names and element-wise equal arguments. */
  function Equals(a: Action, b: Action): (eq: bool)
    ensures eq <==> a.name == b.name && |a.args| == |b.args|
                    && forall i :: 0 <= i < |a.args| ==> a.args[i] == b.args[i]
  {
    var eq := Microcode.Equals(a, b);
    assert eq ==> a.args == b.args;
    eq
  }

  /** `ParseCommands`: the commands of all lines in order, or the first
      failure; the failure is a blank line, reported with its 1-based number. */
  method ParseCommands(lines: seq<string>) returns (r: Run<seq<Command>, Microcode.Error>)
    ensures r.Ok? ==>
              && |r.value| == |lines|
              && forall i :: 0 <= i < |lines| ==> ParseCommandString(lines[i]) == Ok(r.value[i])
    ensures r.Err? ==>
              && r.value == []
              && exists n :: 0 <= n < |lines| && AllSpace(lines[n]) && r.error == Microcode.AtLine(n + 1, Microcode.EmptyLine)
                             && forall i :: 0 <= i < n ==> ParseCommandString(lines[i]).Ok?
    ensures r.Crash? ==>
              exists n :: 0 <= n < |lines| && ParseCommandString(lines[n]).Crash?
                             && forall i :: 0 <= i < n ==> ParseCommandString(lines[i]).Ok?
  {
    r := Microcode.ParseCommands(lines);
    if r.Err? {
      var n :| 0 <= n < |lines| && Microcode.OkBefore(Microcode.LineOutcomes(lines), n) && AllSpace(lines[n])
               && r.error == Microcode.AtLine(n + 1, Microcode.EmptyLine);
      LinesBefore(lines, n);
    } else if r.Crash? {
      var n :| 0 <= n < |lines| && Microcode.OkBefore(Microcode.LineOutcomes(lines), n)
               && Microcode.ParseCommandString(lines[n]).Crash?;
      LinesBefore(lines, n);
    }
  }

  /** The first `n` outcomes are successes: each of the first `n` lines parses. */
  lemma LinesBefore(lines: seq<string>, n: nat)
    requires n <= |lines| && Microcode.OkBefore(Microcode.LineOutcomes(lines), n)
    ensures forall i :: 0 <= i < n ==> ParseCommandString(lines[i]).Ok?
  {
  }
}
