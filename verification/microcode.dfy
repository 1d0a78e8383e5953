/**
 The legacy microcode line format (`microcode/action.go`, `command.go` and
 `parse.go`): a free-text line `Name Args && ActionName ActionArgs`, its
 printer, and the driver that parses a list of lines.

 Unlike the journal codec there is no vocabulary: names and arguments are
 whatever fields the line holds.
 */
module Microcode {
  import opened Outcomes
  import opened Text

  datatype Action = Action(name: string, args: seq<string>)

  datatype Command = Command(name: string, args: seq<string>, action: Action)

  const ZeroAction := Action([], [])
  const ZeroCommand := Command([], [], ZeroAction)

  /** The separator between the command and its action. */
  const Sep := "&&"

  datatype Error =
    | EmptyLine                      // ErrEmptyLine
    | UnmarshalTextFailed(cause: Error)  // "unmarshal text: %w"
    | AtLine(line: nat, cause: Error)    // "parse command (line %d): %w"

  // ---------------------------------------------------------------------------
  // Actions

  /** `Action.IsZero`: no name and no arguments. */
  function IsZero(a: Action): (z: bool)
    ensures z <==> a == ZeroAction
  {
    a.name == [] && |a.args| == 0
  }

  /** `Action.String`: empty for the zero action, otherwise the name, a space
      and the space-joined arguments (so a trailing space when there are none). */
  function ActionString(a: Action): (s: string)
    ensures s == [] <==> IsZero(a)
    ensures !IsZero(a) ==> s == a.name + " " + Join(a.args, " ")
  {
    if IsZero(a) then []
    else
      var parts := [a.name, Join(a.args, " ")];
      assert parts[1..] == [parts[1]];
      assert Join(parts, " ") == a.name + " " + Join(a.args, " ");
      Join(parts, " ")
  }

  /** Go's `cmp.Compare` on strings: lexicographic order, -1, 0 or 1. */
  function CompareStrings(s: string, t: string): (k: int)
    ensures -1 <= k <= 1
    ensures k == 0 <==> s == t
    decreases |s|
  {
    if s == [] then (if t == [] then 0 else -1)
    else if t == [] then 1
    else if s[0] < t[0] then -1
    else if s[0] > t[0] then 1
    else
      var k := CompareStrings(s[1..], t[1..]);
      assert s == [s[0]] + s[1..] && t == [t[0]] + t[1..];
      k
  }

  /** Go's `slices.Compare` on string slices: element by element, then by length. */
  function CompareSlices(x: seq<string>, y: seq<string>): (k: int)
    ensures -1 <= k <= 1
    ensures k == 0 <==> x == y
    decreases |x|
  {
    if x == [] then (if y == [] then 0 else -1)
    else if y == [] then 1
    else
      var head := CompareStrings(x[0], y[0]);
      if head != 0 then head
      else
        var k := CompareSlices(x[1..], y[1..]);
        assert x == [x[0]] + x[1..] && y == [y[0]] + y[1..];
        k
  }

  lemma {:induction false} CompareStringsFlips(s: string, t: string)
    ensures CompareStrings(t, s) == -CompareStrings(s, t)
    decreases |s|
  {
    if s != [] && t != [] && s[0] == t[0] {
      CompareStringsFlips(s[1..], t[1..]);
    }
  }

  /** Swapping the operands of the slice comparison negates it. */
  lemma {:induction false} CompareSlicesFlips(x: seq<string>, y: seq<string>)
    ensures CompareSlices(y, x) == -CompareSlices(x, y)
    decreases |x|
  {
    if x != [] && y != [] {
      CompareStringsFlips(x[0], y[0]);
      if CompareStrings(x[0], y[0]) == 0 {
        CompareSlicesFlips(x[1..], y[1..]);
      }
    }
  }

  /** `Action.Equals`: same name and a slice comparison of zero. */
  function Equals(a: Action, b: Action): (eq: bool)
    ensures eq <==> a == b
  {
    a.name == b.name && CompareSlices(a.args, b.args) == 0
  }

  /** `Equals` is an equivalence: reflexive, symmetric and transitive. */
  lemma EqualsIsEquivalence(a: Action, b: Action, c: Action)
    ensures Equals(a, a)
    ensures Equals(a, b) == Equals(b, a)
    ensures Equals(a, b) && Equals(b, c) ==> Equals(a, c)
  {
  }

  // ---------------------------------------------------------------------------
  // Commands

  /** `Command.String`: name, space-joined arguments, and ` && ` plus the
      action's string when the action is not the zero one. */
  function String(c: Command): string
  {
    var parts := [c.name, Join(c.args, " ")];
    Join(if IsZero(c.action) then parts else parts + ["&&", ActionString(c.action)], " ")
  }

  /** With the zero action, the string form is the name, a space and the
      space-joined arguments. */
  lemma StringWithoutAction(c: Command)
    requires IsZero(c.action)
    ensures String(c) == c.name + " " + Join(c.args, " ")
  {
    var parts := [c.name, Join(c.args, " ")];
    assert parts[1..] == [parts[1]];
    assert Join(parts[1..], " ") == Join(c.args, " ");
    assert Join(parts, " ") == c.name + " " + Join(c.args, " ");
  }

  lemma JoinFour(a: string, b: string, c: string, d: string)
    ensures Join([a, b, c, d], " ") == a + " " + b + " " + c + " " + d
  {
    var ws := [a, b, c, d];
    assert ws[1..] == [b, c, d];
    assert [b, c, d][1..] == [c, d];
    assert [c, d][1..] == [d];
    assert Join([c, d], " ") == c + " " + d;
    assert Join([b, c, d], " ") == b + " " + (c + " " + d);
    assert Join(ws, " ") == a + " " + (b + " " + (c + " " + d));
  }

  /** With a non-zero action, the string form is the command part, ` && `
      and the action's string. */
  lemma StringWithAction(c: Command)
    requires !IsZero(c.action)
    ensures String(c) == (c.name + " " + Join(c.args, " ")) + " && " + ActionString(c.action)
  {
    var parts := [c.name, Join(c.args, " ")];
    assert parts + ["&&", ActionString(c.action)] == [c.name, Join(c.args, " "), "&&", ActionString(c.action)];
    JoinFour(c.name, Join(c.args, " "), "&&", ActionString(c.action));
  }

  /** `Command.MarshalText`: it never fails; the text is the name and the
      space-joined arguments, followed by ` && ` and the action's string
      when the action is not the zero one. */
  function MarshalText(c: Command): (r: Run<string, Error>)
    ensures r.Ok?
    ensures IsZero(c.action) ==> r.value == c.name + " " + Join(c.args, " ")
    ensures !IsZero(c.action) ==>
              r.value == (c.name + " " + Join(c.args, " ")) + " && " + c.action.name + " " + Join(c.action.args, " ")
  {
    if IsZero(c.action) then
      StringWithoutAction(c);
      Ok(String(c))
    else
      StringWithAction(c);
      Ok(String(c))
  }

  /** Where `UnmarshalText` panics, on trimmed non-empty input: a line that
      starts with the separator takes the first field of an empty prefix, and
      a line with only white space after its first separator takes the first
      field of an empty action. */
  predicate SplitCrashes(input: string) {
    var k := Index(input, Sep);
    k == 0 || (k > 0 && AllSpace(input[k + |Sep|..]))
  }

  /** `Command.UnmarshalText` on a receiver holding `c`. A blank line is the
      one error and leaves the receiver alone; success overwrites the name,
      the arguments and the action. */
  function UnmarshalText(c: Command, p: string): (r: Run<Command, Error>)
    ensures r.Err? <==> AllSpace(p)
    ensures r.Err? ==> r == Err(c, EmptyLine)
    ensures r.Crash? <==> !AllSpace(p) && SplitCrashes(TrimSpace(p))
    // Without a separator: the fields of the line, and the zero action.
    ensures r.Ok? && Index(TrimSpace(p), Sep) == -1 ==>
              && [r.value.name] + r.value.args == Fields(TrimSpace(p))
              && r.value.action == ZeroAction
    // With one: the fields before the first separator, then the action from
    // all the fields after it, further separators included.
    ensures r.Ok? && Index(TrimSpace(p), Sep) != -1 ==>
              var k := Index(TrimSpace(p), Sep);
              && [r.value.name] + r.value.args == Fields(TrimSpace(p)[..k])
              && [r.value.action.name] + r.value.action.args == Fields(TrimSpace(p)[k + |Sep|..])
  {
    var input := TrimSpace(p);
    if input == [] then Err(c, EmptyLine)
    else Split(input, Index(input, Sep))
  }

  /** The trimmed, non-empty line `input` whose first separator is at `k`
      (-1 when there is none), taken apart the way `UnmarshalText` does. */
  function Split(input: string, k: int): (r: Run<Command, Error>)
    requires input != [] && !IsSpace(input[0])
    requires k == -1 || (0 <= k && k + |Sep| <= |input|)
    ensures !r.Err?
    ensures r.Crash? <==> k == 0 || (k > 0 && AllSpace(input[k + |Sep|..]))
    ensures r.Ok? && k == -1 ==>
              [r.value.name] + r.value.args == Fields(input) && r.value.action == ZeroAction
    ensures r.Ok? && k != -1 ==>
              && [r.value.name] + r.value.args == Fields(input[..k])
              && [r.value.action.name] + r.value.action.args == Fields(input[k + |Sep|..])
  {
    if k > 0 && Fields(input[k + |Sep|..]) == [] then Crash
    else
      var action :=
        if k > 0 then
          var fs := Fields(input[k + |Sep|..]);
          Action(fs[0], fs[1..])
        else ZeroAction;
      var end := if k == -1 then |input| else k;
      assert end > 0 ==> input[..end][0] == input[0];
      var fields := Fields(input[..end]);
      assert k == -1 ==> input[..end] == input;
      if fields == [] then Crash
      else Ok(Command(fields[0], fields[1..], action))
  }

  /** `ParseCommandString`: a blank line is `ErrEmptyLine` with the zero
      command; anything else is `UnmarshalText` into a fresh command. */
  function ParseCommandString(input: string): (r: Run<Command, Error>)
    ensures r.Err? <==> AllSpace(input)
    ensures r.Err? ==> r == Err(ZeroCommand, EmptyLine)
  {
    var trimmed := TrimSpace(input);
    if trimmed == [] then Err(ZeroCommand, EmptyLine)
    else
      match UnmarshalText(ZeroCommand, trimmed)
      case Ok(c) => Ok(c)
      case Err(_, e) => Err(ZeroCommand, UnmarshalTextFailed(e))
      case Crash => Crash
  }

  /** Every one of the first `n` outcomes is a success. */
  predicate OkBefore(results: seq<Run<Command, Error>>, n: nat)
    requires n <= |results|
  {
    forall i :: 0 <= i < n ==> results[i].Ok?
  }

  /** The loop of `ParseCommands` over the outcomes of its lines, in order:
      it collects the commands until the first outcome that is not a success
      and passes that one on, with its 1-based line number on an error. */
  method Collect(results: seq<Run<Command, Error>>) returns (r: Run<seq<Command>, Error>)
    ensures r.Ok? <==> OkBefore(results, |results|)
    ensures r.Ok? ==>
              && |r.value| == |results|
              && forall i :: 0 <= i < |results| ==> results[i] == Ok(r.value[i])
    ensures r.Err? ==>
              && r.value == []
              && exists n :: 0 <= n < |results| && OkBefore(results, n) && results[n].Err?
                               && r.error == AtLine(n + 1, results[n].error)
    ensures r.Crash? ==>
              exists n :: 0 <= n < |results| && OkBefore(results, n) && results[n].Crash?
  {
    var cmds: seq<Command> := [];
    var i := 0;
    while i < |results|
      invariant 0 <= i <= |results|
      invariant OkBefore(results, i)
      invariant |cmds| == i
      invariant forall j :: 0 <= j < i ==> results[j] == Ok(cmds[j])
    {
      match results[i] {
        case Ok(c) =>
          cmds := cmds + [c];
        case Err(_, e) =>
          return Err([], AtLine(i + 1, e));
        case Crash =>
          return Crash;
      }
      i := i + 1;
    }
    return Ok(cmds);
  }

  /** The outcome of `ParseCommandString` on each line. */
  function LineOutcomes(lines: seq<string>): (rs: seq<Run<Command, Error>>)
    ensures |rs| == |lines|
    ensures forall i :: 0 <= i < |lines| ==> rs[i] == ParseCommandString(lines[i])
  {
    seq(|lines|, i requires 0 <= i < |lines| => ParseCommandString(lines[i]))
  }

  /** `ParseCommands` over the lines the scanner yields: one command per line
      in order, or the first failure, numbered from 1. Since only a blank
      line is an error, an error is always the first blank line's `ErrEmptyLine`. */
  method ParseCommands(lines: seq<string>) returns (r: Run<seq<Command>, Error>)
    ensures r.Ok? <==> OkBefore(LineOutcomes(lines), |lines|)
    ensures r.Ok? ==>
              && |r.value| == |lines|
              && forall i :: 0 <= i < |lines| ==> ParseCommandString(lines[i]) == Ok(r.value[i])
    ensures r.Err? ==>
              && r.value == []
              && exists n :: 0 <= n < |lines| && OkBefore(LineOutcomes(lines), n) && AllSpace(lines[n])
                               && r.error == AtLine(n + 1, EmptyLine)
    ensures r.Crash? ==>
              exists n :: 0 <= n < |lines| && OkBefore(LineOutcomes(lines), n) && ParseCommandString(lines[n]).Crash?
  {
    r := Collect(LineOutcomes(lines));
  }
}
