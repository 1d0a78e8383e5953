/**
 Properties of the microcode line format: how `UnmarshalText` splits a line
 at its first separator, where it panics, and the promise of `MarshalText`'s
 doc comment that its output parses back to the command.
 */
module MicrocodeProperties {
  import opened Outcomes
  import opened Text
  import opened Microcode

  /** A name or command argument the printer can emit and the parser give
      back: a non-empty word without the separator in it. */
  predicate Plain(w: string) {
    IsWord(w) && Excludes(w, Sep)
  }

  /** The commands whose printed form parses back to them. The command's name
      and arguments come before the first separator, so none may contain one;
      the action is the zero one or has a name, since a nameless action prints
      as its arguments and its first argument would be read as its name. */
  predicate WellFormed(c: Command) {
    && Plain(c.name)
    && (forall i :: 0 <= i < |c.args| ==> Plain(c.args[i]))
    && (c.action == ZeroAction || (IsWord(c.action.name) && AllWords(c.action.args)))
  }

  // ---------------------------------------------------------------------------
  // Printing

  /** A head followed by space-joined words splits back into the head and the words. */
  lemma HeadFields(head: string, rest: seq<string>)
    requires IsWord(head) && AllWords(rest)
    ensures Fields(head + " " + Join(rest, " ")) == [head] + rest
  {
    var tail := Join(rest, " ");
    assert head + " " + tail == head + (" " + tail);
    assert (" " + tail)[0] == ' ';
    calc {
      Fields(head + (" " + tail));
    == { FieldsSplit(head, " " + tail); }
      Fields(head) + Fields(" " + tail);
    == { FieldsOfWord(head); FieldsOfSpaceThen(tail); }
      [head] + Fields(tail);
    == { FieldsOfJoin(rest); }
      [head] + rest;
    }
  }

  /** The fields of a printed non-zero action are its name and its arguments. */
  lemma ActionStringFields(a: Action)
    requires !IsZero(a) && IsWord(a.name) && AllWords(a.args)
    ensures Fields(ActionString(a)) == [a.name] + a.args
  {
    HeadFields(a.name, a.args);
  }

  // ---------------------------------------------------------------------------
  // Parsing

  /** A line that starts with a non-space character keeps its first separator,
      and what precedes it, when it is trimmed. */
  lemma TrimKeepsSeparator(s: string, k: int)
    requires s != [] && !IsSpace(s[0]) && k == Index(s, Sep) && k != -1
    ensures k + |Sep| <= |TrimSpace(s)|
    ensures Index(TrimSpace(s), Sep) == k
    ensures TrimSpace(s)[..k] == s[..k]
  {
    var t := TrimSpace(s);
    TrimSpaceKeepsStart(s);
    assert OccursAt(s, Sep, k);
    assert s[k..k + 2][1] == s[k + 1] == '&';
    IndexOfPrefix(s, |t|, Sep);
  }

  /** Trimming a line that starts with a non-space character does not change
      the fields of any of its tails. */
  lemma TrimKeepsTail(s: string, m: nat)
    requires s != [] && !IsSpace(s[0]) && m <= |TrimSpace(s)|
    ensures Fields(TrimSpace(s)[m..]) == Fields(s[m..])
  {
    var t := TrimSpace(s);
    TrimSpaceKeepsStart(s);
    assert s[m..] == t[m..] + s[|t|..];
    FieldsSplit(t[m..], s[|t|..]);
    FieldsOfSpace(s[|t|..]);
  }

  /** A line that starts with a non-space character and has no separator is
      read as its fields, with the zero action. */
  lemma PlainLine(prev: Command, x: string)
    requires x != [] && !IsSpace(x[0]) && Excludes(x, Sep)
    ensures UnmarshalText(prev, x) == Ok(Command(Fields(x)[0], Fields(x)[1..], ZeroAction))
  {
    var t := TrimSpace(x);
    TrimSpaceKeepsStart(x);
    ExcludesPrefix(x, |t|, Sep);
    TrimKeepsTail(x, 0);
    assert t[0..] == t && x[0..] == x;
  }

  lemma SeparatorOfLine(x: string, y: string)
    requires Excludes(x, Sep)
    ensures Index(x + " && " + y, Sep) == |x| + 1
  {
    assert x + " && " + y == x + " " + ("&& " + y);
    IndexAfterSpace(x, "&& " + y, Sep);
  }

  lemma PrefixOfLine(x: string, y: string, k: nat)
    requires k == |x| + 1
    ensures (x + " && " + y)[..k] == x + " "
  {
  }

  lemma CommandPartOfLine(x: string, y: string, k: nat)
    requires k == |x| + 1
    ensures Fields((x + " && " + y)[..k]) == Fields(x)
  {
    PrefixOfLine(x, y, k);
    FieldsOfSpaceAfter(x);
  }

  lemma ActionPartOfLine(x: string, y: string, k: nat)
    requires k == |x| + 1
    ensures Fields((x + " && " + y)[k + |Sep|..]) == Fields(y)
  {
    var s := x + " && " + y;
    assert s[k + |Sep|..] == " " + y by {
      assert s == (x + " &&") + (" " + y);
    }
    FieldsOfSpaceThen(y);
  }

  /** `UnmarshalText` on a trimmed line whose first separator is at `k`, once
      the fields on either side are known. */
  lemma SplitAt(prev: Command, s: string, t: string, k: nat, front: seq<string>, back: seq<string>)
    requires t == TrimSpace(s) && t != [] && Index(t, Sep) == k && k + |Sep| <= |t|
    requires Fields(t[..k]) == front && Fields(t[k + |Sep|..]) == back
    requires front != [] && back != []
    ensures UnmarshalText(prev, s) == Ok(Command(front[0], front[1..], Action(back[0], back[1..])))
  {
  }

  /** A line `x && y` whose command part `x` starts with a non-space
      character and has no separator, and whose action part `y` is not blank,
      is read as the fields of `x` and the fields of `y`. */
  lemma {:induction false} SplitLine(prev: Command, x: string, y: string)
    requires x != [] && !IsSpace(x[0]) && Excludes(x, Sep) && !AllSpace(y)
    ensures UnmarshalText(prev, x + " && " + y) ==
              Ok(Command(Fields(x)[0], Fields(x)[1..], Action(Fields(y)[0], Fields(y)[1..])))
  {
    var s := x + " && " + y;
    var k := |x| + 1;
    SeparatorOfLine(x, y);
    TrimKeepsSeparator(s, k);
    TrimKeepsTail(s, k + |Sep|);
    CommandPartOfLine(x, y, k);
    ActionPartOfLine(x, y, k);
    SplitAt(prev, s, TrimSpace(s), k, Fields(x), Fields(y));
  }

  /** The promise of `MarshalText`'s doc comment, for well-formed commands:
      the printed command parses back to itself, whatever the receiver held. */
  lemma {:induction false} RoundTrip(prev: Command, c: Command)
    requires WellFormed(c)
    ensures UnmarshalText(prev, MarshalText(c).value) == Ok(c)
  {
    var x := c.name + " " + Join(c.args, " ");
    assert x[0] == c.name[0];
    JoinExcludes(c.args, Sep);
    ExcludesAcrossSpace(c.name, Join(c.args, " "), Sep);
    HeadFields(c.name, c.args);
    assert Fields(x)[1..] == c.args;
    if IsZero(c.action) {
      StringWithoutAction(c);
      PlainLine(prev, x);
    } else {
      var a := c.action;
      StringWithAction(c);
      assert ActionString(a)[0] == a.name[0];
      ActionStringFields(a);
      assert Fields(ActionString(a))[1..] == a.args;
      SplitLine(prev, x, ActionString(a));
    }
  }

  // ---------------------------------------------------------------------------
  // Normalisation

  /** The fields of a text without the separator are plain. */
  lemma PlainFields(s: string)
    requires Excludes(s, Sep)
    ensures forall i :: 0 <= i < |Fields(s)| ==> Plain(Fields(s)[i])
  {
    FieldsExclude(s, Sep);
  }

  lemma HeadAndArgs(fs: seq<string>, name: string, args: seq<string>)
    requires fs == [name] + args && forall i :: 0 <= i < |fs| ==> Plain(fs[i])
    ensures Plain(name) && forall i :: 0 <= i < |args| ==> Plain(args[i])
  {
    assert fs[0] == name;
    forall i | 0 <= i < |args|
      ensures Plain(args[i])
    {
      assert fs[i + 1] == args[i];
    }
  }

  lemma ActionWords(fs: seq<string>, a: Action)
    requires fs == [a.name] + a.args && AllWords(fs)
    ensures IsWord(a.name) && AllWords(a.args)
  {
    assert fs[0] == a.name;
    forall i | 0 <= i < |a.args|
      ensures IsWord(a.args[i])
    {
      assert fs[i + 1] == a.args[i];
    }
  }

  /** A line without a separator is read as plain fields and the zero action. */
  lemma NoSeparatorIsWellFormed(input: string)
    requires input != [] && !IsSpace(input[0]) && Index(input, Sep) == -1
    requires Split(input, -1).Ok?
    ensures WellFormed(Split(input, -1).value)
  {
    var c := Split(input, -1).value;
    PlainFields(input);
    HeadAndArgs(Fields(input), c.name, c.args);
  }

  /** A line with a separator at `k` is read as plain fields before it and
      words after it. */
  lemma SeparatorIsWellFormed(input: string, k: nat)
    requires input != [] && !IsSpace(input[0]) && Index(input, Sep) == k && k + |Sep| <= |input|
    requires Split(input, k).Ok?
    ensures WellFormed(Split(input, k).value)
  {
    var c := Split(input, k).value;
    ExcludesBeforeIndex(input, Sep);
    PlainFields(input[..k]);
    HeadAndArgs(Fields(input[..k]), c.name, c.args);
    ActionWords(Fields(input[k + |Sep|..]), c.action);
  }

  /** Every command `UnmarshalText` produces is well formed: its name and
      arguments are fields taken before the first separator. */
  lemma {:induction false} ParsedIsWellFormed(prev: Command, p: string)
    requires UnmarshalText(prev, p).Ok?
    ensures WellFormed(UnmarshalText(prev, p).value)
  {
    var t := TrimSpace(p);
    var k := Index(t, Sep);
    if k == -1 {
      NoSeparatorIsWellFormed(t);
    } else {
      SeparatorIsWellFormed(t, k);
    }
  }

  /** Printing a parsed command and parsing it again gives the same command:
      the printer normalises white space and nothing else. */
  lemma {:induction false} ReparseIsStable(prev: Command, other: Command, p: string)
    requires UnmarshalText(prev, p).Ok?
    ensures UnmarshalText(other, String(UnmarshalText(prev, p).value)) == UnmarshalText(prev, p)
  {
    ParsedIsWellFormed(prev, p);
    RoundTrip(other, UnmarshalText(prev, p).value);
  }

  // ---------------------------------------------------------------------------
  // Panics

  /** A line that starts with the separator panics: the action branch is
      skipped for a separator at index 0, and the command is then read from
      the empty text before it. */
  lemma LeadingSeparatorCrashes(prev: Command, y: string)
    ensures UnmarshalText(prev, Sep + y) == Crash
  {
    var s := Sep + y;
    var t := TrimSpace(s);
    TrimSpaceKeepsStart(s);
    assert s[1] == '&';
    assert t[..2] == s[..2] == Sep;
    assert OccursAt(t, Sep, 0);
  }

  /** A line that ends at its first separator panics: the action is read from
      the empty text after it. */
  lemma TrailingSeparatorCrashes(prev: Command, x: string)
    requires x != [] && !IsSpace(x[0]) && Excludes(x, Sep)
    ensures UnmarshalText(prev, x + " " + Sep) == Crash
  {
    var s := x + " " + Sep;
    var k := |x| + 1;
    assert OccursAt(Sep, Sep, 0);
    IndexAfterSpace(x, Sep, Sep);
    TrimKeepsSeparator(s, k);
    assert TrimSpace(s)[k + |Sep|..] == [];
  }

  /** Apart from the blank line, `ParseCommandString` is `UnmarshalText` into
      any receiver: trimming first changes nothing, success overwrites every
      field, and the wrapped error of `UnmarshalText` cannot occur. */
  lemma ParseIsUnmarshal(prev: Command, input: string)
    requires !AllSpace(input)
    ensures ParseCommandString(input) == UnmarshalText(prev, input)
  {
    TrimSpaceIdempotent(input);
  }
}
