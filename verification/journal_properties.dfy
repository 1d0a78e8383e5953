/**
 Properties of the journal decoder: how a well-spaced line decomposes into
 clauses, when the decoder panics, what it records, and the worked examples of
 the journal format and of the package's tests.
 */
module JournalProperties {
  import opened Outcomes
  import opened Text
  import Instructions
  import opened Journal

  /** The clause-wise reading of a line: parse the command clause, then the
      action clause, then the revert clause if there is one, stopping at the
      first error, with the receiver written the way the decoder writes it. */
  function ClauseWise(e: Entry, c: string, a: string, v: Option<string>): Run<Entry, Error>
  {
    match UnmarshalCommand(ZeroCommand, c)
    case Err(_, err) => Err(e, ParseCommand(err))
    case Crash => Crash
    case Ok(cmd) => ActionWise(e, cmd, a, v)
  }

  /** The action and revert clauses of the clause-wise reading, after the command `cmd`. */
  function ActionWise(e: Entry, cmd: Command, a: string, v: Option<string>): Run<Entry, Error>
  {
    match UnmarshalAction(ZeroAction, a)
    case Err(_, err) => Err(e, ParseAction(err))
    case Crash => Crash
    case Ok(act) =>
      var written := e.(command := cmd, action := Some(act));
      match v
      case None => Ok(written)
      case Some(u) => DecodeRevert(written, u)
  }

  /** A clause as a well-spaced line holds it: non-empty, no surrounding space. */
  predicate Trimmed(s: string) {
    s != [] && !IsSpace(s[0]) && !IsSpace(s[|s| - 1])
  }

  lemma IndexAtStart(s: string)
    requires HasPrefix(s, Sep)
    ensures Index(s, Sep) == 0
  {
    assert OccursAt(s, Sep, 0);
  }

  lemma LastIndexOfSep()
    ensures LastIndex(Sep, Sep) == 0
  {
    assert OccursAt(Sep, Sep, 0);
  }

  /** A line that does not start with "REM" whose command clause does not start with it either. */
  lemma NotRemark(c: string, rest: string)
    requires Trimmed(c) && !HasPrefix(c, "REM")
    ensures !HasPrefix(c + " " + rest, "REM")
  {
    var line := c + " " + rest;
    if |c| < 3 && |line| >= 3 {
      assert line[..3][|c|] == ' ';
    } else if |line| >= 3 {
      assert line[..3] == c[..3];
    }
  }

  /** The first separator of `c + " && " + rest` is the one after `c`. */
  lemma FirstSeparator(c: string, rest: string)
    requires Excludes(c, Sep)
    ensures Index(c + " && " + rest, Sep) == |c| + 1
  {
    assert c + " && " + rest == c + " " + ("&& " + rest);
    IndexAtStart("&& " + rest);
    IndexAcrossSpace(c, "&& " + rest, Sep);
  }

  /** The last separator of `init + " && " + v` is the one before `v`. */
  lemma LastSeparator(init: string, v: string)
    requires Excludes(v, Sep)
    ensures LastIndex(init + " && " + v, Sep) == |init| + 1
  {
    assert init + " && " + v == (init + " " + Sep) + " " + v;
    LastIndexAcrossSpace(init + " " + Sep, v, Sep);
    LastIndexOfSep();
    LastIndexAcrossSpace(init, Sep, Sep);
  }

  /** A non-remark line with a separator goes to the clause decoder. */
  lemma EntryToClauses(e: Entry, text: string)
    requires TrimSpace(text) != [] && !IsRemark(text)
    requires Index(TrimSpace(text), Sep) != -1
    ensures var input := TrimSpace(text);
            var first := Index(input, Sep);
            var last := LastIndex(input, Sep);
            && 0 <= first <= last && last + |Sep| <= |input|
            && UnmarshalEntry(e, text) == DecodeClauses(e, input, first, last)
  {
    var input := TrimSpace(text);
    assert OccursAt(input, Sep, LastIndex(input, Sep));
  }

  /** The action span and the revert span decode as the clause-wise reading says. */
  lemma ActionBySpans(e: Entry, cmd: Command, input: string, start: nat, undoSep: nat)
    requires start <= undoSep <= |input|
    requires undoSep == |input| || undoSep + |Sep| <= |input|
    ensures DecodeAction(e, cmd, input, start, undoSep) ==
              ActionWise(e, cmd, TrimSpace(input[start..undoSep]),
                         if undoSep == |input| then None else Some(TrimSpace(input[undoSep + 2..])))
  {
  }

  /** The span rule for a line with one separator: the command before it,
      the action from three past it to the end of the line. */
  lemma OneSeparatorBySpans(e: Entry, input: string, first: nat)
    requires first + 3 <= |input|
    ensures DecodeClauses(e, input, first, first) ==
              ClauseWise(e, TrimSpace(input[..first]), TrimSpace(input[first + 3..]), None)
  {
    assert input[first + 3..|input|] == input[first + 3..];
    var c := TrimSpace(input[..first]);
    match UnmarshalCommand(ZeroCommand, c) {
      case Err(_, _) =>
      case Crash =>
      case Ok(cmd) =>
        ActionBySpans(e, cmd, input, first + 3, |input|);
    }
  }

  /** The span rule for a line with two separators: the command before the
      first, the action from three past the first to the last, the revert
      after the last. */
  lemma TwoSeparatorsBySpans(e: Entry, input: string, first: nat, last: nat)
    requires first + 3 <= last && last + |Sep| <= |input|
    ensures DecodeClauses(e, input, first, last) ==
              ClauseWise(e, TrimSpace(input[..first]), TrimSpace(input[first + 3..last]),
                         Some(TrimSpace(input[last + 2..])))
  {
    var c := TrimSpace(input[..first]);
    match UnmarshalCommand(ZeroCommand, c) {
      case Err(_, _) =>
      case Crash =>
      case Ok(cmd) =>
        ActionBySpans(e, cmd, input, first + 3, last);
    }
  }

  /** The action span is inverted exactly when the line ends at its only
      separator, or when the last separator starts one or two bytes after
      the first, as in `&&&` and `&&&&`. (A line with one more byte after its
      only separator gives an empty span, which is not inverted.) */
  lemma InvertedSpanShapes(input: string)
    requires Index(input, Sep) != -1
    ensures var first := Index(input, Sep);
            var last := LastIndex(input, Sep);
            InvertedActionSpan(input) <==>
              || (last == first && |input| - first <= 2)
              || last == first + 1
              || last == first + 2
  {
    var first := Index(input, Sep);
    var last := LastIndex(input, Sep);
    assert OccursAt(input, Sep, first);
    assert OccursAt(input, Sep, last);
  }

  /** The clause decoder panics exactly when the command parses and then
      either the action span is inverted or the action clause has a known
      head and arguments. */
  lemma ClausesCrash(e: Entry, input: string, first: nat, last: nat, end: nat)
    requires first <= last && last + |Sep| <= |input|
    requires end == if last == first then |input| else last
    ensures DecodeClauses(e, input, first, last).Crash? <==>
              && UnmarshalCommand(ZeroCommand, TrimSpace(input[..first])).Ok?
              && (first + 3 > end || UnmarshalAction(ZeroAction, TrimSpace(input[first + 3..end])).Crash?)
  {
    match UnmarshalCommand(ZeroCommand, TrimSpace(input[..first])) {
      case Err(_, _) =>
      case Crash =>
      case Ok(cmd) =>
        assert DecodeClauses(e, input, first, last) ==
                 if first + 3 > end then Crash else DecodeAction(e, cmd, input, first + 3, end);
        if first + 3 <= end {
          ActionCrash(e, cmd, input, first + 3, end);
        }
    }
  }

  /** Past the command, only the action parser can panic. */
  lemma ActionCrash(e: Entry, cmd: Command, input: string, start: nat, undoSep: nat)
    requires start <= undoSep <= |input|
    requires undoSep == |input| || undoSep + |Sep| <= |input|
    ensures DecodeAction(e, cmd, input, start, undoSep).Crash? <==>
              UnmarshalAction(ZeroAction, TrimSpace(input[start..undoSep])).Crash?
  {
  }

  /** When a line makes the decoder panic: a non-remark line with a separator
      whose command clause parses, and whose action span is inverted or holds
      a known action head with arguments. No other line panics. */
  lemma EntryCrash(e: Entry, text: string)
    ensures var input := TrimSpace(text);
            var first := Index(input, Sep);
            UnmarshalEntry(e, text).Crash? <==>
              && input != [] && !IsRemark(text) && first != -1
              && UnmarshalCommand(ZeroCommand, TrimSpace(input[..first])).Ok?
              && (|| InvertedActionSpan(input)
                  || UnmarshalAction(ZeroAction, TrimSpace(input[first + 3..ActionEnd(input)])).Crash?)
  {
    var input := TrimSpace(text);
    if input != [] && !IsRemark(text) && Index(input, Sep) != -1 {
      var first := Index(input, Sep);
      var last := LastIndex(input, Sep);
      EntryToClauses(e, text);
      ClausesCrash(e, input, first, last, ActionEnd(input));
    }
  }

  // The layout of `c && a`, one fact per lemma.

  lemma LineOfOneIsTrimmed(c: string, a: string)
    requires Trimmed(c) && Trimmed(a)
    ensures TrimSpace(c + " && " + a) == c + " && " + a
  {
    var line := c + " && " + a;
    assert [] + line + [] == line;
    TrimSpaceOf([], line, []);
  }

  lemma LineOfOneIsNotRemark(c: string, a: string)
    requires Trimmed(c) && !HasPrefix(c, "REM")
    ensures !HasPrefix(c + " && " + a, "REM")
  {
    assert c + " && " + a == c + " " + ("&& " + a);
    NotRemark(c, "&& " + a);
  }

  lemma LastSeparatorOfOne(c: string, a: string)
    requires Excludes(c, Sep) && Excludes(a, Sep)
    ensures LastIndex(c + " && " + a, Sep) == |c| + 1
  {
    assert c + " && " + a == (c + " &&") + " " + a;
    LastIndexAcrossSpace(c + " &&", a, Sep);
    assert c + " &&" == c + " " + Sep;
    LastIndexOfSep();
    LastIndexAcrossSpace(c, Sep, Sep);
  }

  lemma CommandSpanOfOne(c: string, a: string)
    requires Trimmed(c)
    ensures TrimSpace((c + " && " + a)[..|c| + 1]) == c
  {
    assert (c + " && " + a)[..|c| + 1] == [] + c + " ";
    TrimSpaceOf([], c, " ");
  }

  lemma ActionSpanOfOne(c: string, a: string)
    requires Trimmed(a)
    ensures TrimSpace((c + " && " + a)[|c| + 4..]) == a
  {
    assert (c + " && " + a)[|c| + 4..] == [] + a + [];
    TrimSpaceOf([], a, []);
  }

  lemma OneSeparatorToClauses(e: Entry, c: string, a: string)
    requires Trimmed(c) && Trimmed(a)
    requires Excludes(c, Sep) && Excludes(a, Sep)
    requires !HasPrefix(c, "REM")
    ensures UnmarshalEntry(e, c + " && " + a) == DecodeClauses(e, c + " && " + a, |c| + 1, |c| + 1)
  {
    LineOfOneIsTrimmed(c, a);
    LineOfOneIsNotRemark(c, a);
    FirstSeparator(c, a);
    LastSeparatorOfOne(c, a);
    EntryToClauses(e, c + " && " + a);
  }

  lemma OneSeparatorSpans(e: Entry, c: string, a: string)
    requires Trimmed(c) && Trimmed(a)
    ensures DecodeClauses(e, c + " && " + a, |c| + 1, |c| + 1) == ClauseWise(e, c, a, None)
  {
    CommandSpanOfOne(c, a);
    ActionSpanOfOne(c, a);
    OneSeparatorBySpans(e, c + " && " + a, |c| + 1);
  }

  /** A line `c && a` with single spaces round the separator decodes clause by clause. */
  lemma {:induction false} DecodeOneSeparator(e: Entry, c: string, a: string)
    requires Trimmed(c) && Trimmed(a)
    requires Excludes(c, Sep) && Excludes(a, Sep)
    requires !HasPrefix(c, "REM")
    ensures UnmarshalEntry(e, c + " && " + a) == ClauseWise(e, c, a, None)
  {
    OneSeparatorToClauses(e, c, a);
    OneSeparatorSpans(e, c, a);
  }

  // The layout of `c && a && v`, one fact per lemma.

  lemma LineOfTwoIsTrimmed(c: string, a: string, v: string)
    requires Trimmed(c) && Trimmed(v)
    ensures TrimSpace(c + " && " + a + " && " + v) == c + " && " + a + " && " + v
  {
    var line := c + " && " + a + " && " + v;
    assert [] + line + [] == line;
    TrimSpaceOf([], line, []);
  }

  lemma LineOfTwoIsNotRemark(c: string, a: string, v: string)
    requires Trimmed(c) && !HasPrefix(c, "REM")
    ensures !HasPrefix(c + " && " + a + " && " + v, "REM")
  {
    assert c + " && " + a + " && " + v == c + " " + ("&& " + a + " && " + v);
    NotRemark(c, "&& " + a + " && " + v);
  }

  lemma FirstSeparatorOfTwo(c: string, a: string, v: string)
    requires Excludes(c, Sep)
    ensures Index(c + " && " + a + " && " + v, Sep) == |c| + 1
  {
    assert c + " && " + a + " && " + v == c + " && " + (a + " && " + v);
    FirstSeparator(c, a + " && " + v);
  }

  lemma LastSeparatorOfTwo(c: string, a: string, v: string)
    requires Excludes(v, Sep)
    ensures LastIndex(c + " && " + a + " && " + v, Sep) == |c| + |a| + 5
  {
    LastSeparator(c + " && " + a, v);
  }

  lemma CommandSpanOfTwo(c: string, a: string, v: string, first: nat)
    requires Trimmed(c) && first == |c| + 1
    ensures TrimSpace((c + " && " + a + " && " + v)[..first]) == c
  {
    assert (c + " && " + a + " && " + v)[..first] == [] + c + " ";
    TrimSpaceOf([], c, " ");
  }

  lemma ActionSpanOfTwo(c: string, a: string, v: string, first: nat, last: nat)
    requires Trimmed(a) && first == |c| + 1 && last == |c| + |a| + 5
    ensures TrimSpace((c + " && " + a + " && " + v)[first + 3..last]) == a
  {
    assert (c + " && " + a + " && " + v)[first + 3..last] == [] + a + " ";
    TrimSpaceOf([], a, " ");
  }

  lemma RevertSpanOfTwo(c: string, a: string, v: string, last: nat)
    requires Trimmed(v) && last == |c| + |a| + 5
    ensures TrimSpace((c + " && " + a + " && " + v)[last + 2..]) == v
  {
    assert (c + " && " + a + " && " + v)[last + 2..] == " " + v + [];
    TrimSpaceOf(" ", v, []);
  }

  lemma TwoSeparatorsToClauses(e: Entry, c: string, a: string, v: string, first: nat, last: nat)
    requires Trimmed(c) && Trimmed(a) && Trimmed(v)
    requires Excludes(c, Sep) && Excludes(v, Sep)
    requires !HasPrefix(c, "REM")
    requires first == |c| + 1 && last == |c| + |a| + 5
    ensures UnmarshalEntry(e, c + " && " + a + " && " + v) ==
              DecodeClauses(e, c + " && " + a + " && " + v, first, last)
  {
    var line := c + " && " + a + " && " + v;
    LineOfTwoIsTrimmed(c, a, v);
    LineOfTwoIsNotRemark(c, a, v);
    FirstSeparatorOfTwo(c, a, v);
    LastSeparatorOfTwo(c, a, v);
    EntryToClauses(e, line);
  }

  lemma TwoSeparatorsSpans(e: Entry, line: string, c: string, a: string, v: string, first: nat, last: nat)
    requires first + 3 <= last && last + 2 <= |line|
    requires TrimSpace(line[..first]) == c
    requires TrimSpace(line[first + 3..last]) == a
    requires TrimSpace(line[last + 2..]) == v
    ensures DecodeClauses(e, line, first, last) == ClauseWise(e, c, a, Some(v))
  {
    TwoSeparatorsBySpans(e, line, first, last);
  }

  /** A line `c && a && v` with single spaces round the separators decodes
      clause by clause; the action clause may itself contain separators. */
  lemma {:induction false} DecodeTwoSeparators(e: Entry, c: string, a: string, v: string)
    requires Trimmed(c) && Trimmed(a) && Trimmed(v)
    requires Excludes(c, Sep) && Excludes(v, Sep)
    requires !HasPrefix(c, "REM")
    ensures UnmarshalEntry(e, c + " && " + a + " && " + v) == ClauseWise(e, c, a, Some(v))
  {
    var line := c + " && " + a + " && " + v;
    var first := |c| + 1;
    var last := |c| + |a| + 5;
    TwoSeparatorsToClauses(e, c, a, v, first, last);
    CommandSpanOfTwo(c, a, v, first);
    ActionSpanOfTwo(c, a, v, first, last);
    RevertSpanOfTwo(c, a, v, last);
    TwoSeparatorsSpans(e, line, c, a, v, first, last);
  }

  // The layout of `c &&`: a line that ends at its only separator.

  lemma LineOfTrailingIsTrimmed(c: string)
    requires Trimmed(c)
    ensures TrimSpace(c + " " + Sep) == c + " " + Sep
  {
    var line := c + " " + Sep;
    assert [] + line + [] == line;
    TrimSpaceOf([], line, []);
  }

  lemma SeparatorsOfTrailing(c: string)
    requires Excludes(c, Sep)
    ensures Index(c + " " + Sep, Sep) == |c| + 1
    ensures LastIndex(c + " " + Sep, Sep) == |c| + 1
  {
    IndexAtStart(Sep);
    IndexAcrossSpace(c, Sep, Sep);
    LastIndexOfSep();
    LastIndexAcrossSpace(c, Sep, Sep);
  }

  lemma CommandSpanOfTrailing(c: string, first: nat)
    requires Trimmed(c) && first == |c| + 1
    ensures TrimSpace((c + " " + Sep)[..first]) == c
  {
    assert (c + " " + Sep)[..first] == [] + c + " ";
    TrimSpaceOf([], c, " ");
  }

  /** The clause decoder on a line with one separator and fewer than three
      bytes from it to the end: the command is parsed, then the action
      span is inverted. */
  lemma TrailingClauses(e: Entry, line: string, first: nat)
    requires first + |Sep| == |line|
    requires UnmarshalCommand(ZeroCommand, TrimSpace(line[..first])).Ok?
    ensures DecodeClauses(e, line, first, first) == Crash
  {
  }

  /** A line that ends at its only separator panics once its command clause
      parses: the action span starts past the end of the line. */
  lemma {:induction false} TrailingSeparatorCrashes(e: Entry, c: string)
    requires Trimmed(c) && Excludes(c, Sep) && !HasPrefix(c, "REM")
    requires UnmarshalCommand(ZeroCommand, c).Ok?
    ensures UnmarshalEntry(e, c + " " + Sep) == Crash
  {
    var line := c + " " + Sep;
    LineOfTrailingIsTrimmed(c);
    NotRemark(c, Sep);
    SeparatorsOfTrailing(c);
    EntryToClauses(e, line);
    CommandSpanOfTrailing(c, |c| + 1);
    TrailingClauses(e, line, |c| + 1);
  }

  // The layout of `c &&` followed directly by a byte `b` and the text `t`:
  // the action is sliced from three bytes past the separator, so `b` is
  // skipped. With `b` the first byte of a multi-byte UTF-8 character, the
  // action text starts inside that character.

  lemma LastIndexOfSqueezed(b: char, t: string)
    requires b != '&' && Excludes(t, Sep)
    ensures LastIndex(Sep + [b] + t, Sep) == 0
  {
    var r := Sep + [b] + t;
    assert OccursAt(r, Sep, 0);
    forall k | 0 < k
      ensures !OccursAt(r, Sep, k)
    {
      if k <= 2 {
        assert r[2] == b;
      } else if OccursAt(r, Sep, k) {
        assert r[k..k + 2] == t[k - 3..k - 1];
        assert OccursAt(t, Sep, k - 3);
      }
    }
  }

  lemma SeparatorsOfSqueezed(c: string, b: char, t: string)
    requires Excludes(c, Sep) && b != '&' && Excludes(t, Sep)
    ensures Index(c + " " + (Sep + [b] + t), Sep) == |c| + 1
    ensures LastIndex(c + " " + (Sep + [b] + t), Sep) == |c| + 1
  {
    var r := Sep + [b] + t;
    assert r[..2] == Sep;
    IndexAfterSpace(c, r, Sep);
    LastIndexOfSqueezed(b, t);
    LastIndexAcrossSpace(c, r, Sep);
  }

  lemma LineOfSqueezedIsTrimmed(c: string, b: char, t: string)
    requires Trimmed(c) && Trimmed(t)
    ensures TrimSpace(c + " " + (Sep + [b] + t)) == c + " " + (Sep + [b] + t)
  {
    var line := c + " " + (Sep + [b] + t);
    assert line[|line| - 1] == t[|t| - 1];
    assert [] + line + [] == line;
    TrimSpaceOf([], line, []);
  }

  lemma SpansOfSqueezed(c: string, b: char, t: string, first: nat)
    requires Trimmed(c) && Trimmed(t) && first == |c| + 1
    ensures first + 3 <= |c + " " + (Sep + [b] + t)|
    ensures TrimSpace((c + " " + (Sep + [b] + t))[..first]) == c
    ensures TrimSpace((c + " " + (Sep + [b] + t))[first + 3..]) == t
  {
    var line := c + " " + (Sep + [b] + t);
    assert line[..first] == [] + c + " ";
    TrimSpaceOf([], c, " ");
    assert line[first + 3..] == [] + t + [];
    TrimSpaceOf([], t, []);
  }

  /** A line `c &&` followed directly by the byte `b` and the text `t`
      decodes as if its action clause were `t`: the byte after the separator
      is skipped. */
  lemma {:induction false} ByteAfterSeparatorIsSkipped(e: Entry, c: string, b: char, t: string)
    requires Trimmed(c) && Excludes(c, Sep) && !HasPrefix(c, "REM")
    requires b != '&' && Trimmed(t) && Excludes(t, Sep)
    ensures UnmarshalEntry(e, c + " " + (Sep + [b] + t)) == ClauseWise(e, c, t, None)
  {
    var line := c + " " + (Sep + [b] + t);
    LineOfSqueezedIsTrimmed(c, b, t);
    NotRemark(c, Sep + [b] + t);
    SeparatorsOfSqueezed(c, b, t);
    EntryToClauses(e, line);
    SpansOfSqueezed(c, b, t, |c| + 1);
    OneSeparatorBySpans(e, line, |c| + 1);
  }
}
