/**
 The byte-slice and string helpers of Go's standard library that the codecs
 rely on: `TrimSpace`, `Fields`, `Index`, `LastIndex`, `HasPrefix` and `Join`.

 White space is ASCII white space (space, tab, newline, vertical tab, form
 feed, carriage return); Go also treats U+0085 and U+00A0 as space, which this
 model does not.
 */
module Text {

  /** ASCII white space. */
  predicate IsSpace(c: char) {
    c == ' ' || c == '\t' || c == '\n' || c == '\U{B}' || c == '\U{C}' || c == '\r'
  }

  predicate AllSpace(s: string) {
    forall i :: 0 <= i < |s| ==> IsSpace(s[i])
  }

  predicate NoSpace(s: string) {
    forall i :: 0 <= i < |s| ==> !IsSpace(s[i])
  }

  /** A token as `Fields` produces it: non-empty and free of white space. */
  predicate IsWord(w: string) {
    w != [] && NoSpace(w)
  }

  predicate AllWords(ws: seq<string>) {
    forall i :: 0 <= i < |ws| ==> IsWord(ws[i])
  }

  predicate HasPrefix(s: string, prefix: string) {
    |prefix| <= |s| && s[..|prefix|] == prefix
  }

  // ---------------------------------------------------------------------------
  // Trimming

  /** The position of the first non-space character of `s`, or `|s|`. */
  function SpanStart(s: string): (i: nat)
    ensures i <= |s|
    ensures forall k :: 0 <= k < i ==> IsSpace(s[k])
    ensures i == |s| || !IsSpace(s[i])
  {
    if s == [] || !IsSpace(s[0]) then 0 else 1 + SpanStart(s[1..])
  }

  /** The position just after the last non-space character of `s`, or 0. */
  function SpanEnd(s: string): (j: nat)
    ensures j <= |s|
    ensures forall k :: j <= k < |s| ==> IsSpace(s[k])
    ensures j == 0 || !IsSpace(s[j - 1])
  {
    if s == [] || !IsSpace(s[|s| - 1]) then |s| else SpanEnd(s[..|s| - 1])
  }

  /** Go's `bytes.TrimSpace` / `strings.TrimSpace` on ASCII input: the span
      between the first and the last non-space character. */
  function TrimSpace(s: string): (t: string)
    ensures t == [] <==> AllSpace(s)
    ensures t != [] ==> !IsSpace(t[0]) && !IsSpace(t[|t| - 1])
  {
    var i := SpanStart(s);
    if i == |s| then []
    else
      var j := SpanEnd(s);
      assert i < j;
      s[i..j]
  }

  /** Trimming is determined by the shape of its input: white space, then a
      span that starts and ends with a non-space character, then white space. */
  lemma TrimSpaceOf(a: string, t: string, b: string)
    requires AllSpace(a) && AllSpace(b)
    requires t != [] ==> !IsSpace(t[0]) && !IsSpace(t[|t| - 1])
    ensures TrimSpace(a + t + b) == t
  {
    var s := a + t + b;
    if t == [] {
      assert AllSpace(s) by {
        assert forall k :: 0 <= k < |s| ==> s[k] == if k < |a| then a[k] else b[k - |a|];
      }
    } else {
      assert s[|a|] == t[0] && s[|a| + |t| - 1] == t[|t| - 1];
      assert forall k :: 0 <= k < |a| ==> s[k] == a[k];
      assert forall k :: |a| + |t| <= k < |s| ==> s[k] == b[k - |a| - |t|];
      assert SpanStart(s) == |a|;
      assert SpanEnd(s) == |a| + |t|;
      assert s[|a|..|a| + |t|] == t;
    }
  }

  /** What trimming removes is white space on either side. */
  lemma TrimSpaceSplits(s: string) returns (a: string, b: string)
    ensures AllSpace(a) && AllSpace(b) && s == a + TrimSpace(s) + b
  {
    if AllSpace(s) {
      a, b := s, [];
    } else {
      var i, j := SpanStart(s), SpanEnd(s);
      a, b := s[..i], s[j..];
      assert s == s[..i] + s[i..j] + s[j..];
    }
  }

  lemma TrimSpaceIdempotent(s: string)
    ensures TrimSpace(TrimSpace(s)) == TrimSpace(s)
  {
    var t := TrimSpace(s);
    assert [] + t + [] == t;
    TrimSpaceOf([], t, []);
  }

  /** Input that begins with a non-space character only loses trailing space. */
  lemma TrimSpaceKeepsStart(s: string)
    requires s != [] && !IsSpace(s[0])
    ensures TrimSpace(s) == s[..|TrimSpace(s)|]
    ensures AllSpace(s[|TrimSpace(s)|..])
  {
  }

  // ---------------------------------------------------------------------------
  // Splitting into fields

  /** The longest prefix of `s` without white space. */
  function Word(s: string): (w: string)
    ensures |w| <= |s| && w == s[..|w|] && NoSpace(w)
    ensures |w| == |s| || IsSpace(s[|w|])
  {
    if s == [] || IsSpace(s[0]) then [] else [s[0]] + Word(s[1..])
  }

  /** Go's `bytes.Fields` / `strings.Fields` on ASCII input: the maximal runs of
      non-space characters, in order. */
  function Fields(s: string): (fs: seq<string>)
    ensures AllWords(fs)
    ensures fs == [] <==> AllSpace(s)
    decreases |s|
  {
    if s == [] then []
    else if IsSpace(s[0]) then
      var rest := Fields(s[1..]);
      assert rest == [] ==> AllSpace(s) by {
        if rest == [] {
          assert forall i :: 1 <= i < |s| ==> s[i] == s[1..][i - 1];
        }
      }
      rest
    else
      var w := Word(s);
      [w] + Fields(s[|w|..])
  }

  lemma {:induction false} WordStopsAtSpace(x: string, y: string)
    requires y == [] || IsSpace(y[0])
    ensures Word(x + y) == Word(x)
    decreases |x|
  {
    if x == [] {
      assert x + y == y;
    } else if !IsSpace(x[0]) {
      assert (x + y)[1..] == x[1..] + y;
      WordStopsAtSpace(x[1..], y);
    }
  }

  /** A white-space character separates fields: splitting distributes over it. */
  lemma {:induction false} FieldsSplit(x: string, y: string)
    requires y == [] || IsSpace(y[0])
    ensures Fields(x + y) == Fields(x) + Fields(y)
    decreases |x|
  {
    if x == [] {
      assert x + y == y;
    } else if IsSpace(x[0]) {
      assert (x + y)[1..] == x[1..] + y;
      FieldsSplit(x[1..], y);
    } else {
      var w := Word(x);
      WordStopsAtSpace(x, y);
      assert (x + y)[|w|..] == x[|w|..] + y;
      FieldsSplit(x[|w|..], y);
    }
  }

  lemma FieldsOfSpace(s: string)
    requires AllSpace(s)
    ensures Fields(s) == []
  {
  }

  lemma FieldsOfSpaceThen(s: string)
    ensures Fields(" " + s) == Fields(s)
  {
    assert (" " + s)[1..] == s;
  }

  lemma FieldsOfSpaceAfter(s: string)
    ensures Fields(s + " ") == Fields(s)
  {
    FieldsSplit(s, " ");
    FieldsOfSpace(" ");
    assert Fields(s) + [] == Fields(s);
  }

  lemma FieldsOfWord(w: string)
    requires IsWord(w)
    ensures Fields(w) == [w]
  {
    assert Word(w) == w by {
      WordStopsAtSpace(w, []);
      assert w + [] == w;
    }
    assert w[|w|..] == [];
  }

  /** The first field of a string that starts with a non-space character is
      a prefix of it. */
  lemma FirstFieldIsPrefix(s: string)
    requires s != [] && !IsSpace(s[0])
    ensures Fields(s) != [] && HasPrefix(s, Fields(s)[0])
  {
  }

  /** Trimming does not change the fields. */
  lemma FieldsOfTrimSpace(s: string)
    ensures Fields(TrimSpace(s)) == Fields(s)
  {
    var a, b := TrimSpaceSplits(s);
    FieldsOfPadded(a, TrimSpace(s), b);
  }

  /** White space around a string does not change its fields. */
  lemma FieldsOfPadded(a: string, t: string, b: string)
    requires AllSpace(a) && AllSpace(b)
    ensures Fields(a + t + b) == Fields(t)
  {
    calc {
      Fields(a + t + b);
    == { FieldsSplit(a + t, b); }
      Fields(a + t) + Fields(b);
    == { FieldsOfSpace(b); }
      Fields(a + t) + [];
    == { FieldsSkipSpace(a, t); }
      Fields(t) + [];
    }
  }

  lemma {:induction false} FieldsSkipSpace(a: string, s: string)
    requires AllSpace(a)
    ensures Fields(a + s) == Fields(s)
    decreases |a|
  {
    if a != [] {
      assert (a + s)[1..] == a[1..] + s;
      FieldsSkipSpace(a[1..], s);
    } else {
      assert a + s == s;
    }
  }

  // ---------------------------------------------------------------------------
  // Joining

  /** Go's `strings.Join`. */
  function Join(ws: seq<string>, sep: string): string
  {
    if ws == [] then []
    else if |ws| == 1 then ws[0]
    else ws[0] + sep + Join(ws[1..], sep)
  }

  /** Splitting undoes joining with a space, when every part is a word. */
  lemma {:induction false} FieldsOfJoin(ws: seq<string>)
    requires AllWords(ws)
    ensures Fields(Join(ws, " ")) == ws
  {
    if ws == [] {
    } else if |ws| == 1 {
      FieldsOfWord(ws[0]);
    } else {
      var rest := Join(ws[1..], " ");
      assert Join(ws, " ") == ws[0] + (" " + rest);
      calc {
        Fields(Join(ws, " "));
      == { FieldsSplit(ws[0], " " + rest); }
        Fields(ws[0]) + Fields(" " + rest);
      == { FieldsOfWord(ws[0]); FieldsOfSpaceThen(rest); }
        [ws[0]] + Fields(rest);
      == { FieldsOfJoin(ws[1..]); }
        [ws[0]] + ws[1..];
      }
    }
  }

  // ---------------------------------------------------------------------------
  // Searching

  /** `sep` occurs in `s` starting at position `i`. */
  predicate OccursAt(s: string, sep: string, i: int) {
    0 <= i && i + |sep| <= |s| && s[i..i + |sep|] == sep
  }

  predicate Excludes(s: string, sep: string) {
    forall k :: 0 <= k <= |s| ==> !OccursAt(s, sep, k)
  }

  /** Go's `bytes.Index`: the first position of `sep` in `s`, or -1. */
  function Index(s: string, sep: string): (i: int)
    ensures -1 <= i <= |s|
    ensures i == -1 <==> Excludes(s, sep)
    ensures i != -1 ==> OccursAt(s, sep, i) && forall k :: k < i ==> !OccursAt(s, sep, k)
  {
    IndexFrom(s, sep, 0)
  }

  function IndexFrom(s: string, sep: string, from: nat): (i: int)
    requires forall k :: k < from ==> !OccursAt(s, sep, k)
    ensures -1 <= i <= |s|
    ensures i == -1 <==> Excludes(s, sep)
    ensures i != -1 ==> OccursAt(s, sep, i) && forall k :: k < i ==> !OccursAt(s, sep, k)
    decreases |s| + 1 - from
  {
    if from + |sep| > |s| then -1
    else if s[from..from + |sep|] == sep then assert OccursAt(s, sep, from); from
    else IndexFrom(s, sep, from + 1)
  }

  /** Go's `bytes.LastIndex`: the last position of `sep` in `s`, or -1. */
  function LastIndex(s: string, sep: string): (i: int)
    ensures -1 <= i <= |s|
    ensures i == -1 <==> Excludes(s, sep)
    ensures i != -1 ==> OccursAt(s, sep, i) && forall k :: i < k ==> !OccursAt(s, sep, k)
  {
    LastIndexFrom(s, sep, |s| - |sep|)
  }

  function LastIndexFrom(s: string, sep: string, from: int): (i: int)
    requires from <= |s| - |sep|
    requires forall k :: from < k ==> !OccursAt(s, sep, k)
    ensures -1 <= i <= |s|
    ensures i == -1 <==> Excludes(s, sep)
    ensures i != -1 ==> OccursAt(s, sep, i) && forall k :: i < k ==> !OccursAt(s, sep, k)
    decreases from + 1
  {
    if from < 0 then -1
    else if s[from..from + |sep|] == sep then assert OccursAt(s, sep, from); from
    else LastIndexFrom(s, sep, from - 1)
  }

  /** A single space splits the occurrences of a space-free pattern: each one
      lies wholly on one side. */
  lemma OccursAcrossSpace(x: string, y: string, sep: string, k: int)
    requires IsWord(sep)
    ensures OccursAt(x + " " + y, sep, k) <==> OccursAt(x, sep, k) || OccursAt(y, sep, k - |x| - 1)
  {
    var s := x + " " + y;
    if OccursAt(s, sep, k) {
      // An occurrence cannot cover the space at position |x|.
      assert s[|x|] == ' ';
      forall j | k <= j < k + |sep| ensures !IsSpace(s[j]) {
        assert s[j] == s[k..k + |sep|][j - k];
      }
      assert !(k <= |x| < k + |sep|);
      if k + |sep| <= |x| {
        assert s[k..k + |sep|] == x[k..k + |sep|];
      } else {
        assert s[k..k + |sep|] == y[k - |x| - 1..k - |x| - 1 + |sep|];
      }
    }
    if OccursAt(x, sep, k) {
      assert s[k..k + |sep|] == x[k..k + |sep|];
    }
    if OccursAt(y, sep, k - |x| - 1) {
      assert s[k..k + |sep|] == y[k - |x| - 1..k - |x| - 1 + |sep|];
    }
  }

  lemma ExcludesAcrossSpace(x: string, y: string, sep: string)
    requires IsWord(sep)
    ensures Excludes(x + " " + y, sep) <==> Excludes(x, sep) && Excludes(y, sep)
  {
    if Excludes(x + " " + y, sep) {
      forall k ensures !OccursAt(x, sep, k) {
        OccursAcrossSpace(x, y, sep, k);
      }
      forall k ensures !OccursAt(y, sep, k) {
        OccursAcrossSpace(x, y, sep, k + |x| + 1);
      }
    }
    if Excludes(x, sep) && Excludes(y, sep) {
      forall k ensures !OccursAt(x + " " + y, sep, k) {
        OccursAcrossSpace(x, y, sep, k);
      }
    }
  }

  /** The first occurrence in `x + " " + y` is the first in `x`, or else the
      first in `y`, shifted. */
  lemma IndexAcrossSpace(x: string, y: string, sep: string)
    requires IsWord(sep)
    ensures Index(x + " " + y, sep) ==
      if Index(x, sep) != -1 then Index(x, sep)
      else if Index(y, sep) == -1 then -1
      else |x| + 1 + Index(y, sep)
  {
    var s := x + " " + y;
    ExcludesAcrossSpace(x, y, sep);
    var i := Index(s, sep);
    if i != -1 {
      OccursAcrossSpace(x, y, sep, i);
      var ix := Index(x, sep);
      if ix != -1 {
        OccursAcrossSpace(x, y, sep, ix);
      } else {
        var iy := Index(y, sep);
        OccursAcrossSpace(x, y, sep, |x| + 1 + iy);
      }
    }
  }

  /** The last occurrence in `x + " " + y` is the last in `y`, shifted, or
      else the last in `x`. */
  lemma LastIndexAcrossSpace(x: string, y: string, sep: string)
    requires IsWord(sep)
    ensures LastIndex(x + " " + y, sep) ==
      if LastIndex(y, sep) != -1 then |x| + 1 + LastIndex(y, sep)
      else LastIndex(x, sep)
  {
    var s := x + " " + y;
    ExcludesAcrossSpace(x, y, sep);
    var i := LastIndex(s, sep);
    if i != -1 {
      OccursAcrossSpace(x, y, sep, i);
      var iy := LastIndex(y, sep);
      if iy != -1 {
        OccursAcrossSpace(x, y, sep, |x| + 1 + iy);
      } else {
        OccursAcrossSpace(x, y, sep, LastIndex(x, sep));
      }
    }
  }

  /** Joining space-free parts with a space introduces no occurrence of a
      space-free pattern. */
  lemma {:induction false} JoinExcludes(ws: seq<string>, sep: string)
    requires IsWord(sep)
    requires forall i :: 0 <= i < |ws| ==> Excludes(ws[i], sep)
    ensures Excludes(Join(ws, " "), sep)
  {
    if |ws| > 1 {
      JoinExcludes(ws[1..], sep);
      ExcludesAcrossSpace(ws[0], Join(ws[1..], " "), sep);
    }
  }

  /** A prefix long enough to hold the first occurrence has that same first
      occurrence. */
  lemma IndexOfPrefix(s: string, m: nat, sep: string)
    requires m <= |s|
    requires Index(s, sep) != -1 && Index(s, sep) + |sep| <= m
    ensures Index(s[..m], sep) == Index(s, sep)
  {
    var i := Index(s, sep);
    assert s[..m][i..i + |sep|] == s[i..i + |sep|];
    assert OccursAt(s[..m], sep, i);
    forall k | OccursAt(s[..m], sep, k)
      ensures OccursAt(s, sep, k)
    {
      assert s[..m][k..k + |sep|] == s[k..k + |sep|];
    }
    var j := Index(s[..m], sep);
    assert j != -1 && j <= i;
    assert OccursAt(s, sep, j);
  }

  /** A prefix of a string that lacks a pattern lacks it too. */
  lemma ExcludesPrefix(s: string, m: nat, sep: string)
    requires m <= |s| && Excludes(s, sep)
    ensures Excludes(s[..m], sep)
  {
    forall k | OccursAt(s[..m], sep, k)
      ensures OccursAt(s, sep, k)
    {
      assert s[..m][k..k + |sep|] == s[k..k + |sep|];
    }
  }

  /** A string without the first character of `sep` does not contain `sep`. */
  lemma ExcludesByFirst(s: string, sep: string)
    requires sep != []
    requires forall i :: 0 <= i < |s| ==> s[i] != sep[0]
    ensures Excludes(s, sep)
  {
    forall k | 0 <= k <= |s|
      ensures !OccursAt(s, sep, k)
    {
      if k + |sep| <= |s| {
        assert s[k..k + |sep|][0] == s[k];
      }
    }
  }

  /** A pattern that starts right after a space, with none before it, is first found there. */
  lemma IndexAfterSpace(x: string, rest: string, sep: string)
    requires IsWord(sep) && Excludes(x, sep) && HasPrefix(rest, sep)
    ensures Index(x + " " + rest, sep) == |x| + 1
  {
    assert OccursAt(rest, sep, 0);
    IndexAcrossSpace(x, rest, sep);
  }

  /** The part of a string before the first occurrence of a pattern lacks it. */
  lemma ExcludesBeforeIndex(s: string, sep: string)
    requires sep != [] && Index(s, sep) >= 0
    ensures Excludes(s[..Index(s, sep)], sep)
  {
    var m := Index(s, sep);
    forall k | OccursAt(s[..m], sep, k)
      ensures OccursAt(s, sep, k)
    {
      assert s[..m][k..k + |sep|] == s[k..k + |sep|];
    }
  }

  /** A suffix of a string that lacks a pattern lacks it too. */
  lemma ExcludesSuffix(s: string, m: nat, sep: string)
    requires m <= |s| && Excludes(s, sep)
    ensures Excludes(s[m..], sep)
  {
    forall k | OccursAt(s[m..], sep, k)
      ensures OccursAt(s, sep, k + m)
    {
      assert s[m..][k..k + |sep|] == s[k + m..k + m + |sep|];
    }
  }

  /** The fields of a string that lacks a pattern lack it too. */
  lemma {:induction false} FieldsExclude(s: string, sep: string)
    requires Excludes(s, sep)
    ensures forall i :: 0 <= i < |Fields(s)| ==> Excludes(Fields(s)[i], sep)
    decreases |s|
  {
    if s == [] {
    } else if IsSpace(s[0]) {
      ExcludesSuffix(s, 1, sep);
      FieldsExclude(s[1..], sep);
    } else {
      var w := Word(s);
      ExcludesPrefix(s, |w|, sep);
      ExcludesSuffix(s, |w|, sep);
      FieldsExclude(s[|w|..], sep);
    }
  }
}
