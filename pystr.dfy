/**
  The few operations on Python `str` values that the constraint engine uses:
  `str.splitlines()`, `str.strip()`, `str.split(sep)` and `sep.join(parts)`.
  Strings are sequences of Unicode scalar values.
 */
module PyStr {

  /** The characters `str.splitlines()` treats as line boundaries. */
  predicate IsLineBreak(c: char) {
    || c == '\n' || c == '\r'
    || c == '\U{0B}' || c == '\U{0C}'
    || c == '\U{1C}' || c == '\U{1D}' || c == '\U{1E}'
    || c == '\U{85}' || c == '\U{2028}' || c == '\U{2029}'
  }

  /** The characters for which `str.isspace()` holds, the ones `str.strip()` removes. */
  predicate IsSpace(c: char) {
    || c == ' ' || c == '\t' || c == '\n' || c == '\r'
    || c == '\U{0B}' || c == '\U{0C}'
    || ('\U{1C}' <= c <= '\U{1F}')
    || c == '\U{85}' || c == '\U{A0}' || c == '\U{1680}'
    || ('\U{2000}' <= c <= '\U{200A}')
    || c == '\U{2028}' || c == '\U{2029}' || c == '\U{202F}' || c == '\U{205F}'
    || c == '\U{3000}'
  }

  predicate NoLineBreak(s: string) {
    forall i :: 0 <= i < |s| ==> !IsLineBreak(s[i])
  }

  /** A string with no white space at either end: what `str.strip()` returns. */
  predicate Stripped(s: string) {
    s == [] || (!IsSpace(s[0]) && !IsSpace(s[|s| - 1]))
  }

  /** Index of the first line boundary in `s`, or `|s|` when there is none. */
  function FirstLineBreak(s: string): (k: nat)
    ensures k <= |s|
    ensures k < |s| ==> IsLineBreak(s[k])
    ensures forall j :: 0 <= j < k ==> !IsLineBreak(s[j])
  {
    if s == [] || IsLineBreak(s[0]) then 0 else 1 + FirstLineBreak(s[1..])
  }

  /** Length of the boundary at `k`: a carriage return followed by a line feed is one boundary. */
  function BoundaryLength(s: string, k: nat): (n: nat)
    requires k < |s|
    ensures 1 <= n && k + n <= |s|
  {
    if s[k] == '\r' && k + 1 < |s| && s[k + 1] == '\n' then 2 else 1
  }

  /**
    `str.splitlines()`: the text between boundaries, boundaries dropped; a
    boundary at the very end opens no further (empty) line.
   */
  function SplitLines(s: string): (lines: seq<string>)
    ensures forall line :: line in lines ==> NoLineBreak(line)
    ensures s == [] <==> lines == []
    decreases |s|
  {
    if s == [] then []
    else
      var k := FirstLineBreak(s);
      if k == |s| then [s]
      else [s[..k]] + SplitLines(s[k + BoundaryLength(s, k)..])
  }

  /**
    `str.strip()`: what is left once the white space at both ends is removed;
    a string with none at either end is returned as it is.
   */
  function Strip(s: string): (r: string)
    ensures Stripped(r) && |r| <= |s|
    ensures Stripped(s) ==> r == s
    ensures NoLineBreak(s) ==> NoLineBreak(r)
    decreases |s|
  {
    if s != [] && IsSpace(s[0]) then Strip(s[1..])
    else if s != [] && IsSpace(s[|s| - 1]) then Strip(s[..|s| - 1])
    else s
  }

  /** `s[i..i + |r|]` is `r`, and everything around it in `s` is white space. */
  predicate TrimmedAt(s: string, r: string, i: nat) {
    && i + |r| <= |s| && s[i..i + |r|] == r
    && (forall j :: 0 <= j < i ==> IsSpace(s[j]))
    && (forall j :: i + |r| <= j < |s| ==> IsSpace(s[j]))
  }

  /** `Strip` removes white space at the two ends and nothing else. */
  lemma {:induction false} StripTrims(s: string)
    ensures exists i: nat :: TrimmedAt(s, Strip(s), i)
    decreases |s|
  {
    var r := Strip(s);
    if s != [] && IsSpace(s[0]) {
      StripTrims(s[1..]);
      var i: nat :| TrimmedAt(s[1..], r, i);
      TrimmedAtLeft(s, r, i);
    } else if s != [] && IsSpace(s[|s| - 1]) {
      StripTrims(s[..|s| - 1]);
      var i: nat :| TrimmedAt(s[..|s| - 1], r, i);
      TrimmedAtRight(s, r, i);
    } else {
      assert TrimmedAt(s, r, 0);
    }
  }

  /** Putting back one white-space character in front. */
  lemma TrimmedAtLeft(s: string, r: string, i: nat)
    requires s != [] && IsSpace(s[0]) && TrimmedAt(s[1..], r, i)
    ensures TrimmedAt(s, r, i + 1)
  {
    assert s[i + 1..i + 1 + |r|] == s[1..][i..i + |r|];
  }

  /** Putting back one white-space character at the end. */
  lemma TrimmedAtRight(s: string, r: string, i: nat)
    requires s != [] && IsSpace(s[|s| - 1]) && TrimmedAt(s[..|s| - 1], r, i)
    ensures TrimmedAt(s, r, i)
  {
    assert s[i..i + |r|] == s[..|s| - 1][i..i + |r|];
  }

  /** `sep.join(parts)`. */
  function Join(parts: seq<string>, sep: string): (s: string)
    decreases |parts|
  {
    if parts == [] then ""
    else if |parts| == 1 then parts[0]
    else parts[0] + sep + Join(parts[1..], sep)
  }

  /** Index of the first `c` in `s`, or `|s|` when `c` does not occur. */
  function FirstIndexOf(s: string, c: char): (k: nat)
    ensures k <= |s|
    ensures k < |s| ==> s[k] == c
    ensures forall j :: 0 <= j < k ==> s[j] != c
  {
    if s == [] || s[0] == c then 0 else 1 + FirstIndexOf(s[1..], c)
  }

  /** `s.split(sep)` with an explicit one-character separator. */
  function Split(s: string, sep: char): (parts: seq<string>)
    ensures |parts| >= 1
    ensures forall part :: part in parts ==> sep !in part
    ensures |parts| == 1 <==> sep !in s
    decreases |s|
  {
    var k := FirstIndexOf(s, sep);
    if k == |s| then [s] else [s[..k]] + Split(s[k + 1..], sep)
  }

  /** Joining a list of two or more parts: the first part, the separator, the rest joined. */
  lemma JoinCons(head: string, rest: seq<string>, sep: string)
    requires rest != []
    ensures Join([head] + rest, sep) == head + sep + Join(rest, sep)
  {
    assert ([head] + rest)[1..] == rest;
  }

  /** Splitting at the first separator: the text before it, then the split of the text after it. */
  lemma SplitAtFirst(s: string, sep: char)
    requires FirstIndexOf(s, sep) < |s|
    ensures Split(s, sep) == [s[..FirstIndexOf(s, sep)]] + Split(s[FirstIndexOf(s, sep) + 1..], sep)
  {
  }

  /** Joining with the separator undoes splitting on it. */
  lemma {:induction false} JoinSplit(s: string, sep: char)
    ensures Join(Split(s, sep), [sep]) == s
    decreases |s|
  {
    var k := FirstIndexOf(s, sep);
    if k < |s| {
      JoinSplit(s[k + 1..], sep);
      JoinSplitStep(s, sep);
    }
  }

  /** One step of `JoinSplit`: the text after the first separator already round-trips. */
  lemma JoinSplitStep(s: string, sep: char)
    requires FirstIndexOf(s, sep) < |s|
    requires Join(Split(s[FirstIndexOf(s, sep) + 1..], sep), [sep]) == s[FirstIndexOf(s, sep) + 1..]
    ensures Join(Split(s, sep), [sep]) == s
  {
    var k := FirstIndexOf(s, sep);
    var head, rest := s[..k], s[k + 1..];
    SplitAtFirst(s, sep);
    JoinCons(head, Split(rest, sep), [sep]);
    SplitAround(s, k);
  }

  /** A sequence is what comes before position `k`, the element at `k`, then what comes after. */
  lemma SplitAround<T>(s: seq<T>, k: nat)
    requires k < |s|
    ensures s == s[..k] + [s[k]] + s[k + 1..]
  {
  }

  /** Splitting undoes joining, when no part contains the separator. */
  lemma {:induction false} SplitJoin(parts: seq<string>, sep: char)
    requires |parts| >= 1
    requires forall part :: part in parts ==> sep !in part
    ensures Split(Join(parts, [sep]), sep) == parts
    decreases |parts|
  {
    assert parts[0] in parts;
    if |parts| > 1 {
      assert forall part :: part in parts[1..] ==> part in parts;
      SplitJoin(parts[1..], sep);
      SplitJoinStep(parts[0], parts[1..], sep);
      assert parts == [parts[0]] + parts[1..];
    } else {
      assert FirstIndexOf(parts[0], sep) == |parts[0]|;
    }
  }

  /** One step of `SplitJoin`: a part without the separator, put in front of parts that already round-trip. */
  lemma SplitJoinStep(head: string, rest: seq<string>, sep: char)
    requires sep !in head && rest != []
    requires Split(Join(rest, [sep]), sep) == rest
    ensures Split(Join([head] + rest, [sep]), sep) == [head] + rest
  {
    JoinCons(head, rest, [sep]);
    var tail := Join(rest, [sep]);
    var s := head + [sep] + tail;
    assert forall j :: 0 <= j < |head| ==> s[j] == head[j];
    assert s[|head|] == sep;
    assert FirstIndexOf(s, sep) == |head|;
    assert s[..|head|] == head && s[|head| + 1..] == tail;
    SplitAtFirst(s, sep);
  }

  /** Joining a concatenation puts one separator between the two joined halves. */
  lemma {:induction false} JoinAppend(a: seq<string>, b: seq<string>, sep: string)
    requires a != [] && b != []
    ensures Join(a + b, sep) == Join(a, sep) + sep + Join(b, sep)
    decreases |a|
  {
    if |a| == 1 {
      assert (a + b)[1..] == b;
    } else {
      assert (a + b)[1..] == a[1..] + b;
      JoinAppend(a[1..], b, sep);
    }
  }

  /** A text without boundaries is a single line. */
  lemma SplitLinesSingle(s: string)
    requires s != [] && NoLineBreak(s)
    ensures SplitLines(s) == [s]
  {
    assert FirstLineBreak(s) == |s|;
  }

  /**
    A line with no boundary in it, then one boundary character, is the first
    line of the text, unless the character is a carriage return that a line
    feed follows.
   */
  lemma SplitLinesBreak(line: string, c: char, rest: string)
    requires NoLineBreak(line) && IsLineBreak(c)
    requires !(c == '\r' && rest != [] && rest[0] == '\n')
    ensures SplitLines(line + [c] + rest) == [line] + SplitLines(rest)
  {
    var s := line + [c] + rest;
    assert s[..|line|] == line;
    assert s[|line|] == c;
    assert FirstLineBreak(s) == |line|;
    assert BoundaryLength(s, |line|) == 1 by {
      if c == '\r' && |line| + 1 < |s| {
        assert s[|line| + 1] == rest[0];
      }
    }
    assert s[|line| + 1..] == rest;
  }

  /** A carriage return followed by a line feed is one boundary, not two. */
  lemma SplitLinesCrLf(line: string, rest: string)
    requires NoLineBreak(line)
    ensures SplitLines(line + "\r\n" + rest) == [line] + SplitLines(rest)
  {
    var s := line + "\r\n" + rest;
    assert s[..|line|] == line;
    assert s[|line|] == '\r' && s[|line| + 1] == '\n';
    assert FirstLineBreak(s) == |line|;
    assert BoundaryLength(s, |line|) == 2;
    assert s[|line| + 2..] == rest;
  }

  /** A line with no boundary in it, then a line feed, is the first line of the text. */
  lemma SplitLinesCons(line: string, rest: string)
    requires NoLineBreak(line)
    ensures SplitLines(line + "\n" + rest) == [line] + SplitLines(rest)
  {
    SplitLinesBreak(line, '\n', rest);
  }

  /** Lines joined with line feeds split back into the same lines. */
  lemma {:induction false} SplitLinesJoin(lines: seq<string>)
    requires forall line :: line in lines ==> line != [] && NoLineBreak(line)
    ensures SplitLines(Join(lines, "\n")) == lines
    decreases |lines|
  {
    if |lines| == 1 {
      assert lines[0] in lines;
      assert FirstLineBreak(lines[0]) == |lines[0]|;
    } else if |lines| > 1 {
      assert lines[0] in lines;
      assert forall line :: line in lines[1..] ==> line in lines;
      SplitLinesJoin(lines[1..]);
      SplitLinesJoinStep(lines);
    }
  }

  /** One step of `SplitLinesJoin`: a first line without boundaries in front of lines that already round-trip. */
  lemma SplitLinesJoinStep(lines: seq<string>)
    requires |lines| > 1 && NoLineBreak(lines[0])
    requires SplitLines(Join(lines[1..], "\n")) == lines[1..]
    ensures SplitLines(Join(lines, "\n")) == lines
  {
    SplitLinesCons(lines[0], Join(lines[1..], "\n"));
    SplitAround(lines, 0);
    assert lines[..0] == [];
  }
}
