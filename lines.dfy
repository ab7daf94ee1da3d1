/** Iterating over a text file line by line, as `for line in f` does on a file
    opened in text mode: each line keeps its '\n' terminator, a final line
    without a terminator is still produced, and no empty line follows a
    trailing '\n'. The text is taken after decoding and newline translation. */
module Lines {

  /** Number of occurrences of `c` in `s`. */
  function Count(s: string, c: char): nat
  {
    if s == [] then 0 else (if s[0] == c then 1 else 0) + Count(s[1..], c)
  }

  /** Length of the first line of a non-empty text, terminator included: up to
      and including the first '\n', or the whole text when it has none. */
  function FirstLineLength(s: string): (k: nat)
    requires s != []
    ensures 0 < k <= |s|
    ensures forall i :: 0 <= i < k - 1 ==> s[i] != '\n'
    ensures k == |s| || s[k - 1] == '\n'
  {
    if s[0] == '\n' || |s| == 1 then 1 else 1 + FirstLineLength(s[1..])
  }

  /** The lines a text-mode file iteration yields for the text `s`. */
  function SplitLines(s: string): seq<string>
    decreases |s|
  {
    if s == [] then []
    else
      var k := FirstLineLength(s);
      [s[..k]] + SplitLines(s[k..])
  }

  /** Concatenation of lines: what writing them back out produces. */
  function Join(lines: seq<string>): string
  {
    if lines == [] then [] else lines[0] + Join(lines[1..])
  }

  /** A line as the iteration yields it: not empty, no '\n' before its last
      character, and ending in '\n' unless it is the last line. */
  ghost predicate IsLine(line: string, last: bool)
  {
    line != [] &&
    (forall i :: 0 <= i < |line| - 1 ==> line[i] != '\n') &&
    (!last ==> line[|line| - 1] == '\n')
  }

  ghost predicate WellFormedLines(lines: seq<string>)
  {
    forall j :: 0 <= j < |lines| ==> IsLine(lines[j], j == |lines| - 1)
  }

  /** Concatenating the lines gives back the text: nothing is lost or added. */
  lemma {:induction false} JoinSplitLines(s: string)
    ensures Join(SplitLines(s)) == s
    decreases |s|
  {
    if s != [] {
      var k := FirstLineLength(s);
      JoinSplitLines(s[k..]);
      assert s == s[..k] + s[k..];
    }
  }

  /** Every line yielded is well formed. */
  lemma {:induction false} SplitLinesWellFormed(s: string)
    ensures WellFormedLines(SplitLines(s))
    decreases |s|
  {
    if s != [] {
      var k := FirstLineLength(s);
      SplitLinesWellFormed(s[k..]);
      var lines := SplitLines(s);
      assert lines == [s[..k]] + SplitLines(s[k..]);
      if k < |s| {
        assert SplitLines(s[k..]) != [];
      }
    }
  }

  /** A complete line followed by more text is split off as the first line. */
  lemma SplitLinesCons(line: string, rest: string)
    requires IsLine(line, false)
    ensures SplitLines(line + rest) == [line] + SplitLines(rest)
  {
    var s, n := line + rest, |line|;
    assert s[..n] == line && s[n..] == rest;
    assert FirstLineLength(s) == n by {
      assert s[n - 1] == '\n';
      forall i | 0 <= i < n - 1 ensures s[i] != '\n' {
        assert s[i] == line[i];
      }
    }
  }

  /** A single well-formed line splits to itself. */
  lemma SplitLinesOfLine(line: string, last: bool)
    requires IsLine(line, last)
    ensures SplitLines(line) == [line]
  {
    var k := FirstLineLength(line);
    assert k == |line|;
    assert line[..k] == line;
    assert line[k..] == [];
    assert SplitLines(line) == [line[..k]] + SplitLines(line[k..]);
  }

  /** Uniqueness: a sequence of well-formed lines is exactly what splitting
      its concatenation yields. */
  lemma {:induction false} SplitLinesJoin(lines: seq<string>)
    requires WellFormedLines(lines)
    ensures SplitLines(Join(lines)) == lines
  {
    if lines != [] {
      var rest := lines[1..];
      assert WellFormedLines(rest) by {
        forall j | 0 <= j < |rest|
          ensures IsLine(rest[j], j == |rest| - 1)
        {
          assert rest[j] == lines[j + 1];
        }
      }
      SplitLinesJoin(rest);
      assert IsLine(lines[0], |lines| == 1);
      SplitLinesOfLine(lines[0], |lines| == 1);
      if |lines| == 1 {
        assert Join(rest) == [];
        assert Join(lines) == lines[0];
      } else {
        SplitLinesCons(lines[0], Join(rest));
      }
    }
  }

  lemma {:induction false} CountAppend(a: string, b: string, c: char)
    ensures Count(a + b, c) == Count(a, c) + Count(b, c)
    decreases |a|
  {
    if a != [] {
      assert (a + b)[0] == a[0];
      assert (a + b)[1..] == a[1..] + b;
      CountAppend(a[1..], b, c);
    } else {
      assert a + b == b;
    }
  }

  lemma {:induction false} JoinAppend(a: seq<string>, b: seq<string>)
    ensures Join(a + b) == Join(a) + Join(b)
  {
    if a == [] {
      assert a + b == b;
    } else {
      assert (a + b)[0] == a[0];
      assert (a + b)[1..] == a[1..] + b;
      JoinAppend(a[1..], b);
    }
  }

  /** Joining one more line appends it. */
  lemma JoinSnoc(m: seq<string>, k: nat)
    requires 0 < k <= |m|
    ensures Join(m[..k]) == Join(m[..k - 1]) + m[k - 1]
  {
    assert m[..k] == m[..k - 1] + [m[k - 1]];
    JoinAppend(m[..k - 1], [m[k - 1]]);
    assert [m[k - 1]][1..] == [];
  }

  /** Text without a line break, followed by a terminator whose only line
      break is its last character, is a complete line. */
  lemma LineOfParts(body: string, end: string)
    requires '\n' !in body && end != [] && end[|end| - 1] == '\n'
    requires forall i :: 0 <= i < |end| - 1 ==> end[i] != '\n'
    ensures IsLine(body + end, false)
  {
    var line := body + end;
    forall i | 0 <= i < |line| - 1 ensures line[i] != '\n' {
      if i < |body| {
        assert line[i] == body[i];
      } else {
        assert line[i] == end[i - |body|];
      }
    }
  }

  /** A well-formed line holds one '\n' if it ends in one and none otherwise. */
  lemma CountInLine(line: string, last: bool)
    requires IsLine(line, last)
    ensures Count(line, '\n') == if line[|line| - 1] == '\n' then 1 else 0
  {
    var n := |line| - 1;
    CountAppend(line[..n], [line[n]], '\n');
    assert line == line[..n] + [line[n]];
    CountFree(line[..n], '\n');
    assert [line[n]][1..] == [];
  }

  lemma {:induction false} CountFree(s: string, c: char)
    requires forall i :: 0 <= i < |s| ==> s[i] != c
    ensures Count(s, c) == 0
    decreases |s|
  {
    if s != [] {
      CountFree(s[1..], c);
    }
  }

  /** The number of lines yielded is the number of '\n' in the text, plus one
      for a non-empty final line that lacks a terminator. */
  lemma {:induction false} LineCount(s: string)
    ensures |SplitLines(s)| == Count(s, '\n') + (if s != [] && s[|s| - 1] != '\n' then 1 else 0)
    decreases |s|
  {
    if s != [] {
      var k := FirstLineLength(s);
      var head, tail := s[..k], s[k..];
      assert s == head + tail;
      CountAppend(head, tail, '\n');
      LineCount(tail);
      assert IsLine(head, k == |s|);
      CountInLine(head, k == |s|);
      if k < |s| {
        assert tail[|tail| - 1] == s[|s| - 1];
      }
    }
  }
}
