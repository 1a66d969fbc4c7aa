/** Character-level framing shared by every layer: splitting on a separator
    character (as `str::split(char)` does), joining with one, writing a
    terminator after every piece, and breaking a block into lines (as
    `str::lines` does). */
module Text {

  const Tab: char := '\t'
  const Newline: char := '\n'
  const Return: char := '\r'

  predicate EndsWithReturn(s: string) {
    |s| > 0 && s[|s| - 1] == Return
  }

  /** Text that comes back unchanged as one line of `Lines`. */
  predicate LineSafe(s: string) {
    Newline !in s && !EndsWithReturn(s)
  }

  /** Text that comes back unchanged as one tab-separated part of one line. */
  predicate FieldSafe(s: string) {
    Tab !in s && LineSafe(s)
  }

  /** The pieces between separators. Like `str::split`, it always yields at
      least one piece, and the empty text yields one empty piece. */
  function Split(s: string, sep: char): (parts: seq<string>)
    ensures |parts| >= 1
    ensures forall i | 0 <= i < |parts| :: sep !in parts[i]
    decreases |s|
  {
    if |s| == 0 then [[]]
    else
      var rest := Split(s[1..], sep);
      if s[0] == sep then [[]] + rest
      else [[s[0]] + rest[0]] + rest[1..]
  }

  /** The pieces with one separator between neighbours and none at either end. */
  function Join(parts: seq<string>, sep: char): string
    decreases |parts|
  {
    if |parts| == 0 then []
    else if |parts| == 1 then parts[0]
    else parts[0] + [sep] + Join(parts[1..], sep)
  }

  /** The pieces in order, each followed by the separator: what a loop that
      appends a piece and then pushes the separator builds. */
  function Terminated(parts: seq<string>, sep: char): (s: string)
    ensures |parts| > 0 ==> |s| > 0 && s[|s| - 1] == sep
    decreases |parts|
  {
    if |parts| == 0 then []
    else parts[0] + [sep] + Terminated(parts[1..], sep)
  }

  function StripReturn(line: string): string {
    if EndsWithReturn(line) then line[..|line| - 1] else line
  }

  /** `str::lines`: the pieces between newlines; a piece ended by a newline
      loses one trailing carriage return; an empty piece after the last
      newline is not a line, so the empty text has no lines. */
  function Lines(s: string): (lines: seq<string>)
    ensures lines == [] <==> s == []
    ensures forall i | 0 <= i < |lines| :: Newline !in lines[i]
  {
    var segments := Split(s, Newline);
    var ended := segments[..|segments| - 1];
    var last := segments[|segments| - 1];
    JoinSplit(s, Newline);
    assert s != [] && |segments| == 1 ==> last != [];
    StripEach(ended) + (if last == [] then [] else [last])
  }

  function StripEach(lines: seq<string>): seq<string> {
    seq(|lines|, i requires 0 <= i < |lines| => StripReturn(lines[i]))
  }

  lemma {:induction false} SplitWithoutSep(s: string, sep: char)
    requires sep !in s
    ensures Split(s, sep) == [s]
    decreases |s|
  {
    if |s| > 0 {
      SplitWithoutSep(s[1..], sep);
      assert s == [s[0]] + s[1..];
    }
  }

  /** Splitting distributes over a separator placed between two texts. */
  lemma {:induction false} SplitConcat(x: string, y: string, sep: char)
    ensures Split(x + [sep] + y, sep) == Split(x, sep) + Split(y, sep)
    decreases |x|
  {
    var s := x + [sep] + y;
    if |x| == 0 {
      assert s[1..] == y;
    } else {
      assert s[1..] == x[1..] + [sep] + y;
      SplitConcat(x[1..], y, sep);
    }
  }

  /** Split undoes Join, provided no piece contains the separator. Zero
      pieces are excluded: they join to the empty text, which splits into
      one empty piece. */
  lemma {:induction false} SplitJoin(parts: seq<string>, sep: char)
    requires |parts| >= 1
    requires forall i | 0 <= i < |parts| :: sep !in parts[i]
    ensures Split(Join(parts, sep), sep) == parts
    decreases |parts|
  {
    if |parts| == 1 {
      SplitWithoutSep(parts[0], sep);
    } else {
      SplitJoin(parts[1..], sep);
      SplitConcat(parts[0], Join(parts[1..], sep), sep);
      SplitWithoutSep(parts[0], sep);
    }
  }

  /** Join undoes Split, for every text. */
  lemma {:induction false} JoinSplit(s: string, sep: char)
    ensures Join(Split(s, sep), sep) == s
    decreases |s|
  {
    if |s| > 0 {
      var rest := Split(s[1..], sep);
      JoinSplit(s[1..], sep);
      if s[0] != sep && |rest| > 1 {
        assert rest == [rest[0]] + rest[1..];
      }
    }
  }

  lemma {:induction false} JoinSnoc(parts: seq<string>, last: string, sep: char)
    requires |parts| >= 1
    ensures Join(parts + [last], sep) == Join(parts, sep) + [sep] + last
    decreases |parts|
  {
    if |parts| > 1 {
      assert (parts + [last])[1..] == parts[1..] + [last];
      JoinSnoc(parts[1..], last, sep);
    }
  }

  /** Writing a terminator after every piece is joining with one extra empty
      piece at the end. */
  lemma {:induction false} TerminatedIsJoin(parts: seq<string>, sep: char)
    ensures Terminated(parts, sep) == Join(parts + [[]], sep)
    decreases |parts|
  {
    if |parts| > 0 {
      assert (parts + [[]])[1..] == parts[1..] + [[]];
      TerminatedIsJoin(parts[1..], sep);
    }
  }

  /** Joining line-safe pieces with tabs gives a line-safe line. */
  lemma {:induction false} JoinLineSafe(parts: seq<string>)
    requires forall i | 0 <= i < |parts| :: LineSafe(parts[i])
    ensures LineSafe(Join(parts, Tab))
    decreases |parts|
  {
    if |parts| > 1 {
      JoinLineSafe(parts[1..]);
      var rest := Join(parts[1..], Tab);
      var s := parts[0] + [Tab] + rest;
      assert Newline !in s by {
        assert forall c | c in s :: c in parts[0] || c == Tab || c in rest;
      }
      if |rest| > 0 {
        assert s[|s| - 1] == rest[|rest| - 1];
      }
    }
  }

  /** A block written as newline-terminated lines splits on newlines into
      those lines and one empty piece after the last newline. */
  lemma SegmentsOfTerminated(lines: seq<string>)
    requires forall i | 0 <= i < |lines| :: LineSafe(lines[i])
    ensures Split(Terminated(lines, Newline), Newline) == lines + [[]]
  {
    var parts := lines + [[]];
    forall i | 0 <= i < |parts|
      ensures Newline !in parts[i]
    {
      if i < |lines| {
        assert LineSafe(lines[i]);
      }
    }
    TerminatedIsJoin(lines, Newline);
    SplitJoin(parts, Newline);
  }

  /** A block written as newline-terminated lines reads back as exactly
      those lines, provided each is line-safe. */
  lemma LinesOfTerminated(lines: seq<string>)
    requires forall i | 0 <= i < |lines| :: LineSafe(lines[i])
    ensures Lines(Terminated(lines, Newline)) == lines
  {
    var block := Terminated(lines, Newline);
    SegmentsOfTerminated(lines);
    var segments := Split(block, Newline);
    assert segments[..|segments| - 1] == lines;
    assert segments[|segments| - 1] == [];
    StripsNothing(lines);
    assert Lines(block) == StripEach(lines) + [];
  }

  lemma StripsNothing(lines: seq<string>)
    requires forall i | 0 <= i < |lines| :: LineSafe(lines[i])
    ensures StripEach(lines) == lines
  {
  }

  /** A block of two newline-terminated lines reads back as those lines. */
  lemma TwoLines(first: string, second: string)
    requires LineSafe(first) && LineSafe(second)
    ensures Lines(first + [Newline] + second + [Newline]) == [first, second]
  {
    assert [second][1..] == [];
    assert Terminated([second], Newline) == second + [Newline];
    assert [first, second][1..] == [second];
    assert Terminated([first, second], Newline) == first + [Newline] + second + [Newline];
    LinesOfTerminated([first, second]);
  }
}
