/** The software line discipline: `process_passthrough_chunk`. */
module LineDiscipline {
  const BACKSPACE: char := 8 as char
  const DELETE: char := 127 as char
  const ERASE: string := [BACKSPACE, ' ', BACKSPACE]

  /** The carried-over flag and line, and all the text echoed and delivered so far. */
  datatype State = State(lastWasCr: bool, line: string, echo: string, delivered: string)

  const START := State(false, "", "", "")

  predicate Erases(c: char) {
    c == BACKSPACE || c == DELETE
  }

  function Butlast(s: string): string {
    if s == "" then "" else s[..|s| - 1]
  }

  function EndLine(st: State): State {
    st.(line := "", echo := st.echo + "\n", delivered := st.delivered + st.line + "\n")
  }

  /** One byte of input. */
  function Step(st: State, c: char): State {
    if st.lastWasCr && c == '\n' then st.(lastWasCr := false)
    else if c == '\r' then EndLine(st).(lastWasCr := true)
    else
      var st := st.(lastWasCr := false);
      if c == '\n' then EndLine(st)
      else if Erases(c) then
        if st.line == "" then st else st.(line := Butlast(st.line), echo := st.echo + ERASE)
      else st.(line := st.line + [c], echo := st.echo + [c])
  }

  function Run(st: State, s: string): State
    decreases |s|
  {
    if s == "" then st else Run(Step(st, s[0]), s[1..])
  }

  class Passthrough {
    var lastWasCr: bool
    var lineBuffer: string
    var toEcho: string
    var toDeliver: string

    ghost function View(): State
      reads this
    {
      State(lastWasCr, lineBuffer, toEcho, toDeliver)
    }

    constructor ()
      ensures View() == START
    {
      lastWasCr, lineBuffer, toEcho, toDeliver := false, "", "", "";
    }

    method ProcessChunk(chunk: string)
      modifies this
      ensures View() == Run(old(View()), chunk)
    {
      for i := 0 to |chunk|
        invariant Run(View(), chunk[i..]) == Run(old(View()), chunk)
      {
        assert chunk[i..][0] == chunk[i] && chunk[i..][1..] == chunk[i + 1..];
        var c := chunk[i];
        if lastWasCr && c == '\n' {
          lastWasCr := false;
          continue;
        }
        lastWasCr := false;
        if c == '\r' {
          c, lastWasCr := '\n', true;
        }
        if c == '\n' {
          lineBuffer := lineBuffer + "\n";
          assert toDeliver + lineBuffer[..|lineBuffer| - 1] + "\n" == toDeliver + lineBuffer;
          toDeliver := toDeliver + lineBuffer;
          lineBuffer := "";
          toEcho := toEcho + "\n";
          continue;
        }
        if c == BACKSPACE || c == DELETE {
          if lineBuffer != "" {
            lineBuffer := lineBuffer[..|lineBuffer| - 1];
            toEcho := toEcho + ERASE;
          }
          continue;
        }
        lineBuffer := lineBuffer + [c];
        toEcho := toEcho + [c];
      }
    }
  }

  // ---- Independence of chunk boundaries ----

  lemma {:induction false} RunInTwo(st: State, a: string, b: string)
    ensures Run(st, a + b) == Run(Run(st, a), b)
    decreases |a|
  {
    if a == "" {
      assert a + b == b;
    } else {
      assert (a + b)[0] == a[0] && (a + b)[1..] == a[1..] + b;
      RunInTwo(Step(st, a[0]), a[1..], b);
    }
  }

  function Joined(chunks: seq<string>): string {
    if chunks == [] then "" else chunks[0] + Joined(chunks[1..])
  }

  function RunChunks(st: State, chunks: seq<string>): State
    decreases |chunks|
  {
    if chunks == [] then st else RunChunks(Run(st, chunks[0]), chunks[1..])
  }

  /** However the input is cut into chunks, the outcome is that of the input as a whole. */
  lemma {:induction false} ChunkingIsInvisible(st: State, chunks: seq<string>)
    ensures RunChunks(st, chunks) == Run(st, Joined(chunks))
    decreases |chunks|
  {
    if chunks != [] {
      RunInTwo(st, chunks[0], Joined(chunks[1..]));
      ChunkingIsInvisible(Run(st, chunks[0]), chunks[1..]);
    }
  }

  // ---- Independence of the kind of line end ----

  /** Every CR, LF and CRLF as one LF. */
  function Canonical(s: string): string
    decreases |s|
  {
    if s == "" then ""
    else if s[0] == '\r' then "\n" + Canonical(if |s| > 1 && s[1] == '\n' then s[2..] else s[1..])
    else [s[0]] + Canonical(s[1..])
  }

  /** The same but for the flag that only matters to the next byte. */
  predicate Alike(a: State, b: State) {
    a.(lastWasCr := false) == b.(lastWasCr := false)
  }

  lemma {:induction false} LineEndsFrom(st: State, s: string)
    requires !st.lastWasCr
    ensures Alike(Run(st, s), Run(st, Canonical(s)))
    decreases |s|
  {
    if s != "" {
      var t := Canonical(s);
      if s[0] == '\r' {
        var rest := if |s| > 1 && s[1] == '\n' then s[2..] else s[1..];
        assert t[0] == '\n' && t[1..] == Canonical(rest);
        if |s| > 1 && s[1] == '\n' {
          assert s[1..][0] == '\n' && s[1..][1..] == rest;
        } else {
          FlagDropsOut(EndLine(st), rest);
        }
        LineEndsFrom(EndLine(st), rest);
      } else {
        assert t[0] == s[0] && t[1..] == Canonical(s[1..]);
        LineEndsFrom(Step(st, s[0]), s[1..]);
      }
    }
  }

  lemma FlagDropsOut(st: State, s: string)
    requires s == "" || s[0] != '\n'
    ensures Alike(Run(st.(lastWasCr := true), s), Run(st.(lastWasCr := false), s))
  {
    if s != "" {
      assert Step(st.(lastWasCr := true), s[0]) == Step(st.(lastWasCr := false), s[0]);
    }
  }

  /** Inputs that differ only in how they end their lines echo, deliver and hold the same. */
  lemma LineEndsAreAlike(s: string, t: string)
    requires Canonical(s) == Canonical(t)
    ensures Alike(Run(START, s), Run(START, t))
  {
    LineEndsFrom(START, s);
    LineEndsFrom(START, t);
  }

  // ---- What is delivered ----

  /** A line as typed, with every erasure carried out. */
  function Edited(s: string): string {
    if s == "" then ""
    else
      var before := Edited(s[..|s| - 1]);
      if Erases(s[|s| - 1]) then Butlast(before) else before + [s[|s| - 1]]
  }

  /** The text up to the first line end, and the position of that end or of the end of the text. */
  function LineLength(s: string): (n: nat)
    ensures n <= |s| && (n < |s| ==> s[n] == '\n') && forall i | 0 <= i < n :: s[i] != '\n'
  {
    if s == "" || s[0] == '\n' then 0 else 1 + LineLength(s[1..])
  }

  /** The complete lines of `s`, each edited and ended. */
  function Delivery(s: string): string
    decreases |s|
  {
    var n := LineLength(s);
    if n == |s| then "" else Edited(s[..n]) + "\n" + Delivery(s[n + 1..])
  }

  /** The incomplete last line of `s`, edited. */
  function Pending(s: string): string
    decreases |s|
  {
    var n := LineLength(s);
    if n == |s| then Edited(s) else Pending(s[n + 1..])
  }

  /** `c` does not occur in `s`. */
  predicate Lacks(s: string, c: char) {
    forall i | 0 <= i < |s| :: s[i] != c
  }

  /** Backspace, code 8, and delete, code 127, take the last character away; any other is added. */
  lemma EditedOneMore(typed: string, c: char)
    ensures var before := Edited(typed);
            Edited(typed + [c]) ==
            if c as int == 8 || c as int == 127 then before[..if before == "" then 0 else |before| - 1]
            else before + [c]
  {
    assert (typed + [c])[..|typed|] == typed;
  }

  lemma {:induction false} TypingALine(st: State, typed: string, s: string)
    requires !st.lastWasCr && st.line == Edited(typed)
    requires Lacks(s, '\n') && Lacks(s, '\r')
    ensures var r := Run(st, s);
            !r.lastWasCr && r.line == Edited(typed + s) && r.delivered == st.delivered
    decreases |s|
  {
    if s == "" {
      assert typed + s == typed;
    } else {
      hide Edited;
      EditedOneMore(typed, s[0]);
      TypingALine(Step(st, s[0]), typed + [s[0]], s[1..]);
      assert typed + [s[0]] + s[1..] == typed + s;
    }
  }

  lemma EditedNothing()
    ensures Edited("") == ""
  {
  }

  lemma RunOfLine(st: State, rest: string)
    requires !st.lastWasCr
    ensures Run(st, "\n" + rest) == Run(EndLine(st), rest)
  {
    assert ("\n" + rest)[1..] == rest;
  }

  /** Typing a first line, up to its end or to the end of the input. */
  lemma FirstLine(st: State, s: string, n: nat)
    requires !st.lastWasCr && st.line == "" && Lacks(s, '\r') && n == LineLength(s)
    ensures var r := Run(st, s[..n]);
            !r.lastWasCr && r.line == Edited(s[..n]) && r.delivered == st.delivered
    ensures n < |s| ==> Run(st, s) == Run(EndLine(Run(st, s[..n])), s[n + 1..])
  {
    hide Edited, Run;
    EditedNothing();
    TypingALine(st, "", s[..n]);
    assert "" + s[..n] == s[..n];
    if n < |s| {
      assert s == s[..n] + ("\n" + s[n + 1..]);
      RunInTwo(st, s[..n], "\n" + s[n + 1..]);
      RunOfLine(Run(st, s[..n]), s[n + 1..]);
    }
  }

  lemma {:induction false} DeliveryFrom(st: State, s: string)
    requires !st.lastWasCr && st.line == "" && Lacks(s, '\r')
    ensures Run(st, s).delivered == st.delivered + Delivery(s) && Run(st, s).line == Pending(s)
    decreases |s|
  {
    hide *;
    var n := LineLength(s);
    DeliveryByLine(s);
    PendingByLine(s);
    FirstLine(st, s, n);
    if n == |s| {
      assert s[..n] == s && st.delivered + "" == st.delivered;
    } else {
      var r := Run(st, s[..n]);
      var rest := s[n + 1..];
      EndOfLine(r, s);
      DeliveryFrom(EndLine(r), rest);
      assert st.delivered + (r.line + "\n" + Delivery(rest)) == st.delivered + r.line + "\n" + Delivery(rest);
    }
  }

  lemma DeliveryByLine(s: string)
    ensures var n := LineLength(s);
            n <= |s| && Delivery(s) == if n == |s| then "" else Edited(s[..n]) + "\n" + Delivery(s[n + 1..])
  {
    hide Edited, LineLength;
  }

  lemma PendingByLine(s: string)
    ensures var n := LineLength(s);
            n <= |s| && Pending(s) == if n == |s| then Edited(s) else Pending(s[n + 1..])
  {
    hide Edited, LineLength;
  }

  lemma EndOfLine(st: State, s: string)
    requires !st.lastWasCr && Lacks(s, '\r')
    ensures var r := EndLine(st);
            !r.lastWasCr && r.line == "" && r.delivered == st.delivered + st.line + "\n"
    ensures forall n: nat | n <= |s| :: Lacks(s[n..], '\r')
  {
  }

  lemma {:induction false} CanonicalHasNoCr(s: string)
    ensures Lacks(Canonical(s), '\r')
    decreases |s|
  {
    if s != "" {
      if s[0] == '\r' {
        CanonicalHasNoCr(if |s| > 1 && s[1] == '\n' then s[2..] else s[1..]);
      } else {
        CanonicalHasNoCr(s[1..]);
      }
    }
  }

  /** Exactly the complete lines are delivered, edited, and the rest is held back, edited. */
  lemma DeliversWholeLines(s: string)
    ensures Run(START, s).delivered == Delivery(Canonical(s))
    ensures Run(START, s).line == Pending(Canonical(s))
  {
    LineEndsFrom(START, s);
    CanonicalHasNoCr(s);
    DeliveryFrom(START, Canonical(s));
  }

  // ---- What the echo shows ----

  /** One row of a terminal: its cells and the column of the cursor. */
  datatype Row = Row(cells: string, cursor: nat)

  /** Printing overwrites, backspace moves left, a line feed starts a new row. */
  function Show(row: Row, c: char): Row {
    if c == '\n' then Row("", 0)
    else if c == BACKSPACE then row.(cursor := if row.cursor == 0 then 0 else row.cursor - 1)
    else if row.cursor < |row.cells| then Row(row.cells[row.cursor := c], row.cursor + 1)
    else Row(row.cells + [c], row.cursor + 1)
  }

  function Replay(row: Row, echo: string): Row {
    if echo == "" then row else Show(Replay(row, echo[..|echo| - 1]), echo[|echo| - 1])
  }

  /** The row reads `line`, the cursor is right after it, and only blanks follow. */
  predicate Shows(row: Row, line: string) {
    && row.cursor == |line| <= |row.cells|
    && row.cells[..|line|] == line
    && forall i | |line| <= i < |row.cells| :: row.cells[i] == ' '
  }

  /** The characters that take one cell: ASCII without its controls. */
  predicate Printable(c: char) {
    ' ' <= c <= '~'
  }

  predicate Typable(c: char) {
    Printable(c) || Erases(c) || c == '\r' || c == '\n'
  }

  lemma {:induction false} ReplayMore(row: Row, a: string, b: string)
    ensures Replay(row, a + b) == Replay(Replay(row, a), b)
    decreases |b|
  {
    if b == "" {
      assert a + b == a;
    } else {
      assert (a + b)[..|a + b| - 1] == a + b[..|b| - 1];
      ReplayMore(row, a, b[..|b| - 1]);
    }
  }

  lemma ReplayOne(row: Row, c: char)
    ensures Replay(row, [c]) == Show(row, c)
  {
    assert [c][..0] == "";
    assert Replay(row, "") == row;
  }

  lemma ShowsErase(row: Row, line: string)
    requires Shows(row, line) && line != "" && forall c | c in line :: Printable(c)
    ensures Shows(Replay(row, ERASE), Butlast(line))
  {
    var r1 := Show(row, BACKSPACE);
    var r2 := Show(r1, ' ');
    assert ERASE == [BACKSPACE] + ([' '] + [BACKSPACE]);
    ReplayMore(row, [BACKSPACE], [' '] + [BACKSPACE]);
    ReplayOne(row, BACKSPACE);
    ReplayMore(r1, [' '], [BACKSPACE]);
    ReplayOne(r1, ' ');
    ReplayOne(r2, BACKSPACE);
    assert Replay(row, ERASE) == Show(r2, BACKSPACE);
    assert r2.cells[..|line| - 1] == line[..|line| - 1];
  }

  ghost predicate Faithful(st: State) {
    Shows(Replay(Row("", 0), st.echo), st.line) && forall c | c in st.line :: Printable(c)
  }

  lemma PrintableIsPlain(c: char)
    requires Printable(c)
    ensures c != '\n' && c != '\r' && !Erases(c)
  {
  }

  /** Echoing a printable character shows it at the end of the line. */
  lemma ShowsMore(row: Row, line: string, c: char)
    requires Shows(row, line) && Printable(c)
    ensures Shows(Show(row, c), line + [c])
  {
    PrintableIsPlain(c);
    hide Printable;
    assert Show(row, c).cells[..|line| + 1] == line + [c];
  }

  lemma PrintableMore(line: string, c: char)
    requires (forall d | d in line :: Printable(d)) && Printable(c)
    ensures forall d | d in line + [c] :: Printable(d)
  {
    hide Printable;
  }

  lemma PrintableLess(line: string)
    requires forall d | d in line :: Printable(d)
    ensures forall d | d in Butlast(line) :: Printable(d)
  {
    hide Printable;
  }

  lemma StepKeepsFaithful(st: State, c: char)
    requires Faithful(st) && Typable(c)
    ensures Faithful(Step(st, c))
  {
    hide Printable, Shows, Show;
    var blank := Row("", 0);
    var row := Replay(blank, st.echo);
    if c == '\r' || (c == '\n' && !st.lastWasCr) {
      ReplayMore(blank, st.echo, "\n");
      ReplayOne(row, '\n');
      EmptyRow(row);
    } else if Erases(c) {
      if st.line != "" {
        ReplayMore(blank, st.echo, ERASE);
        ShowsErase(row, st.line);
        PrintableLess(st.line);
      }
    } else if c != '\n' {
      ReplayMore(blank, st.echo, [c]);
      ReplayOne(row, c);
      ShowsMore(row, st.line, c);
      PrintableMore(st.line, c);
    }
  }

  lemma EmptyRow(row: Row)
    ensures Shows(Show(row, '\n'), "")
  {
  }

  lemma {:induction false} RunKeepsFaithful(st: State, s: string)
    requires Faithful(st) && forall c | c in s :: Typable(c)
    ensures Faithful(Run(st, s))
    decreases |s|
  {
    if s != "" {
      StepKeepsFaithful(st, s[0]);
      RunKeepsFaithful(Step(st, s[0]), s[1..]);
    }
  }

  /** Replayed on a terminal, the echo always shows the pending line with the cursor at its end. */
  lemma EchoShowsPendingLine(s: string)
    requires forall c | c in s :: Typable(c)
    ensures Shows(Replay(Row("", 0), Run(START, s).echo), Run(START, s).line)
  {
    RunKeepsFaithful(START, s);
  }

  // ---- What the whole echo shows ----

  /** The rows of a terminal, the last of which is being written. */
  function Screen(echo: string): (rows: seq<Row>)
    ensures rows != []
  {
    if echo == "" then [Row("", 0)]
    else
      var (rows, c) := (Screen(echo[..|echo| - 1]), echo[|echo| - 1]);
      if c == '\n' then rows + [Row("", 0)] else rows[|rows| - 1 := Show(rows[|rows| - 1], c)]
  }

  /** The lines the input ends, each as it stood when it was ended. */
  function Ended(st: State, s: string): seq<string>
    decreases |s|
  {
    if s == "" then []
    else if s[0] == '\r' || (s[0] == '\n' && !st.lastWasCr) then [st.line] + Ended(Step(st, s[0]), s[1..])
    else Ended(Step(st, s[0]), s[1..])
  }

  function WithEnds(lines: seq<string>): string {
    if lines == [] then "" else WithEnds(lines[..|lines| - 1]) + lines[|lines| - 1] + "\n"
  }

  lemma ScreenOne(echo: string, c: char)
    ensures var rows := Screen(echo);
            Screen(echo + [c]) ==
            if c == '\n' then rows + [Row("", 0)] else rows[|rows| - 1 := Show(rows[|rows| - 1], c)]
  {
    assert (echo + [c])[..|echo|] == echo;
  }

  /** Text without a line feed only changes the last row. */
  lemma {:induction false} ScreenMore(echo: string, more: string)
    requires Lacks(more, '\n')
    ensures var rows := Screen(echo);
            Screen(echo + more) == rows[|rows| - 1 := Replay(rows[|rows| - 1], more)]
    decreases |more|
  {
    hide Screen, Show;
    var rows := Screen(echo);
    if more == "" {
      assert echo + more == echo;
      assert rows[|rows| - 1 := rows[|rows| - 1]] == rows;
    } else {
      var (front, c) := (more[..|more| - 1], more[|more| - 1]);
      ScreenMore(echo, front);
      assert echo + more == echo + front + [c];
      ScreenOne(echo + front, c);
    }
  }

  /** Row after row shows the ended lines, and the last row the pending one. */
  ghost predicate Displays(st: State, lines: seq<string>) {
    var rows := Screen(st.echo);
    && |rows| == |lines| + 1
    && (forall i | 0 <= i < |lines| :: Shows(rows[i], lines[i]))
    && Shows(rows[|lines|], st.line)
    && (forall c | c in st.line :: Printable(c))
    && st.delivered == WithEnds(lines)
  }

  lemma LineEndDisplays(st: State, lines: seq<string>)
    requires Displays(st, lines)
    ensures Displays(EndLine(st), lines + [st.line])
  {
    hide Shows, Show, Printable;
    ScreenOne(st.echo, '\n');
    var all := lines + [st.line];
    assert all[..|all| - 1] == lines;
    EmptyRow(Row("", 0));
    ShownNewline();
  }

  lemma ShownNewline()
    ensures Shows(Row("", 0), "")
  {
  }

  lemma KeyDisplays(st: State, lines: seq<string>, c: char)
    requires Displays(st, lines) && Typable(c) && c != '\r' && c != '\n'
    ensures Displays(Step(st, c), lines)
  {
    hide Shows, Show, Printable, Screen;
    var row := Screen(st.echo)[|lines|];
    if Erases(c) {
      if st.line != "" {
        ScreenMore(st.echo, ERASE);
        ShowsErase(row, st.line);
        PrintableLess(st.line);
      }
    } else {
      ScreenMore(st.echo, [c]);
      ReplayOne(row, c);
      ShowsMore(row, st.line, c);
      PrintableMore(st.line, c);
    }
  }

  lemma {:induction false} RunDisplays(st: State, lines: seq<string>, s: string)
    requires Displays(st, lines) && forall c | c in s :: Typable(c)
    ensures Displays(Run(st, s), lines + Ended(st, s))
    decreases |s|
  {
    hide Displays, EndLine;
    if s == "" {
      assert lines + [] == lines;
    } else {
      var c := s[0];
      if c == '\r' || (c == '\n' && !st.lastWasCr) {
        LineEndDisplays(st, lines);
        FlagIsInvisible(EndLine(st), c == '\r', lines + [st.line]);
        RunDisplays(Step(st, c), lines + [st.line], s[1..]);
        assert lines + [st.line] + Ended(Step(st, c), s[1..]) == lines + Ended(st, s);
      } else {
        if c == '\n' {
          FlagIsInvisible(st, false, lines);
        } else {
          KeyDisplays(st, lines, c);
        }
        RunDisplays(Step(st, c), lines, s[1..]);
      }
    }
  }

  lemma FlagIsInvisible(st: State, flag: bool, lines: seq<string>)
    requires Displays(st, lines)
    ensures Displays(st.(lastWasCr := flag), lines)
  {
  }

  /**
    * Replayed on a terminal, the whole echo shows in one row after the other exactly the lines that
    * were delivered, and in the last row the pending line with the cursor at its end.
    */
  lemma EchoShowsEveryLine(s: string)
    requires forall c | c in s :: Typable(c)
    ensures var (st, lines) := (Run(START, s), Ended(START, s));
            var rows := Screen(st.echo);
            && st.delivered == WithEnds(lines) && |rows| == |lines| + 1
            && (forall i | 0 <= i < |lines| :: Shows(rows[i], lines[i]))
            && Shows(rows[|lines|], st.line)
  {
    hide Shows, Run, Ended, Screen;
    StartDisplays();
    RunDisplays(START, [], s);
    assert [] + Ended(START, s) == Ended(START, s);
  }

  lemma StartDisplays()
    ensures Displays(START, [])
  {
  }

  // ---- What exactly is echoed ----

  /**
    * The echo of a text whose lines end in LF: every character as it is, but for an erasure (codes 8
    * and 127) the three characters 8, 32, 8, and nothing if there is nothing to erase.
    */
  function Echoed(s: string): string {
    if s == "" then ""
    else
      var (front, c) := (s[..|s| - 1], s[|s| - 1]);
      if c as int == 8 || c as int == 127 then
        if Pending(front) == "" then Echoed(front) else Echoed(front) + [8 as char, 32 as char, 8 as char]
      else Echoed(front) + [c]
  }

  lemma {:induction false} EchoOfCanonical(s: string)
    requires Lacks(s, '\r')
    ensures Run(START, s).echo == Echoed(s) && !Run(START, s).lastWasCr
  {
    if s != "" {
      var (front, c) := (s[..|s| - 1], s[|s| - 1]);
      assert s == front + [c];
      EchoOfCanonical(front);
      DeliveryFrom(START, front);
      RunInTwo(START, front, [c]);
      RunOne(Run(START, front), c);
    }
  }

  lemma RunOne(st: State, c: char)
    ensures Run(st, [c]) == Step(st, c)
  {
    assert [c][1..] == "";
    assert Run(Step(st, c), "") == Step(st, c);
  }

  /** Whatever the input, this is the echo of it with all its line ends made LF. */
  lemma EchoIs(s: string)
    ensures Run(START, s).echo == Echoed(Canonical(s))
  {
    hide Run, Canonical, Echoed;
    LineEndsFrom(START, s);
    CanonicalHasNoCr(s);
    EchoOfCanonical(Canonical(s));
  }
}
