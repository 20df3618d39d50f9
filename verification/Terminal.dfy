/**
 A text terminal that never forgets a line: the reference the 80x25 VGA window
 is measured against. Cells are numbered row by row from the top of the scroll.
 */
module Terminal {
  import opened Arithmetic
  import opened PhysicalMemory

  const WIDTH: int := 80
  const HEIGHT: int := 25

  const BACKSPACE: Byte := 0x08
  const TAB: Byte := 0x09
  const NEWLINE: Byte := 0x0A
  const RETURN: Byte := 0x0D

  /** Everything ever shown, the number of rows that have scrolled off, and the cursor's column and
      absolute row. */
  datatype Term = Term(cells: seq<Byte>, top: nat, x: nat, y: nat)

  ghost predicate Sound(t: Term) {
    |t.cells| == WIDTH * (t.top + HEIGHT) && t.x < WIDTH && t.top <= t.y < t.top + HEIGHT
  }

  /** The rows still on the screen. */
  function Window(t: Term): seq<Byte>
    requires Sound(t)
  {
    t.cells[WIDTH * t.top..]
  }

  function Blank(n: nat): (r: seq<Byte>)
    ensures |r| == n && forall i :: 0 <= i < n ==> r[i] == 0
  {
    seq(n, _ => 0)
  }

  function Row(cells: seq<Byte>, y: nat): (row: seq<Byte>)
    requires WIDTH * (y + 1) <= |cells|
    ensures |row| == WIDTH
  {
    cells[WIDTH * y..WIDTH * (y + 1)]
  }

  /** Number of columns of a row up to and including the last one in use. */
  function UsedColumns(row: seq<Byte>): (n: nat)
    ensures n <= |row| && (n > 0 ==> row[n - 1] != 0)
    ensures forall i :: n <= i < |row| ==> row[i] == 0
  {
    if row == [] then 0
    else if row[|row| - 1] != 0 then |row|
    else UsedColumns(row[..|row| - 1])
  }

  /** Moves a cursor that ran past the right edge to the next row, and adds a row when the cursor
      ran past the last one. */
  function Settle(t: Term): Term {
    var (x, y) := if t.x >= WIDTH then (0, t.y + 1) else (t.x, t.y);
    if y >= t.top + HEIGHT then Term(t.cells + Blank(WIDTH), t.top + 1, x, y) else Term(t.cells, t.top, x, y)
  }

  /** Backspace in the first column of the topmost row on screen, which has nowhere to go. */
  predicate AtOrigin(t: Term) {
    t.x == 0 && t.y == t.top
  }

  /** One column back; from the first column, to just after the text of the row above. */
  function BackedUp(t: Term): (r: Term)
    requires Sound(t) && !AtOrigin(t)
    ensures Sound(r)
  {
    if t.x > 0 then t.(x := t.x - 1)
    else
      var used := UsedColumns(Row(t.cells, t.y - 1));
      t.(x := if used < WIDTH then used else WIDTH - 1, y := t.y - 1)
  }

  predicate Escapes(t: Term, c: Byte) {
    c == BACKSPACE && AtOrigin(t)
  }

  function Step(t: Term, c: Byte): (r: Term)
    requires Sound(t) && !Escapes(t, c)
    ensures Sound(r)
  {
    if c == NEWLINE then Settle(t.(x := 0, y := t.y + 1))
    else if c == RETURN then t.(x := 0)
    else if c == TAB then Settle(t.(x := t.x + 4 - t.x % 4))
    else if c == BACKSPACE then
      var b := BackedUp(t);
      b.(cells := b.cells[WIDTH * b.y + b.x := 0])
    else Settle(t.(cells := t.cells[WIDTH * t.y + t.x := c], x := t.x + 1))
  }

  /** No byte of `s` is a backspace with nowhere to go. */
  ghost predicate Plain(t: Term, s: seq<Byte>)
    requires Sound(t)
    decreases |s|, 0
  {
    s == [] || (Plain(t, s[..|s| - 1]) && !Escapes(Run(t, s[..|s| - 1]), s[|s| - 1]))
  }

  /** The terminal after the whole stream `s`. */
  ghost function Run(t: Term, s: seq<Byte>): (r: Term)
    requires Sound(t) && Plain(t, s)
    ensures Sound(r)
    decreases |s|, 1
  {
    if s == [] then t else Step(Run(t, s[..|s| - 1]), s[|s| - 1])
  }

  lemma {:induction false} PlainPrefix(t: Term, s: seq<Byte>, n: nat)
    requires Sound(t) && Plain(t, s) && n <= |s|
    ensures Plain(t, s[..n])
    decreases |s|
  {
    if n == |s| {
      assert s[..n] == s;
    } else {
      PlainPrefix(t, s[..|s| - 1], n);
      assert s[..|s| - 1][..n] == s[..n];
    }
  }

  // ----- what the reference guarantees -----

  /** A row that has scrolled off never changes again. */
  lemma {:induction false} HistoryKept(t: Term, s: seq<Byte>)
    requires Sound(t) && Plain(t, s)
    ensures var r := Run(t, s);
            && t.top <= r.top && |t.cells| <= |r.cells|
            && forall i :: 0 <= i < WIDTH * t.top ==> r.cells[i] == t.cells[i]
  {
    if s != [] {
      HistoryKept(t, s[..|s| - 1]);
      HistoryStep(Run(t, s[..|s| - 1]), s[|s| - 1]);
    }
  }

  lemma HistoryStep(t: Term, c: Byte)
    requires Sound(t) && !Escapes(t, c)
    ensures var r := Step(t, c);
            && t.top <= r.top && |t.cells| <= |r.cells|
            && forall i :: 0 <= i < WIDTH * t.top ==> r.cells[i] == t.cells[i]
  {
  }

  predicate Printable(c: Byte) {
    c != 0 && c != BACKSPACE && c != TAB && c != NEWLINE && c != RETURN
  }

  /** The cursor as a single cell number. */
  function Position(t: Term): int {
    WIDTH * t.y + t.x
  }

  lemma PrintOne(t: Term, c: Byte)
    requires Sound(t) && Printable(c)
    ensures var r := Step(t, c);
            && Position(r) == Position(t) + 1 && |t.cells| <= |r.cells| && Position(t) < |t.cells|
            && (forall i :: 0 <= i < |t.cells| && i != Position(t) ==> r.cells[i] == t.cells[i])
            && r.cells[Position(t)] == c
            && (forall i :: |t.cells| <= i < |r.cells| ==> r.cells[i] == 0)
  {
  }

  /** Printable text fills consecutive cells from the cursor on, wrapping at the right edge; cells
      not written keep their content and new rows start out blank. */
  lemma {:induction false} TextFillsCells(t: Term, s: seq<Byte>)
    requires Sound(t) && forall i :: 0 <= i < |s| ==> Printable(s[i])
    ensures Plain(t, s)
    ensures var (r, p) := (Run(t, s), Position(t));
            && Position(r) == p + |s| && |t.cells| <= |r.cells| && p + |s| <= |r.cells|
            && (forall i :: p <= i < p + |s| ==> r.cells[i] == s[i - p])
            && (forall i :: 0 <= i < |r.cells| && !(p <= i < p + |s|) ==>
                  r.cells[i] == if i < |t.cells| then t.cells[i] else 0)
  {
    if s != [] {
      var s' := s[..|s| - 1];
      TextFillsCells(t, s');
      PrintOne(Run(t, s'), s[|s| - 1]);
    }
  }

  /** Backspace takes back a character printed on a blank cell, even across a line wrap or a
      scroll: the cursor returns and every cell reads as before. */
  lemma BackspaceUndoesPrint(t: Term, c: Byte)
    requires Sound(t) && Printable(c) && t.cells[Position(t)] == 0
    ensures var r := Step(t, c);
            !Escapes(r, BACKSPACE) &&
            var u := Step(r, BACKSPACE);
            && u.x == t.x && u.y == t.y && |t.cells| <= |u.cells|
            && (forall i :: 0 <= i < |u.cells| ==> u.cells[i] == if i < |t.cells| then t.cells[i] else 0)
  {
    var r := Step(t, c);
    PrintOne(t, c);
    if r.x == 0 {
      assert Row(r.cells, r.y - 1)[WIDTH - 1] == c;
    }
  }

  /** Every cell of `t` reads in `r` as before, and rows that were added are blank. */
  ghost predicate SameCells(t: Term, r: Term) {
    |t.cells| <= |r.cells| && forall i :: 0 <= i < |r.cells| ==> r.cells[i] == if i < |t.cells| then t.cells[i] else 0
  }

  /** Control characters move the cursor and change no cell: a tab to the next of the stops that are
      four cells apart, a newline to the beginning of the next row, a return to that of its own. */
  lemma {:induction false} ControlsMove(t: Term)
    requires Sound(t)
    ensures var r := Step(t, 0x09); SameCells(t, r) && Position(t) < Position(r) <= Position(t) + 4 && Position(r) % 4 == 0
    ensures var r := Step(t, 0x0A); SameCells(t, r) && Position(t) < Position(r) <= Position(t) + 80 && Position(r) % 80 == 0
    ensures var r := Step(t, 0x0D); SameCells(t, r) && Position(r) <= Position(t) < Position(r) + 80 && Position(r) % 80 == 0
  {
    NextStop(t.y, t.x);
    RowStart(t.y);
    RowStart(t.y + 1);
  }

  lemma RowStart(y: nat)
    ensures 80 * y % 80 == 0 && 80 * y % 4 == 0
  {
    ModShift(y, 80, 0);
    ModShift(20 * y, 4, 0);
  }

  lemma NextStop(y: nat, x: nat)
    ensures (80 * y + (x + 4 - x % 4)) % 4 == 0
  {
    ModShift(20 * y + x / 4 + 1, 4, 0);
  }

  // ----- lines of text -----

  /** Lines, each ended by a newline. */
  function Text(lines: seq<seq<Byte>>): seq<Byte> {
    if lines == [] then [] else Text(lines[..|lines| - 1]) + lines[|lines| - 1] + [0x0A]
  }

  predicate Line(s: seq<Byte>) {
    |s| < 80 && forall i :: 0 <= i < |s| ==> Printable(s[i])
  }

  lemma {:induction false} RunLast(t: Term, s: seq<Byte>, c: Byte)
    requires Sound(t) && Plain(t, s) && !Escapes(Run(t, s), c)
    ensures Plain(t, s + [c]) && Run(t, s + [c]) == Step(Run(t, s), c)
  {
    assert (s + [c])[..|s|] == s;
  }

  /** A stream of two parts. */
  lemma {:induction false} RunConcat(t: Term, s: seq<Byte>, s': seq<Byte>)
    requires Sound(t) && Plain(t, s) && Plain(Run(t, s), s')
    ensures Plain(t, s + s') && Run(t, s + s') == Run(Run(t, s), s')
    decreases |s'|
  {
    if s' == [] {
      assert s + s' == s;
    } else {
      var (front, c) := (s'[..|s'| - 1], s'[|s'| - 1]);
      RunConcat(t, s, front);
      assert s + s' == s + front + [c];
      RunLast(t, s + front, c);
    }
  }

  /** Row `y` shows the line, and nothing behind it. */
  ghost predicate RowShows(cells: seq<Byte>, y: nat, line: seq<Byte>) {
    |line| <= 80 && 80 * y + 80 <= |cells| && cells[80 * y..80 * y + 80] == line + Blank(80 - |line|)
  }

  /** From row `y` on the cells show the lines one below the other. */
  ghost predicate Shows(cells: seq<Byte>, y: nat, lines: seq<seq<Byte>>) {
    forall k :: 0 <= k < |lines| ==> RowShows(cells, y + k, lines[k])
  }

  /** All cells from the cursor on are blank. */
  ghost predicate BlankAhead(t: Term) {
    forall i :: Position(t) <= i < |t.cells| ==> t.cells[i] == 0
  }

  /** Lines printed from the beginning of a row, with nothing ahead, are shown one below the other and
      stay, however far the screen has scrolled meanwhile. */
  lemma {:induction false} LinesShown(t: Term, lines: seq<seq<Byte>>)
    requires Sound(t) && t.x == 0 && BlankAhead(t) && forall k :: 0 <= k < |lines| ==> Line(lines[k])
    ensures Plain(t, Text(lines))
    ensures var r := Run(t, Text(lines));
            && r.x == 0 && r.y == t.y + |lines| && BlankAhead(r) && Shows(r.cells, t.y, lines)
            && |t.cells| <= |r.cells| && r.cells[..Position(t)] == t.cells[..Position(t)]
  {
    if lines != [] {
      var (front, line) := (lines[..|lines| - 1], lines[|lines| - 1]);
      LinesShown(t, front);
      var r := Run(t, Text(front));
      LineShown(r, line);
      RunConcat(t, Text(front), line + [0x0A]);
      assert Text(lines) == Text(front) + (line + [0x0A]);
      LineAdded(t, r, Run(r, line + [0x0A]), front, line);
      assert front + [line] == lines;
    }
  }

  /** One more line below those already shown. */
  lemma {:induction false} LineAdded(t: Term, r: Term, q: Term, front: seq<seq<Byte>>, line: seq<Byte>)
    requires Shows(r.cells, t.y, front) && r.x == t.x == 0 && r.y == t.y + |front|
    requires |t.cells| <= |r.cells| <= |q.cells| && Position(t) <= |t.cells| && Position(r) <= |r.cells|
    requires r.cells[..Position(t)] == t.cells[..Position(t)] && q.cells[..Position(r)] == r.cells[..Position(r)]
    requires RowShows(q.cells, r.y, line)
    ensures Shows(q.cells, t.y, front + [line]) && q.cells[..Position(t)] == t.cells[..Position(t)]
  {
    var lines := front + [line];
    forall k | 0 <= k < |lines|
      ensures RowShows(q.cells, t.y + k, lines[k])
    {
      if k < |front| {
        RowKept(r.cells, q.cells, Position(r), t.y + k, front[k]);
      }
    }
    assert q.cells[..Position(t)] == q.cells[..Position(r)][..Position(t)] == r.cells[..Position(r)][..Position(t)];
  }

  lemma RowKept(cells: seq<Byte>, cells': seq<Byte>, n: nat, y: nat, line: seq<Byte>)
    requires RowShows(cells, y, line) && 80 * y + 80 <= n <= |cells| && n <= |cells'| && cells[..n] == cells'[..n]
    ensures RowShows(cells', y, line)
  {
    assert cells[80 * y..80 * y + 80] == cells[..n][80 * y..80 * y + 80];
    assert cells'[80 * y..80 * y + 80] == cells'[..n][80 * y..80 * y + 80];
  }

  lemma {:induction false} LineShown(t: Term, line: seq<Byte>)
    requires Sound(t) && t.x == 0 && BlankAhead(t) && Line(line)
    ensures Plain(t, line + [0x0A])
    ensures var r := Run(t, line + [0x0A]);
            && r.x == 0 && r.y == t.y + 1 && BlankAhead(r) && RowShows(r.cells, t.y, line)
            && |t.cells| <= |r.cells| && r.cells[..Position(t)] == t.cells[..Position(t)]
  {
    TextFillsCells(t, line);
    var m := Run(t, line);
    LineCursor(t, m, |line|);
    assert [0x0A][..0] == [] && Run(m, []) == m && Run(m, [0x0A]) == Step(m, 0x0A);
    RunConcat(t, line, [0x0A]);
    LineEnded(t, m, line, Step(m, 0x0A));
  }

  lemma LineCursor(t: Term, m: Term, n: nat)
    requires Sound(m) && t.x == 0 && Position(m) == Position(t) + n && n < 80
    ensures m.y == t.y && m.x == n
  {
  }

  lemma {:induction false} LineEnded(t: Term, m: Term, line: seq<Byte>, r: Term)
    requires Sound(t) && Sound(m) && t.x == 0 && m.y == t.y && m.x == |line| && Line(line) && r == Step(m, 0x0A)
    requires |t.cells| <= |m.cells| && BlankAhead(t)
    requires forall i :: Position(t) <= i < Position(t) + |line| ==> m.cells[i] == line[i - Position(t)]
    requires forall i :: 0 <= i < |m.cells| && !(Position(t) <= i < Position(t) + |line|) ==> m.cells[i] == if i < |t.cells| then t.cells[i] else 0
    ensures r.x == 0 && r.y == t.y + 1 && BlankAhead(r) && RowShows(r.cells, t.y, line)
    ensures |t.cells| <= |r.cells| && r.cells[..Position(t)] == t.cells[..Position(t)]
  {
    ControlsMove(m);
    var (row, want) := (r.cells[80 * t.y..80 * t.y + 80], line + Blank(80 - |line|));
    forall x | 0 <= x < 80
      ensures row[x] == want[x]
    {
      assert row[x] == r.cells[80 * t.y + x] == m.cells[80 * t.y + x];
    }
    assert row == want;
  }

  lemma {:induction false} TextEnd(line: seq<Byte>, n: nat)
    requires forall i :: 0 <= i < |line| ==> line[i] != 0
    ensures UsedColumns(line + Blank(n)) == |line|
  {
    var row := line + Blank(n);
    assert line != [] ==> row[|line| - 1] == line[|line| - 1];
    assert forall i :: |line| <= i < |row| ==> row[i] == Blank(n)[i - |line|] == 0;
  }

  /** At the beginning of the row below a line of text, backspace takes the cursor to just after the text. */
  lemma {:induction false} BackspaceToText(t: Term, line: seq<Byte>)
    requires Sound(t) && t.x == 0 && t.y > t.top && RowShows(t.cells, t.y - 1, line) && Line(line)
    ensures var r := Step(t, 0x08); r.x == |line| && r.y == t.y - 1 && r.cells == t.cells && r.top == t.top
  {
    var row := Row(t.cells, t.y - 1);
    assert row == t.cells[80 * (t.y - 1)..80 * (t.y - 1) + 80] == line + Blank(80 - |line|);
    TextEnd(line, 80 - |line|);
    var i := 80 * (t.y - 1) + |line|;
    assert t.cells[i] == row[|line|] == Blank(80 - |line|)[0] == 0;
    assert t.cells[i := 0] == t.cells;
  }
}
