/** The VGA text driver: a window of 80x25 cells scrolled in place. */
module VgaText {
  import opened PhysicalMemory
  import opened Terminal

  const DEFAULT_COLOR: Byte := 0x07
  const CELLS: int := WIDTH * HEIGHT

  /** The first `n` cells hold what was `shift` cells further on; the rest are untouched. */
  ghost predicate Moved(given: seq<Byte>, chars: seq<Byte>, colors: seq<Byte>, shift: int, n: int) {
    && |chars| == |colors| == |given| && 0 <= shift && 0 <= n <= |given| - shift
    && (forall k :: 0 <= k < n ==> chars[k] == given[k + shift])
    && (forall k :: n <= k < |given| ==> chars[k] == given[k])
    && (forall k :: 0 <= k < n ==> colors[k] == DEFAULT_COLOR)
  }

  /** The moved cells, followed up to cell `n` by blanks. */
  ghost predicate Cleared(given: seq<Byte>, chars: seq<Byte>, colors: seq<Byte>, shift: int, n: int) {
    && |chars| == |colors| == |given| && 0 <= shift && 0 <= |given| - shift <= n <= |given|
    && (forall k :: 0 <= k < n ==> chars[k] == if k < |given| - shift then given[k + shift] else 0)
    && (forall k :: 0 <= k < n ==> colors[k] == DEFAULT_COLOR)
  }

  lemma MoveStep(given: seq<Byte>, chars: seq<Byte>, colors: seq<Byte>, shift: int, n: int)
    requires Moved(given, chars, colors, shift, n) && n + shift < |given|
    ensures Moved(given, chars[n := chars[n + shift]], colors[n := DEFAULT_COLOR], shift, n + 1)
  {
  }

  class Vga {
    /** Alternating character and colour bytes. */
    const screenBuffer: array<Byte>
    var cursorX: int
    var cursorY: int
    /** The characters and colours the buffer holds, cell by cell. */
    ghost var chars: seq<Byte>
    ghost var colors: seq<Byte>
    /** The unbounded terminal this window shows the end of. */
    ghost var term: Term

    ghost predicate BufferValid()
      reads this, screenBuffer
    {
      && screenBuffer.Length == 2 * CELLS && |chars| == |colors| == CELLS
      && (forall k :: 0 <= k < CELLS ==> screenBuffer[2 * k] == chars[k])
      && (forall k :: 0 <= k < CELLS ==> screenBuffer[2 * k + 1] == colors[k])
    }

    ghost predicate AllDefault()
      reads this
    {
      forall k :: 0 <= k < |colors| ==> colors[k] == DEFAULT_COLOR
    }

    /** The screen is the end of the terminal's scroll, with the cursor at the same cell. */
    ghost predicate Valid()
      reads this, screenBuffer
    {
      && BufferValid() && AllDefault() && Sound(term)
      && chars == Window(term) && cursorX == term.x && cursorY == term.y - term.top
    }

    method SetChar(x: int, y: int, c: Byte)
      requires BufferValid() && 0 <= x < WIDTH && 0 <= y < HEIGHT
      modifies `chars, `colors, screenBuffer
      ensures BufferValid()
      ensures chars == old(chars)[WIDTH * y + x := c] && colors == old(colors)[WIDTH * y + x := DEFAULT_COLOR]
      ensures screenBuffer[2 * (80 * y + x)] == c && screenBuffer[2 * (80 * y + x) + 1] == 0x07
    {
      screenBuffer[2 * (y * WIDTH + x)] := c;
      screenBuffer[2 * (y * WIDTH + x) + 1] := DEFAULT_COLOR;
      chars := chars[WIDTH * y + x := c];
      colors := colors[WIDTH * y + x := DEFAULT_COLOR];
    }

    method GetChar(x: int, y: int) returns (c: Byte)
      requires BufferValid() && 0 <= x < WIDTH && 0 <= y < HEIGHT
      ensures c == chars[WIDTH * y + x]
    {
      c := screenBuffer[2 * (y * WIDTH + x)];
    }

    /** Moves everything `lines` rows up in place and blanks the rows that come free. */
    method Scrollback(lines: int)
      requires BufferValid() && 0 <= lines <= HEIGHT
      modifies `chars, `colors, `cursorY, screenBuffer
      ensures BufferValid() && AllDefault()
      ensures chars == old(chars)[WIDTH * lines..] + Blank(WIDTH * lines)
      ensures cursorY == old(cursorY) - lines
    {
      ghost var given := chars;
      MoveRows(lines);
      ClearRows(lines, given);
      cursorY := cursorY - lines;
    }

    method MoveRows(lines: int)
      requires BufferValid() && 0 <= lines <= HEIGHT
      modifies `chars, `colors, screenBuffer
      ensures BufferValid() && Moved(old(chars), chars, colors, WIDTH * lines, CELLS - WIDTH * lines)
    {
      ghost var given := chars;
      var y := lines;
      while y < HEIGHT
        invariant lines <= y <= HEIGHT && BufferValid()
        invariant Moved(given, chars, colors, WIDTH * lines, WIDTH * (y - lines))
      {
        var x := 0;
        while x < WIDTH
          invariant 0 <= x <= WIDTH && BufferValid()
          invariant Moved(given, chars, colors, WIDTH * lines, WIDTH * (y - lines) + x)
        {
          MoveStep(given, chars, colors, WIDTH * lines, WIDTH * (y - lines) + x);
          assert WIDTH * (y - lines) + x + WIDTH * lines == WIDTH * y + x;
          var c := GetChar(x, y);
          SetChar(x, y - lines, c);
          x := x + 1;
        }
        y := y + 1;
      }
    }

    method ClearRows(lines: int, ghost given: seq<Byte>)
      requires BufferValid() && 0 <= lines <= HEIGHT
      requires Moved(given, chars, colors, WIDTH * lines, CELLS - WIDTH * lines)
      modifies `chars, `colors, screenBuffer
      ensures BufferValid() && Cleared(given, chars, colors, WIDTH * lines, CELLS)
    {
      var y := HEIGHT - lines;
      while y < HEIGHT
        invariant HEIGHT - lines <= y <= HEIGHT && BufferValid()
        invariant Cleared(given, chars, colors, WIDTH * lines, WIDTH * y)
      {
        var x := 0;
        while x < WIDTH
          invariant 0 <= x <= WIDTH && BufferValid()
          invariant Cleared(given, chars, colors, WIDTH * lines, WIDTH * y + x)
        {
          SetChar(x, y, 0);
          x := x + 1;
        }
        y := y + 1;
      }
    }

    /** Blanks the screen and starts a new terminal. */
    method ClearScreen()
      requires BufferValid()
      modifies this, screenBuffer
      ensures Valid() && term == Term(Blank(CELLS), 0, 0, 0)
    {
      var y := 0;
      while y < HEIGHT
        invariant 0 <= y <= HEIGHT && BufferValid()
        invariant forall k :: 0 <= k < WIDTH * y ==> chars[k] == 0 && colors[k] == DEFAULT_COLOR
      {
        var x := 0;
        while x < WIDTH
          invariant 0 <= x <= WIDTH && BufferValid()
          invariant forall k :: 0 <= k < WIDTH * y + x ==> chars[k] == 0 && colors[k] == DEFAULT_COLOR
        {
          SetChar(x, y, 0);
          x := x + 1;
        }
        y := y + 1;
      }
      cursorX := 0;
      cursorY := 0;
      term := Term(Blank(CELLS), 0, 0, 0);
    }

    /** The screen shows terminal `t`, whose cursor may just have run past the right or lower edge. */
    ghost predicate Shows(t: Term)
      reads this, screenBuffer
    {
      && BufferValid() && AllDefault()
      && |t.cells| == WIDTH * (t.top + HEIGHT) && chars == t.cells[WIDTH * t.top..]
      && t.x <= WIDTH && t.top <= t.y <= t.top + HEIGHT && (t.y == t.top + HEIGHT ==> t.x < WIDTH)
      && cursorX == t.x && cursorY == t.y - t.top
    }

    /** Wraps to a new line past the end of the row, and scrolls past the end of the screen. */
    method WrapAndScroll()
      requires Shows(term)
      modifies this, screenBuffer
      ensures Valid() && term == Settle(old(term))
    {
      ghost var t := term;
      if cursorX >= WIDTH {
        cursorX := 0;
        cursorY := cursorY + 1;
      }
      term := Settle(t);
      if cursorY >= HEIGHT {
        Scrollback(1);
        assert Window(term) == t.cells[WIDTH * t.top..][WIDTH..] + Blank(WIDTH);
      }
    }

    /** Moves the cursor from the right edge to just after the last character of its row. */
    method FindTextEnd(ghost row: seq<Byte>)
      requires BufferValid() && cursorX == WIDTH - 1 && 0 <= cursorY < HEIGHT
      requires row == chars[WIDTH * cursorY..WIDTH * (cursorY + 1)]
      modifies `cursorX
      ensures cursorX == if UsedColumns(row) < WIDTH then UsedColumns(row) else WIDTH - 1
    {
      var c := GetChar(cursorX, cursorY);
      while cursorX > 0 && c == 0
        invariant 0 <= cursorX < WIDTH && c == row[cursorX]
        invariant forall i :: cursorX < i < WIDTH ==> row[i] == 0
      {
        cursorX := cursorX - 1;
        c := GetChar(cursorX, cursorY);
      }
      if cursorX < WIDTH - 1 && c != 0 {
        cursorX := cursorX + 1;
      }
    }

    /** A row on the screen is a stretch of the window. */
    lemma RowShown(t: Term, y: int, window: seq<Byte>)
      requires Sound(t) && t.top <= y < t.top + HEIGHT && window == Window(t)
      ensures Row(t.cells, y) == window[WIDTH * (y - t.top)..WIDTH * (y - t.top + 1)]
    {
    }

    /** From before the first column to just after the text of the row above. */
    method ToRowAbove()
      requires BufferValid() && Sound(term) && chars == Window(term) && term.x == 0 && !AtOrigin(term)
      requires cursorX == -1 && cursorY == term.y - term.top
      modifies `cursorX, `cursorY
      ensures cursorX == BackedUp(term).x && cursorY == BackedUp(term).y - term.top
    {
      cursorX := WIDTH - 1;
      cursorY := cursorY - 1;
      RowShown(term, term.y - 1, chars);
      FindTextEnd(Row(term.cells, term.y - 1));
    }

    /** Moves the cursor one column back, or to just after the text of the row above. */
    method BackUp()
      requires Valid() && !AtOrigin(term)
      modifies `cursorX, `cursorY, `term
      ensures Valid() && term == BackedUp(old(term))
    {
      ghost var t := term;
      cursorX := cursorX - 1;
      if cursorX < 0 {
        ToRowAbove();
      }
      term := BackedUp(t);
    }

    method Display(c: Byte)
      requires Valid()
      modifies this, screenBuffer
      ensures Shows(term)
      ensures term == old(term.(cells := term.cells[WIDTH * term.y + term.x := c], x := term.x + 1))
    {
      SetChar(cursorX, cursorY, c);
      cursorX := cursorX + 1;
      term := term.(cells := term.cells[WIDTH * term.y + term.x := c], x := term.x + 1);
    }

    method Erase()
      requires Valid() && !AtOrigin(term)
      modifies this, screenBuffer
      ensures Shows(term) && Sound(term) && term == Step(old(term), BACKSPACE)
    {
      BackUp();
      SetChar(cursorX, cursorY, 0);
      term := term.(cells := term.cells[WIDTH * term.y + term.x := 0]);
    }

    /** Shows one byte: the screen follows the unbounded terminal step by step. */
    method PutChar(c: Byte)
      requires Valid() && !Escapes(term, c)
      modifies this, screenBuffer
      ensures Valid() && term == Step(old(term), c)
    {
      if c == NEWLINE {
        cursorY := cursorY + 1;
        cursorX := 0;
        term := term.(x := 0, y := term.y + 1);
      } else if c == RETURN {
        cursorX := 0;
        term := term.(x := 0);
      } else if c == TAB {
        cursorX := cursorX + 4;
        cursorX := cursorX - cursorX % 4;
        term := term.(x := term.x + 4 - term.x % 4);
      } else if c == BACKSPACE {
        Erase();
      } else {
        Display(c);
      }
      WrapAndScroll();
    }

    /** Over every stream with no backspace at the screen's first cell, the screen is the last 25
        rows of the unbounded terminal run on the same stream. */
    method PutString(s: seq<Byte>)
      requires Valid() && Plain(term, s)
      modifies this, screenBuffer
      ensures Valid() && term == Run(old(term), s)
      ensures forall k :: 0 <= k < 80 * 25 ==> screenBuffer[2 * k] == term.cells[80 * term.top + k] && screenBuffer[2 * k + 1] == 0x07
    {
      ghost var start := term;
      var i := 0;
      while i < |s|
        invariant 0 <= i <= |s| && Valid()
        invariant Plain(start, s[..i]) && term == Run(start, s[..i])
      {
        PlainPrefix(start, s, i + 1);
        assert s[..i + 1][..i] == s[..i];
        PutChar(s[i]);
        i := i + 1;
      }
      assert s[..i] == s;
      OnScreen();
    }

    /** The buffer holds the last 25 rows of the terminal, each character followed by the default colour. */
    lemma OnScreen()
      requires Valid()
      ensures forall k :: 0 <= k < 80 * 25 ==> screenBuffer[2 * k] == term.cells[80 * term.top + k] && screenBuffer[2 * k + 1] == 0x07
    {
      forall k | 0 <= k < 80 * 25
        ensures screenBuffer[2 * k] == term.cells[80 * term.top + k] && screenBuffer[2 * k + 1] == 0x07
      {
        assert chars[k] == Window(term)[k] && colors[k] == DEFAULT_COLOR;
      }
    }
  }
}
