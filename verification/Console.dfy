/** The console of lib.c: two blocks of cells written in place and five cursors. */
module Console {
  import opened Bytes
  import opened ConsoleSpec
  import Memory

  class Console {
    const screen: array<byte>
    const buffer: array<byte>
    var screenX: int
    var screenY: int
    var bufferX: int
    var bufferY: int
    var startLine: int

    ghost function View(): Terminal
      reads this, screen, buffer
    {
      Terminal(screen[..], buffer[..], screenX, screenY, bufferX, bufferY, startLine)
    }

    ghost predicate Valid()
      reads this, screen, buffer
    {
      screen != buffer && Geometry(View())
    }

    constructor ()
      ensures Valid() && View() == Fresh()
      ensures fresh(screen) && fresh(buffer)
    {
      screen := new byte[SCREEN_CELLS](_ => SPACE);
      buffer := new byte[BUFFER_CELLS](_ => SPACE);
      screenX, screenY, bufferX, bufferY, startLine := 0, 0, 0, 0, 0;
      new;
      assert screen[..] == Repeat(SPACE, SCREEN_CELLS);
      assert buffer[..] == Repeat(SPACE, BUFFER_CELLS);
    }

    /** putc: catch up with the cursor, print on the screen, then print in the scrollback. */
    method Putc(c: byte)
      requires Valid()
      modifies this, screen, buffer
      ensures Valid() && View() == Put(old(View()), c)
    {
      ghost var t := View();
      ApplyKeepsGeometry(t, Op.Putc(c));
      while screenY >= NUM_ROWS
        invariant Valid() && CaughtUp(View()) == CaughtUp(t)
        decreases screenY
      {
        ScrollDown();
      }
      PutcOnScreen(c);
      PutcInBuffer(c);
    }

    method PutcOnScreen(c: byte)
      requires Valid() && screenY < NUM_ROWS
      modifies this, screen
      ensures View() == PutOnScreen(old(View()), c)
    {
      if c == NEWLINE || c == RETURN {
        screenY := screenY + 1;
        screenX := 0;
        if screenY >= NUM_ROWS {
          TerminalScroll();
        }
      } else {
        screen[NUM_COLS * screenY + screenX] := c;
        screenX := screenX + 1;
        screenY := screenY + screenX / NUM_COLS;
        screenX := screenX % NUM_COLS;
        if screenY >= NUM_ROWS {
          TerminalScroll();
        }
      }
    }

    method PutcInBuffer(c: byte)
      requires screen != buffer && Sized(View()) && OnPage(BufferPage(View()), BUFFER_ROWS)
      modifies this, buffer
      ensures View() == PutInBuffer(old(View()), c)
    {
      if c == NEWLINE || c == RETURN {
        bufferY := bufferY + 1;
        bufferX := 0;
        if bufferY >= NUM_ROWS * BUFFER_SIZE {
          BufferScroll();
        }
      } else {
        buffer[NUM_COLS * bufferY + bufferX] := c;
        bufferX := bufferX + 1;
        bufferY := bufferY + bufferX / NUM_COLS;
        bufferX := bufferX % NUM_COLS;
        if bufferY >= NUM_ROWS * BUFFER_SIZE {
          BufferScroll();
        }
      }
    }

    method TerminalScroll()
      requires screen.Length == SCREEN_CELLS && screenY == NUM_ROWS
      modifies screen, this`screenY, this`startLine
      ensures screen[..] == Scrolled(old(screen[..]), NUM_ROWS)
      ensures screenY == NUM_ROWS - 1
      ensures startLine == old(startLine) + if old(startLine) < LAST_COUNTED_START then 1 else 0
    {
      hide Scrolled;
      var offset := screenY - NUM_ROWS;
      ghost var was := screen[..];
      Memory.Memmove(screen, 0, (offset + 1) * NUM_COLS, NUM_COLS * (NUM_ROWS - offset - 1));
      FillCells(screen, NUM_COLS * (NUM_ROWS - offset - 1), NUL, (offset + 1) * NUM_COLS);
      MoveAndFillScrolls(was, NUM_ROWS);
      screenY := NUM_ROWS - (offset + 1);
      if startLine < (BUFFER_SIZE - 1) * NUM_ROWS - 1 {
        startLine := startLine + offset + 1;
      }
    }

    method BufferScroll()
      requires buffer.Length == BUFFER_CELLS && bufferY == BUFFER_ROWS
      modifies buffer, this`bufferY
      ensures buffer[..] == Scrolled(old(buffer[..]), BUFFER_ROWS)
      ensures bufferY == BUFFER_ROWS - 1
    {
      hide Scrolled;
      var offset := bufferY - NUM_ROWS * BUFFER_SIZE;
      ghost var was := buffer[..];
      Memory.Memmove(buffer, 0, (offset + 1) * NUM_COLS, NUM_COLS * (NUM_ROWS * BUFFER_SIZE - offset - 1));
      FillCells(buffer, NUM_COLS * (NUM_ROWS * BUFFER_SIZE - offset - 1), NUL, (offset + 1) * NUM_COLS);
      MoveAndFillScrolls(was, BUFFER_ROWS);
      bufferY := NUM_ROWS * BUFFER_SIZE - (offset + 1);
    }

    method ScrollUp()
      requires Valid()
      modifies this`startLine, this`screenY, screen
      ensures Valid() && View() == Up(old(View()))
    {
      if startLine == 0 {
        return;
      }
      startLine := startLine - 1;
      ShowWindow();
      screenY := screenY + 1;
      assert View() == Up(old(View()));
    }

    method ScrollDown()
      requires Valid()
      modifies this`startLine, this`screenY, screen
      ensures Valid() && View() == Down(old(View()))
    {
      if screenY < NUM_ROWS {
        return;
      }
      if startLine == (BUFFER_SIZE - 1) * NUM_ROWS {
        return;
      }
      startLine := startLine + 1;
      ShowWindow();
      screenY := screenY - 1;
      assert View() == Down(old(View()));
    }

    /** The copy from scrollback to screen that scroll_up and scroll_down share. */
    method ShowWindow()
      requires screen != buffer && Sized(View()) && 0 <= startLine <= LAST_COUNTED_START + 1
      modifies screen
      ensures screen[..] == Window(View(), startLine)
    {
      var i := 0;
      while i < NUM_COLS * NUM_ROWS
        invariant 0 <= i <= SCREEN_CELLS
        invariant screen[..i] == buffer[NUM_COLS * startLine..NUM_COLS * startLine + i]
      {
        screen[i] := buffer[NUM_COLS * startLine + i];
        i := i + 1;
      }
      assert screen[..] == screen[..i];
    }

    method Clear()
      requires Valid()
      modifies this, screen, buffer
      ensures View() == Cleared(old(View()))
    {
      FillCells(screen, 0, SPACE, NUM_ROWS * NUM_COLS);
      screenX := 0;
      screenY := 0;
      FillCells(buffer, startLine * NUM_COLS, SPACE, NUM_ROWS * NUM_COLS);
      bufferX := startLine;
      bufferY := 0;
      assert screen[..] == Repeat(SPACE, SCREEN_CELLS);
    }

    /** terminal_write: every byte goes through putc, and the count comes back. */
    method TerminalWrite(text: bytes) returns (count: nat)
      requires Valid()
      modifies this, screen, buffer
      ensures Valid() && View() == PutAll(old(View()), text) && count == |text|
    {
      count := 0;
      while count < |text|
        invariant 0 <= count <= |text| && Valid()
        invariant View() == PutAll(old(View()), text[..count])
      {
        assert text[..count + 1][..count] == text[..count];
        Putc(text[count]);
        count := count + 1;
      }
      assert text[..count] == text;
    }
  }

  /** Moving a page up by one row and clearing its last row is scrolling it. */
  lemma MoveAndFillScrolls(was: bytes, rows: nat)
    requires 1 <= rows && NUM_COLS * rows <= |was|
    ensures var kept := NUM_COLS * (rows - 1);
      Memory.Filled(Memory.Moved(was, 0, NUM_COLS, kept), kept, NUL, NUM_COLS) == Scrolled(was, rows)
  {
  }

  /** The consecutive stores of `rep stosw`, one cell each. */
  method FillCells(cells: array<byte>, first: nat, c: byte, n: nat)
    requires first + n <= cells.Length
    modifies cells
    ensures cells[..] == Memory.Filled(old(cells[..]), first, c, n)
  {
    var i := 0;
    while i < n
      invariant 0 <= i <= n
      invariant forall k :: 0 <= k < cells.Length ==> cells[k] == if first <= k < first + i then c else old(cells[k])
    {
      cells[first + i] := c;
      i := i + 1;
    }
    assert cells[..] == Memory.Filled(old(cells[..]), first, c, n);
  }
}
