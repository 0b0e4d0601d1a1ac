/** What every run of putc, scroll_up and scroll_down keeps, and where the code stops keeping it. */
module ConsoleProofs {
  import opened Bytes
  import opened ConsoleSpec

  // ---------- one step ----------

  /** The page has the log's cursor, and its cells are right from the log's cell `from` on. */
  ghost predicate FollowsFrom(p: Page, rows: nat, log: bytes, from: int)
    requires NUM_COLS * rows <= |p.cells| && 0 < rows
  {
    && p.x == |log| % NUM_COLS
    && p.y == Min(Row(log), rows - 1)
    && CellsFrom(p.cells, rows, log, Row(log) - p.y, from)
  }

  /** Cells that show the log from its row `top` on. */
  ghost predicate CellsFrom(cells: bytes, rows: nat, log: bytes, top: nat, from: int)
    requires NUM_COLS * rows <= |cells|
  {
    forall i {:trigger cells[i]} :: 0 <= i < NUM_COLS * rows && from <= NUM_COLS * top + i ==>
      Show(cells[i]) == LogCell(log, NUM_COLS * top + i)
  }

  lemma LoggedCell(log: bytes, c: byte, k: nat)
    ensures LogCell(Logged(log, c), k) == if k == |log| && !BreaksLine(c) then Show(c) else LogCell(log, k)
  {
  }

  lemma LoggedCursor(log: bytes, c: byte)
    ensures var log', breaks := Logged(log, c), BreaksLine(c) || |log| % NUM_COLS == NUM_COLS - 1;
      && |log'| % NUM_COLS == (if breaks then 0 else |log| % NUM_COLS + 1)
      && Row(log') == Row(log) + if breaks then 1 else 0
  {
  }

  /** The character in its cell, before the cursor moves. */
  lemma TypedCells(cells: bytes, rows: nat, log: bytes, top: nat, from: int, c: byte)
    requires NUM_COLS * rows <= |cells| && CellsFrom(cells, rows, log, top, from)
    requires NUM_COLS * top <= |log| < NUM_COLS * (top + rows)
    ensures CellsFrom(if BreaksLine(c) then cells else cells[|log| - NUM_COLS * top := c], rows, Logged(log, c), top, from)
  {
    var cells' := if BreaksLine(c) then cells else cells[|log| - NUM_COLS * top := c];
    hide LogCell, Logged, BreaksLine;
    forall i {:trigger cells'[i]} | 0 <= i < NUM_COLS * rows && from <= NUM_COLS * top + i
      ensures Show(cells'[i]) == LogCell(Logged(log, c), NUM_COLS * top + i)
    {
      LoggedCell(log, c, NUM_COLS * top + i);
      assert Show(cells[i]) == LogCell(log, NUM_COLS * top + i);
    }
  }

  /** A full page moved up by a row. */
  lemma ScrolledCells(cells: bytes, rows: nat, log: bytes, top: nat, from: int)
    requires 0 < rows && NUM_COLS * rows <= |cells| && CellsFrom(cells, rows, log, top, from)
    requires |log| <= NUM_COLS * (top + rows)
    ensures CellsFrom(Scrolled(cells, rows), rows, log, top + 1, from)
  {
    var cells' := Scrolled(cells, rows);
    forall i {:trigger cells'[i]} | 0 <= i < NUM_COLS * rows && from <= NUM_COLS * (top + 1) + i
      ensures Show(cells'[i]) == LogCell(log, NUM_COLS * (top + 1) + i)
    {
      if i < NUM_COLS * (rows - 1) {
        assert cells'[i] == cells[i + NUM_COLS];
      }
    }
  }

  lemma Place(log: bytes, y: nat)
    ensures |log| - NUM_COLS * (Row(log) - y) == NUM_COLS * y + |log| % NUM_COLS
  {
  }

  /** The cursor moves along its row, or to the start of the next row of the page. */
  lemma StayFollowsFrom(p: Page, rows: nat, log: bytes, c: byte, from: int)
    requires OnPage(p, rows) && FollowsFrom(p, rows, log, from) && !LeavesPage(p, rows, c)
    ensures FollowsFrom(PutOnPage(p, rows, c), rows, Logged(log, c), from)
  {
    hide CellsFrom, Logged, Row;
    var q, top := PutOnPage(p, rows, c), Row(log) - p.y;
    Place(log, p.y);
    LoggedCursor(log, c);
    TypedCells(p.cells, rows, log, top, from, c);
    assert q.cells == if BreaksLine(c) then p.cells else p.cells[NUM_COLS * p.y + p.x := c];
    assert q.x == |Logged(log, c)| % NUM_COLS && Row(Logged(log, c)) - q.y == top;
    hide PutOnPage;
  }

  /** The page moves up. */
  lemma LeaveFollowsFrom(p: Page, rows: nat, log: bytes, c: byte, from: int)
    requires OnPage(p, rows) && FollowsFrom(p, rows, log, from) && LeavesPage(p, rows, c)
    ensures FollowsFrom(PutOnPage(p, rows, c), rows, Logged(log, c), from)
  {
    hide CellsFrom, Logged, Scrolled, Row;
    var top := Row(log) - p.y;
    var cells := if BreaksLine(c) then p.cells else p.cells[NUM_COLS * p.y + p.x := c];
    Place(log, p.y);
    LoggedCursor(log, c);
    TypedCells(p.cells, rows, log, top, from, c);
    Place(Logged(log, c), p.y + 1);
    assert PutOnPage(p, rows, c) == Page(Scrolled(cells, rows), 0, p.y);
    ScrolledCells(cells, rows, Logged(log, c), top, from);
  }

  lemma PutOnPageFollowsFrom(p: Page, rows: nat, log: bytes, c: byte, from: int)
    requires OnPage(p, rows) && FollowsFrom(p, rows, log, from)
    ensures FollowsFrom(PutOnPage(p, rows, c), rows, Logged(log, c), from)
  {
    hide FollowsFrom;
    if LeavesPage(p, rows, c) {
      LeaveFollowsFrom(p, rows, log, c, from);
    } else {
      StayFollowsFrom(p, rows, log, c, from);
    }
  }

  lemma PutOnPageFollows(p: Page, rows: nat, log: bytes, c: byte)
    requires OnPage(p, rows) && PageFollows(p, rows, log)
    ensures PageFollows(PutOnPage(p, rows, c), rows, Logged(log, c))
  {
    PutOnPageFollowsFrom(p, rows, log, c, 0);
  }

  /** Scrolling moves the window and the cursor row together, so their sum is conserved. */
  lemma ScrollingKeepsAligned(t: Terminal)
    requires Geometry(t) && Aligned(t)
    ensures Aligned(Up(t)) && Aligned(Down(t))
    ensures Geometry(CaughtUp(t)) && Aligned(CaughtUp(t)) && CaughtUp(t).screenY < NUM_ROWS
  {
  }

  lemma AlignedScreenFollows(t: Terminal, log: bytes)
    requires Geometry(t) && Aligned(t) && BufferFollows(t, log) && t.screenY < NUM_ROWS
    ensures ScreenFollows(t, log)
  {
    forall i {:trigger t.screen[i]} | 0 <= i < SCREEN_CELLS
      ensures Show(t.screen[i]) == LogCell(log, NUM_COLS * (Row(log) - t.screenY) + i)
    {
      var k := NUM_COLS * t.startLine + i;
      assert Show(t.buffer[k]) == LogCell(log, NUM_COLS * (Row(log) - t.bufferY) + k);
    }
  }

  lemma FollowingScreenAligned(t: Terminal, log: bytes)
    requires Geometry(t) && ScreenFollows(t, log) && BufferFollows(t, log)
    requires t.bufferY == t.startLine + t.screenY
    ensures Aligned(t)
  {
    forall i {:trigger t.screen[i]} | 0 <= i < SCREEN_CELLS
      ensures Show(t.screen[i]) == Show(t.buffer[NUM_COLS * t.startLine + i])
    {
      var k := NUM_COLS * t.startLine + i;
      assert Show(t.buffer[k]) == LogCell(log, NUM_COLS * (Row(log) - t.bufferY) + k);
      assert Show(t.screen[i]) == LogCell(log, NUM_COLS * (Row(log) - t.screenY) + i);
    }
  }

  // ---------- every run ----------

  /** The scrollback follows the log; until its last row is reached, the screen is a window on it. */
  ghost predicate Follows(t: Terminal, log: bytes) {
    && Geometry(t) && BufferFollows(t, log)
    && (t.bufferY < BUFFER_ROWS - 1 ==> Aligned(t))
  }

  lemma PutFollows(t: Terminal, log: bytes, c: byte)
    requires Follows(t, log)
    ensures Follows(Put(t, c), Logged(log, c))
    ensures t.bufferY < BUFFER_ROWS - 1 ==> ScreenFollows(Put(t, c), Logged(log, c))
  {
    ApplyKeepsGeometry(t, Putc(c));
    var u := CaughtUp(t);
    var v := PutOnScreen(u, c);
    PutOnPageFollows(BufferPage(v), BUFFER_ROWS, log, c);
    if t.bufferY < BUFFER_ROWS - 1 {
      ScrollingKeepsAligned(t);
      AlignedScreenFollows(u, log);
      PutOnPageFollows(ScreenPage(u), NUM_ROWS, log, c);
      if Put(t, c).bufferY < BUFFER_ROWS - 1 {
        FollowingScreenAligned(Put(t, c), Logged(log, c));
      }
    }
  }

  lemma {:induction false} RunFollows(ops: seq<Op>)
    ensures Follows(Run(ops), LogOf(ops))
  {
    if ops == [] {
      assert BufferFollows(Fresh(), []);
    } else {
      var before, op := ops[..|ops| - 1], ops[|ops| - 1];
      RunFollows(before);
      if op.Putc? {
        PutFollows(Run(before), LogOf(before), op.c);
      } else {
        ApplyKeepsGeometry(Run(before), op);
        if Run(before).bufferY < BUFFER_ROWS - 1 {
          ScrollingKeepsAligned(Run(before));
        }
      }
    }
  }

  /**
   Every interleaving of output and scroll keys leaves the last 250 rows of the log in the
   scrollback, and leaves the screen a window on it exactly while the log has not gone past row 248.
   */
  lemma {:induction false} WindowOnScrollback(ops: seq<Op>)
    ensures BufferFollows(Run(ops), LogOf(ops))
    ensures Aligned(Run(ops)) <==> Row(LogOf(ops)) < BUFFER_ROWS - 1
  {
    RunFollows(ops);
  }

  // ---------- output of any length ----------

  /** scroll_up is only pressed while the log has not gone past row 248. */
  ghost predicate ScrollsEarly(ops: seq<Op>) {
    forall i :: 0 <= i < |ops| && ops[i].ScrollUp? ==> Row(LogOf(ops[..i])) < BUFFER_ROWS - 1
  }

  lemma LaterPutFollows(t: Terminal, log: bytes, c: byte)
    requires Follows(t, log) && ScreenFollows(t, log)
    ensures ScreenFollows(Put(t, c), Logged(log, c))
  {
    PutOnPageFollows(ScreenPage(t), NUM_ROWS, log, c);
  }

  lemma {:induction false} LongRunFollows(ops: seq<Op>)
    requires ScrollsEarly(ops)
    ensures Follows(Run(ops), LogOf(ops))
    ensures Run(ops).bufferY == BUFFER_ROWS - 1 ==>
      ScreenFollows(Run(ops), LogOf(ops)) && Run(ops).startLine == LAST_COUNTED_START
  {
    RunFollows(ops);
    if ops != [] {
      var before, op := ops[..|ops| - 1], ops[|ops| - 1];
      assert forall i :: 0 <= i < |before| ==> before[..i] == ops[..i];
      LongRunFollows(before);
      if op.Putc? {
        PutFollows(Run(before), LogOf(before), op.c);
        if Run(before).bufferY == BUFFER_ROWS - 1 {
          LaterPutFollows(Run(before), LogOf(before), op.c);
        }
      }
    }
  }

  /**
   Output of any length, with scroll keys pressed at any time while the log has not gone past
   row 248: after a character is printed the screen is the last 25 rows of the log and the
   scrollback its last 250.
   */
  lemma ScreenShowsLatestOutput(ops: seq<Op>, c: byte)
    requires ScrollsEarly(ops)
    ensures ScreenFollows(Run(ops + [Putc(c)]), LogOf(ops + [Putc(c)]))
    ensures BufferFollows(Run(ops + [Putc(c)]), LogOf(ops + [Putc(c)]))
  {
    var all := ops + [Putc(c)];
    assert all[..|all| - 1] == ops;
    LongRunFollows(ops);
    RunFollows(all);
    if Run(ops).bufferY < BUFFER_ROWS - 1 {
      PutFollows(Run(ops), LogOf(ops), c);
    } else {
      LaterPutFollows(Run(ops), LogOf(ops), c);
    }
  }

  /**
   Where that stops being true. Once the log is past row 248, scrolling up and back down leaves
   the screen one row behind the log, so it is the latest output again only when the last
   26 rows all look alike.
   */
  lemma {:induction false} LateScrollLosesARow(ops: seq<Op>)
    requires ScrollsEarly(ops) && Row(LogOf(ops)) >= BUFFER_ROWS - 1
    ensures ScreenFollows(Run(ops + [ScrollUp, ScrollDown]), LogOf(ops)) <==> LastRowsAlike(LogOf(ops))
  {
    LongRunFollows(ops);
    UpThenDown(ops);
    WindowShowsARowEarly(Run(ops), LogOf(ops));
    RowEarlyFollows(Run(ops + [ScrollUp, ScrollDown]), LogOf(ops));
  }

  lemma UpThenDown(ops: seq<Op>)
    requires Run(ops).screenY == NUM_ROWS - 1 && Run(ops).startLine == LAST_COUNTED_START
    ensures Run(ops + [ScrollUp, ScrollDown]) == Run(ops).(screen := Window(Run(ops), LAST_COUNTED_START))
  {
    var all := ops + [ScrollUp, ScrollDown];
    assert all[..|all| - 1] == ops + [ScrollUp] && (ops + [ScrollUp])[..|ops|] == ops;
  }

  lemma RowEarlyFollows(u: Terminal, log: bytes)
    requires Sized(u) && Row(log) >= BUFFER_ROWS - 1
    requires u.screenX == |log| % NUM_COLS && u.screenY == NUM_ROWS - 1
    requires ShowsARowEarly(u.screen, log)
    ensures ScreenFollows(u, log) <==> LastRowsAlike(log)
  {
    var first := NUM_COLS * (Row(log) - NUM_ROWS);
    if ScreenFollows(u, log) {
      forall i {:trigger LogCell(log, i)} | first <= i < first + SCREEN_CELLS
        ensures LogCell(log, i) == LogCell(log, i + NUM_COLS)
      {
        assert Show(u.screen[i - first]) == LogCell(log, first + (i - first));
        assert Show(ScreenPage(u).cells[i - first]) == LogCell(log, NUM_COLS * (Row(log) - u.screenY) + (i - first));
      }
    }
  }

  ghost predicate ShowsARowEarly(cells: bytes, log: bytes)
    requires |cells| == SCREEN_CELLS && Row(log) >= NUM_ROWS
  {
    forall i {:trigger cells[i]} :: 0 <= i < SCREEN_CELLS ==>
      Show(cells[i]) == LogCell(log, NUM_COLS * (Row(log) - NUM_ROWS) + i)
  }

  ghost predicate LastRowsAlike(log: bytes)
    requires Row(log) >= NUM_ROWS
  {
    var first := NUM_COLS * (Row(log) - NUM_ROWS);
    forall i {:trigger LogCell(log, i)} :: first <= i < first + SCREEN_CELLS ==>
      LogCell(log, i) == LogCell(log, i + NUM_COLS)
  }

  lemma WindowShowsARowEarly(t: Terminal, log: bytes)
    requires Geometry(t) && BufferFollows(t, log) && Row(log) >= BUFFER_ROWS - 1
    requires t.startLine == LAST_COUNTED_START
    ensures ShowsARowEarly(Window(t, t.startLine), log)
  {
    var w := Window(t, t.startLine);
    forall i {:trigger w[i]} | 0 <= i < SCREEN_CELLS
      ensures Show(w[i]) == LogCell(log, NUM_COLS * (Row(log) - NUM_ROWS) + i)
    {
      var k := NUM_COLS * t.startLine + i;
      assert Show(t.buffer[k]) == LogCell(log, NUM_COLS * (Row(log) - t.bufferY) + k);
    }
  }

  /** Text printed with no scroll key in between. */
  function Puts(text: bytes): (ops: seq<Op>)
    ensures |ops| == |text|
  {
    if text == [] then [] else Puts(text[..|text| - 1]) + [Putc(text[|text| - 1])]
  }

  /** Once the scrollback is full, the window's start and the cursor row add up to its last row but one. */
  predicate RowsCounted(t: Terminal) {
    t.bufferY == BUFFER_ROWS - 1 ==> t.startLine + t.screenY == LAST_COUNTED_START + NUM_ROWS - 1
  }

  lemma PutCountsRows(t: Terminal, c: byte)
    requires Geometry(t) && RowsCounted(t) && (t.bufferY < BUFFER_ROWS - 1 ==> Aligned(t))
    ensures RowsCounted(Put(t, c))
  {
    hide Window, Scrolled;
    assert CaughtUp(t).startLine + CaughtUp(t).screenY == t.startLine + t.screenY;
  }

  /** Scroll keys, early or late, never make the code lose count of the rows. */
  lemma {:induction false} LateRowsAreCounted(ops: seq<Op>)
    ensures RowsCounted(Run(ops))
  {
    hide Put, BufferFollows, Window;
    if ops != [] {
      var before, op := ops[..|ops| - 1], ops[|ops| - 1];
      LateRowsAreCounted(before);
      RunFollows(before);
      if op.Putc? {
        PutCountsRows(Run(before), op.c);
      }
    }
  }

  lemma FirstPutFollowsFrom(ops: seq<Op>, c: byte)
    ensures var t, log := Run(ops), LogOf(ops);
      FollowsFrom(ScreenPage(Put(t, c)), NUM_ROWS, Logged(log, c), NUM_COLS * (Row(log) + 1))
  {
    var t, log := Run(ops), LogOf(ops);
    RunFollows(ops);
    if t.bufferY < BUFFER_ROWS - 1 {
      PutFollows(t, log, c);
    } else {
      LateRowsAreCounted(ops);
      PutOnPageFollowsFrom(ScreenPage(CaughtUp(t)), NUM_ROWS, log, c, NUM_COLS * (Row(log) + 1));
    }
  }

  lemma FollowsCursor(t: Terminal, log: bytes, from: int)
    requires Geometry(t) && FollowsFrom(ScreenPage(t), NUM_ROWS, log, from)
    ensures CaughtUp(t) == t && OnPage(ScreenPage(t), NUM_ROWS)
  {
  }

  lemma PutPage(t: Terminal, c: byte)
    requires Geometry(t)
    ensures CaughtUp(t).screenY < NUM_ROWS && OnPage(ScreenPage(CaughtUp(t)), NUM_ROWS)
    ensures ScreenPage(Put(t, c)) == PutOnPage(ScreenPage(CaughtUp(t)), NUM_ROWS, c)
  {
  }

  lemma NextPutFollowsFrom(t: Terminal, log: bytes, c: byte, from: int)
    requires Geometry(t) && FollowsFrom(ScreenPage(t), NUM_ROWS, log, from)
    ensures FollowsFrom(ScreenPage(Put(t, c)), NUM_ROWS, Logged(log, c), from)
  {
    FollowsCursor(t, log, from);
    PutPage(t, c);
    hide FollowsFrom, Put, CaughtUp;
    PutOnPageFollowsFrom(ScreenPage(t), NUM_ROWS, log, c, from);
  }

  lemma {:induction false} TextFollowsFrom(ops: seq<Op>, text: bytes)
    requires text != []
    ensures var all := ops + Puts(text);
      FollowsFrom(ScreenPage(Run(all)), NUM_ROWS, LogOf(all), NUM_COLS * (Row(LogOf(ops)) + 1))
  {
    hide FollowsFrom, Put, Logged, Geometry, Row;
    var all, rest, c := ops + Puts(text), text[..|text| - 1], text[|text| - 1];
    var before := ops + Puts(rest);
    assert all[..|all| - 1] == before && all[|all| - 1] == Putc(c);
    if rest == [] {
      assert before == ops;
      FirstPutFollowsFrom(ops, c);
    } else {
      TextFollowsFrom(ops, rest);
      NextPutFollowsFrom(Run(before), LogOf(before), c, NUM_COLS * (Row(LogOf(ops)) + 1));
    }
  }

  lemma FollowsFromTheTop(t: Terminal, log: bytes, from: int)
    requires Follows(t, log) && RowsCounted(t) && FollowsFrom(ScreenPage(t), NUM_ROWS, log, from)
    requires NUM_ROWS <= Row(log) && from <= NUM_COLS * (Row(log) - (NUM_ROWS - 1))
    ensures ScreenFollows(t, log)
    ensures Row(log) >= BUFFER_ROWS - 1 ==> t.startLine == LAST_COUNTED_START
  {
    hide Aligned;
  }

  /**
   The console recovers. Whatever was printed and whichever scroll keys were pressed when, once text printed
   without scroll keys has taken the log 25 rows further, the screen is the last 25 rows of the log again, and
   past row 248 its window is back at the last start the code counts to.
   */
  lemma ScreenRecovers(ops: seq<Op>, text: bytes)
    requires Row(LogOf(ops + Puts(text))) >= Row(LogOf(ops)) + NUM_ROWS
    ensures ScreenFollows(Run(ops + Puts(text)), LogOf(ops + Puts(text)))
    ensures Row(LogOf(ops + Puts(text))) >= BUFFER_ROWS - 1 ==> Run(ops + Puts(text)).startLine == LAST_COUNTED_START
  {
    hide LogOf, Run, FollowsFrom, PageFollows, Follows, RowsCounted, Row, Puts;
    var all := ops + Puts(text);
    assert text == [] ==> all == ops;
    TextFollowsFrom(ops, text);
    RunFollows(all);
    LateRowsAreCounted(all);
    FollowsFromTheTop(Run(all), LogOf(all), NUM_COLS * (Row(LogOf(ops)) + 1));
  }

  /** A page that moves up keeps its other rows, and its last row holds character 0. */
  lemma ScrolledRows(cells: bytes, rows: nat, i: nat)
    requires 1 <= rows && 80 * rows <= |cells| && i < |cells|
    ensures |Scrolled(cells, rows)| == |cells|
    ensures Scrolled(cells, rows)[i]
      == if i < 80 * (rows - 1) then cells[i + 80] else if i < 80 * rows then 0 else cells[i]
  {
  }

  lemma PlainIsLogged(log: bytes, c: byte)
    requires c != NEWLINE && c != RETURN
    ensures Logged(log, c) == log + [c]
  {
  }

  lemma Append(a: bytes, b: bytes, c: bytes)
    ensures a + b + c == a + (b + c)
  {
  }

  lemma LogOfMore(ops: seq<Op>, text: bytes)
    requires text != []
    ensures var n := |text| - 1; LogOf(ops + Puts(text)) == Logged(LogOf(ops + Puts(text[..n])), text[n])
  {
    var all, rest, c := ops + Puts(text), text[..|text| - 1], text[|text| - 1];
    hide Logged;
    assert all[..|all| - 1] == ops + Puts(rest) && all[|all| - 1] == Putc(c);
    hide Puts;
  }

  lemma {:induction false} PlainTextIsLogged(ops: seq<Op>, text: bytes)
    requires NEWLINE !in text && RETURN !in text
    ensures LogOf(ops + Puts(text)) == LogOf(ops) + text
  {
    hide LogOf, Logged;
    if text == [] {
      assert ops + Puts(text) == ops;
    } else {
      var rest, c := text[..|text| - 1], text[|text| - 1];
      hide Puts;
      assert c in text && rest + [c] == text && forall x :: x in rest ==> x in text;
      LogOfMore(ops, text);
      PlainTextIsLogged(ops, rest);
      PlainIsLogged(LogOf(ops) + rest, c);
      Append(LogOf(ops), rest, [c]);
    }
  }

  /** A whole string is printed character by character: without line ends it goes behind the log as it is. */
  lemma {:induction false} StringIsPrinted(ops: seq<Op>, text: bytes)
    ensures PutAll(Run(ops), text) == Run(ops + Puts(text))
    ensures NEWLINE !in text && RETURN !in text ==> LogOf(ops + Puts(text)) == LogOf(ops) + text
  {
    hide Put, Geometry, LogOf;
    if NEWLINE !in text && RETURN !in text {
      PlainTextIsLogged(ops, text);
    }
    if text == [] {
      assert ops + Puts(text) == ops;
    } else {
      var all, rest, c := ops + Puts(text), text[..|text| - 1], text[|text| - 1];
      assert all[..|all| - 1] == ops + Puts(rest) && all[|all| - 1] == Putc(c);
      StringIsPrinted(ops, rest);
    }
  }

  /** clear() blanks the screen and the rows behind it, and nothing else of the scrollback. */
  lemma ClearBlanks(t: Terminal)
    requires Geometry(t)
    ensures var u := Cleared(t);
      && |u.screen| == 2000 && (forall i {:trigger u.screen[i]} :: 0 <= i < 2000 ==> u.screen[i] == 32)
      && |u.buffer| == |t.buffer|
      && (forall i {:trigger u.buffer[i]} :: 0 <= i < |t.buffer| ==>
            u.buffer[i] == if 80 * t.startLine <= i < 80 * t.startLine + 2000 then 32 else t.buffer[i])
      && u.screenX == 0 && u.screenY == 0 && u.startLine == t.startLine
      && u.bufferX == t.startLine && u.bufferY == 0
  {
  }

  /** clear() leaves the two views together exactly when the window starts at the first row. */
  lemma ClearAlignsAtTheTop(t: Terminal)
    requires Geometry(t)
    ensures Geometry(Cleared(t)) && Aligned(Cleared(t)) <==> t.startLine == 0
  {
    if t.startLine == 0 {
      var u := Cleared(t);
      assert forall i {:trigger u.screen[i]} :: 0 <= i < SCREEN_CELLS ==> u.screen[i] == u.buffer[i];
    }
  }

  // ---------- runs on which it fails ----------

  function Newlines(n: nat): (ops: seq<Op>)
    ensures |ops| == n && forall i :: 0 <= i < n ==> ops[i] == Putc(NEWLINE)
  {
    seq(n, i => Putc(NEWLINE))
  }

  lemma {:induction false} NewlinesLog(n: nat)
    ensures var log := LogOf(Newlines(n));
      |log| == NUM_COLS * n && forall i :: 0 <= i < |log| ==> log[i] == SPACE
  {
    if n > 0 {
      NewlinesLog(n - 1);
      assert Newlines(n)[..n - 1] == Newlines(n - 1);
    }
  }

  /** After 25 newlines the window has moved, and clear leaves the two views apart. */
  lemma ClearAfterAScreenful()
    ensures var t := Run(Newlines(25));
      t.startLine == 1 && !(Geometry(Cleared(t)) && Aligned(Cleared(t)))
  {
    assert Newlines(25) == Newlines(24) + [Putc(NEWLINE)];
    NewlinesLog(25);
    WindowOnScrollback(Newlines(25));
    ScreenShowsLatestOutput(Newlines(24), NEWLINE);
    ClearAlignsAtTheTop(Run(Newlines(25)));
  }

  /** With an x behind 249 newlines, scrolling up and back down hides the x. */
  lemma ScrollHidesTheLastRow()
    ensures var ops := Newlines(BUFFER_ROWS - 1) + [Putc(120)];
      ScreenFollows(Run(ops), LogOf(ops)) && !ScreenFollows(Run(ops + [ScrollUp, ScrollDown]), LogOf(ops))
  {
    var before := Newlines(BUFFER_ROWS - 1);
    var ops := before + [Putc(120)];
    assert ops[..|ops| - 1] == before;
    NewlinesLog(BUFFER_ROWS - 1);
    ScreenShowsLatestOutput(before, 120);
    LateScrollLosesARow(ops);
    var log, i := LogOf(ops), NUM_COLS * (BUFFER_ROWS - 2);
    assert LogCell(log, i) == SPACE && LogCell(log, i + NUM_COLS) == 120;
  }
}
