/**
 The console of lib.c as a value: the 25 visible rows, the scrollback rows behind
 them, the two cursors and the row where the visible window starts. Cells are laid
 out flat, 80 to a row, as in video memory; every writer uses attribute 7, so only
 the character of a cell is kept.
 */
module ConsoleSpec {
  import opened Bytes

  const NUM_COLS := 80
  const NUM_ROWS := 25
  const BUFFER_SIZE := 10
  const SCREEN_CELLS := NUM_ROWS * NUM_COLS
  const BUFFER_ROWS := NUM_ROWS * BUFFER_SIZE
  // scroll_init prepares one screenful more than is ever scrolled
  const BUFFER_CELLS := NUM_ROWS * (BUFFER_SIZE + 1) * NUM_COLS
  // the window start at which terminal_scroll stops counting
  const LAST_COUNTED_START := (BUFFER_SIZE - 1) * NUM_ROWS - 1

  datatype Terminal = Terminal(
    screen: bytes, buffer: bytes,
    screenX: int, screenY: int, bufferX: int, bufferY: int, startLine: int)

  datatype Op = Putc(c: byte) | ScrollUp | ScrollDown

  predicate BreaksLine(c: byte) {
    c == NEWLINE || c == RETURN
  }

  /** What boot leaves: cleared screen, cleared scrollback, both cursors home. */
  function Fresh(): Terminal {
    Terminal(Repeat(SPACE, SCREEN_CELLS), Repeat(SPACE, BUFFER_CELLS), 0, 0, 0, 0, 0)
  }

  // ---------- the steps ----------

  predicate Sized(t: Terminal) {
    |t.screen| == SCREEN_CELLS && |t.buffer| == BUFFER_CELLS
  }

  /** What every run of the steps below keeps; it also bounds every array index in the class. */
  predicate Geometry(t: Terminal) {
    && Sized(t)
    && 0 <= t.screenX < NUM_COLS && t.bufferX == t.screenX
    && 0 <= t.bufferY < BUFFER_ROWS
    && 0 <= t.startLine <= LAST_COUNTED_START
    && 0 <= t.screenY && t.startLine + t.screenY <= LAST_COUNTED_START + NUM_ROWS - 1
    && (t.startLine == 0 || NUM_ROWS - 1 <= t.screenY)
  }

  /** The 25 buffer rows from row `start` on. */
  function Window(t: Terminal, start: int): bytes
    requires Sized(t) && 0 <= start <= BUFFER_ROWS
  {
    t.buffer[NUM_COLS * start..NUM_COLS * start + SCREEN_CELLS]
  }

  function Up(t: Terminal): Terminal
    requires Geometry(t)
  {
    if t.startLine == 0 then t
    else t.(startLine := t.startLine - 1, screenY := t.screenY + 1, screen := Window(t, t.startLine - 1))
  }

  function Down(t: Terminal): Terminal
    requires Geometry(t)
  {
    if t.screenY < NUM_ROWS then t
    else t.(startLine := t.startLine + 1, screenY := t.screenY - 1, screen := Window(t, t.startLine + 1))
  }

  /** Where the catch-up loop of putc ends: the cursor row is back at the bottom of the screen. */
  function CaughtUp(t: Terminal): Terminal
    requires Geometry(t)
  {
    if t.screenY < NUM_ROWS then t
    else
      var start := t.startLine + t.screenY - (NUM_ROWS - 1);
      t.(startLine := start, screenY := NUM_ROWS - 1, screen := Window(t, start))
  }

  /** Drops the first row of `cells` and adds a row of blanks after row `rows`. */
  function Scrolled(cells: bytes, rows: nat): bytes
    requires 1 <= rows && NUM_COLS * rows <= |cells|
  {
    cells[NUM_COLS..NUM_COLS * rows] + Repeat(NUL, NUM_COLS) + cells[NUM_COLS * rows..]
  }

  /** One of the two places putc writes to: its cells and its cursor. */
  datatype Page = Page(cells: bytes, x: int, y: int)

  predicate OnPage(p: Page, rows: nat) {
    NUM_COLS * rows <= |p.cells| && 0 <= p.x < NUM_COLS && 0 <= p.y < rows
  }

  /** Does printing c leave the last row? */
  predicate LeavesPage(p: Page, rows: nat, c: byte) {
    (BreaksLine(c) || p.x == NUM_COLS - 1) && p.y == rows - 1
  }

  /** One character printed on a page of `rows` rows. */
  function PutOnPage(p: Page, rows: nat, c: byte): (q: Page)
    requires OnPage(p, rows)
    ensures OnPage(q, rows) && |q.cells| == |p.cells|
  {
    var cells := if BreaksLine(c) then p.cells else p.cells[NUM_COLS * p.y + p.x := c];
    var breaks := BreaksLine(c) || p.x == NUM_COLS - 1;
    if LeavesPage(p, rows, c) then Page(Scrolled(cells, rows), 0, p.y)
    else if breaks then Page(cells, 0, p.y + 1)
    else Page(cells, p.x + 1, p.y)
  }

  function ScreenPage(t: Terminal): Page {
    Page(t.screen, t.screenX, t.screenY)
  }

  function BufferPage(t: Terminal): Page {
    Page(t.buffer, t.bufferX, t.bufferY)
  }

  /** The screen half of putc, once caught up. */
  function PutOnScreen(t: Terminal, c: byte): Terminal
    requires Geometry(t) && t.screenY < NUM_ROWS
  {
    var p := PutOnPage(ScreenPage(t), NUM_ROWS, c);
    var counts := LeavesPage(ScreenPage(t), NUM_ROWS, c) && t.startLine < LAST_COUNTED_START;
    t.(screen := p.cells, screenX := p.x, screenY := p.y, startLine := t.startLine + if counts then 1 else 0)
  }

  /** The scrollback half of putc. */
  function PutInBuffer(t: Terminal, c: byte): Terminal
    requires OnPage(BufferPage(t), BUFFER_ROWS)
  {
    var p := PutOnPage(BufferPage(t), BUFFER_ROWS, c);
    t.(buffer := p.cells, bufferX := p.x, bufferY := p.y)
  }

  function Put(t: Terminal, c: byte): Terminal
    requires Geometry(t)
  {
    PutInBuffer(PutOnScreen(CaughtUp(t), c), c)
  }

  /** clear() as it is written: the scrollback column takes the row, and the row takes zero. */
  function Cleared(t: Terminal): Terminal
    requires Geometry(t)
  {
    var first := NUM_COLS * t.startLine;
    t.(screen := Repeat(SPACE, SCREEN_CELLS), screenX := 0, screenY := 0,
       buffer := t.buffer[..first] + Repeat(SPACE, SCREEN_CELLS) + t.buffer[first + SCREEN_CELLS..],
       bufferX := t.startLine, bufferY := 0)
  }

  function Apply(t: Terminal, op: Op): Terminal
    requires Geometry(t)
  {
    match op
    case Putc(c) => Put(t, c)
    case ScrollUp => Up(t)
    case ScrollDown => Down(t)
  }

  /** Keeping the geometry needs no condition at all: no run can drive the catch-up loop past the end. */
  lemma ApplyKeepsGeometry(t: Terminal, op: Op)
    requires Geometry(t)
    ensures Geometry(Apply(t, op))
  {
    if op.Putc? {
      var u := CaughtUp(t);
      assert LeavesPage(ScreenPage(u), NUM_ROWS, op.c) ==> u.screenY == NUM_ROWS - 1;
    }
  }

  /** scroll_down n times. */
  function Downs(t: Terminal, n: nat): (u: Terminal)
    requires Geometry(t)
    ensures Geometry(u)
  {
    if n == 0 then t else Down(Downs(t, n - 1))
  }

  /** scroll_up n times. */
  function Ups(t: Terminal, n: nat): (u: Terminal)
    requires Geometry(t)
    ensures Geometry(u)
  {
    if n == 0 then t else Up(Ups(t, n - 1))
  }

  /** From t to u the window has moved to `start`, and the cursor row the other way. */
  ghost predicate Moved(t: Terminal, u: Terminal, start: int)
    requires Sized(t)
  {
    && 0 <= start <= 225
    && u.startLine == start && u.screenY == t.screenY + (t.startLine - start) && u.screenX == t.screenX
    && u.buffer == t.buffer && u.bufferX == t.bufferX && u.bufferY == t.bufferY
    && u.screen == if start == t.startLine then t.screen else t.buffer[80 * start..80 * start + 2000]
  }

  /** n presses of scroll_up move the window up by n rows, or to the top, from any state. */
  lemma {:induction false} UpsMoveTheWindow(t: Terminal, n: nat)
    requires Geometry(t)
    ensures Moved(t, Ups(t, n), Max(0, t.startLine - n))
  {
    if n > 0 {
      UpsMoveTheWindow(t, n - 1);
    }
  }

  /** n presses of scroll_down move it down by n rows, or until the cursor is on the screen's last row. */
  lemma {:induction false} DownsMoveTheWindow(t: Terminal, n: nat)
    requires Geometry(t)
    ensures Moved(t, Downs(t, n), t.startLine + Min(n, Max(0, t.screenY - 24)))
  {
    if n > 0 {
      DownsMoveTheWindow(t, n - 1);
    }
  }

  /** Scrolling up and as far down again leaves the window on the scrollback, and changes nothing else. */
  lemma DownsUndoUps(t: Terminal, n: nat)
    requires Geometry(t) && 0 < n <= t.startLine
    ensures Downs(Ups(t, n), n) == t.(screen := t.buffer[80 * t.startLine..80 * t.startLine + 2000])
  {
    CursorBelowWindow(t);
    hide Geometry, Ups, Downs, Window;
    UpsMoveTheWindow(t, n);
    DownsMoveTheWindow(Ups(t, n), n);
  }

  lemma CursorBelowWindow(t: Terminal)
    requires Geometry(t)
    ensures 0 < t.startLine ==> t.startLine <= 224 && 24 <= t.screenY
  {
  }

  /** So the screen is as it was exactly where it was that window before. */
  lemma DownsRestoreTheScreen(t: Terminal, n: nat)
    requires Geometry(t) && 0 < n <= t.startLine && t.bufferY == t.startLine + t.screenY
    ensures Aligned(t) <==>
      forall i {:trigger t.screen[i]} :: 0 <= i < 2000 ==> Show(Downs(Ups(t, n), n).screen[i]) == Show(t.screen[i])
  {
    DownsUndoUps(t, n);
    hide Ups, Downs;
  }

  /** So every row of the scrollback above the screen can be brought to its top. */
  lemma EveryRowCanBeShown(t: Terminal, row: nat)
    requires Geometry(t) && row < t.startLine
    ensures Ups(t, t.startLine - row).screen[..80] == t.buffer[80 * row..80 * row + 80]
  {
    UpsMoveTheWindow(t, t.startLine - row);
    SliceSlice(t.buffer, 80 * row, 80 * row + 2000, 0, 80);
  }

  /**
   The catch-up loop of putc ends after as many turns as the cursor is rows below the screen, whatever the state,
   and conserves start_line + screen_y.
   */
  lemma {:induction false} CatchUpEnds(t: Terminal)
    requires Geometry(t)
    ensures CaughtUp(t) == Downs(t, Max(0, t.screenY - (NUM_ROWS - 1)))
    ensures CaughtUp(t).screenY < NUM_ROWS && CaughtUp(t).startLine + CaughtUp(t).screenY == t.startLine + t.screenY
  {
    if t.screenY >= NUM_ROWS {
      DownsMoveTheWindow(t, t.screenY - (NUM_ROWS - 1));
    }
  }

  /** A whole string printed. */
  function PutAll(t: Terminal, text: bytes): (u: Terminal)
    requires Geometry(t)
    ensures Geometry(u)
  {
    if text == [] then t
    else
      var u := PutAll(t, text[..|text| - 1]);
      ApplyKeepsGeometry(u, Putc(text[|text| - 1]));
      Put(u, text[|text| - 1])
  }

  function Run(ops: seq<Op>): (t: Terminal)
    ensures Geometry(t)
  {
    if ops == [] then Fresh()
    else
      var t := Run(ops[..|ops| - 1]);
      ApplyKeepsGeometry(t, ops[|ops| - 1]);
      Apply(t, ops[|ops| - 1])
  }

  // ---------- the ideal log ----------

  /** An unbounded 80-column sheet, laid out flat: a line break pads to the end of its row. */
  function Logged(log: bytes, c: byte): bytes {
    if BreaksLine(c) then log + Repeat(SPACE, NUM_COLS - |log| % NUM_COLS) else log + [c]
  }

  function LogOf(ops: seq<Op>): bytes {
    if ops == [] then []
    else
      var log := LogOf(ops[..|ops| - 1]);
      match ops[|ops| - 1]
      case Putc(c) => Logged(log, c)
      case _ => log
  }

  /** The row the log's cursor is in. */
  function Row(log: bytes): nat {
    |log| / NUM_COLS
  }

  /** How a cell looks: character 0 shows as a blank. */
  function Show(c: byte): byte {
    if c == NUL then SPACE else c
  }

  /** How the log's cell p looks; past the cursor the sheet is blank. */
  function LogCell(log: bytes, p: int): byte
    requires 0 <= p
  {
    if p < |log| then Show(log[p]) else SPACE
  }

  /** The page is the last `rows` rows of the log, with its cursor at the log's end. */
  ghost predicate PageFollows(p: Page, rows: nat, log: bytes)
    requires NUM_COLS * rows <= |p.cells| && 0 < rows
  {
    && p.x == |log| % NUM_COLS
    && p.y == Min(Row(log), rows - 1)
    && forall i {:trigger p.cells[i]} :: 0 <= i < NUM_COLS * rows ==>
         Show(p.cells[i]) == LogCell(log, NUM_COLS * (Row(log) - p.y) + i)
  }

  ghost predicate BufferFollows(t: Terminal, log: bytes)
    requires Sized(t)
  {
    PageFollows(BufferPage(t), BUFFER_ROWS, log)
  }

  ghost predicate ScreenFollows(t: Terminal, log: bytes)
    requires Sized(t)
  {
    PageFollows(ScreenPage(t), NUM_ROWS, log)
  }

  /** The screen is a window on the scrollback, and both cursors are the same place in it. */
  ghost predicate Aligned(t: Terminal)
    requires Geometry(t)
  {
    && t.bufferY == t.startLine + t.screenY
    && forall i {:trigger t.screen[i]} :: 0 <= i < SCREEN_CELLS ==>
         Show(t.screen[i]) == Show(t.buffer[NUM_COLS * t.startLine + i])
  }
}
