/** add_frames of fish.c: two frame files are read byte by byte and side by side. */
module Frames {
  import opened Bytes
  import opened BlinkSpec
  import opened BlinkList
  import opened FramesSpec

  const DIGIT_ZERO: byte := 48

  /** Where add_frames is in one file: the read position, its character variable and its end-of-file flag. */
  datatype Stream = Stream(pos: nat, c: byte, eof: bool)

  /** Before row `row`: what is left to read is what is left of the rows. */
  predicate AtRow(t: bytes, s: Stream, row: nat) {
    if s.eof then s.c == NEWLINE && |Rows(t)| <= row
    else s.c != NEWLINE && s.pos <= |t| && row < |Rows(t)| && Rows(t[s.pos..]) == Rows(t)[row..]
  }

  /** Inside row `row`, with the columns before `col` taken. */
  predicate InRow(t: bytes, s: Stream, row: nat, col: nat) {
    var rows := Rows(t);
    if s.c == NEWLINE then
      && |RowAt(rows, row)| <= col
      && (if s.eof then |rows| <= row + 1
          else s.pos <= |t| && row + 1 < |rows| && Rows(t[s.pos..]) == rows[row + 1..])
    else
      && !s.eof && s.pos <= |t| && row < |rows| && col <= |rows[row]|
      && Rows(t[s.pos..]) == [rows[row][col..]] + rows[row + 1..]
  }

  /** The read at the top of the column loop. */
  function Fed(t: bytes, s: Stream): Stream {
    if s.c == NEWLINE then s
    else if s.pos < |t| then Stream(s.pos + 1, t[s.pos], s.eof)
    else Stream(s.pos, NEWLINE, true)
  }

  lemma RowBegins(t: bytes, s: Stream, row: nat)
    requires AtRow(t, s, row)
    ensures InRow(t, s, row, 0)
  {
    if !s.eof {
      assert Rows(t)[row][0..] == Rows(t)[row];
    }
  }

  /** A read yields the cell of the column, or a newline exactly past the end of the row. */
  lemma FedGivesTheCell(t: bytes, s: Stream, row: nat, col: nat)
    requires InRow(t, s, row, col)
    ensures var line := RowAt(Rows(t), row);
      && InRow(t, Fed(t, s), row, col + 1)
      && (Fed(t, s).c == NEWLINE <==> |line| <= col)
      && (Fed(t, s).c != NEWLINE ==> Fed(t, s).c == line[col])
  {
    if s.c != NEWLINE {
      var rest, rows := t[s.pos..], Rows(t);
      var line := rows[row];
      assert Rows(rest)[0] == line[col..] && Rows(rest)[1..] == rows[row + 1..];
      if s.pos < |t| {
        assert rest[0] == t[s.pos] && rest[1..] == t[s.pos + 1..];
        var left := Rows(rest[1..]);
        if t[s.pos] == NEWLINE {
          assert left == Rows(rest)[1..];
        } else {
          assert line[col..][1..] == line[col + 1..];
          assert left == [left[0]] + left[1..];
        }
      }
    }
  }

  /** After the column loop the character variable is reset, unless the file has ended. */
  lemma RowEnds(t: bytes, s: Stream, row: nat, col: nat)
    requires InRow(t, s, row, col) && s.c == NEWLINE
    ensures AtRow(t, Reset(s), row + 1)
  {
  }

  method ReadByte(t: bytes, pos: nat, was: byte) returns (n: nat, c: byte, next: nat)
    ensures if pos < |t| then n == 1 && c == t[pos] && next == pos + 1 else n == 0 && c == was && next == pos
  {
    if pos < |t| {
      return 1, t[pos], pos + 1;
    }
    return 0, was, pos;
  }

  /** The read of one file at the top of the column loop; both files have the same code. */
  method Feed(t: bytes, s: Stream) returns (r: Stream)
    ensures r == Fed(t, s)
  {
    var pos, c, eof := s.pos, s.c, s.eof;
    if c != NEWLINE {
      var n;
      n, c, pos := ReadByte(t, pos, c);
      if n == 0 {
        c, eof := NEWLINE, true;
      }
    }
    r := Stream(pos, c, eof);
  }

  /** The requests from a cell on: the rest of its row, then the rows below. */
  function Remaining(ra: seq<bytes>, rb: seq<bytes>, row: nat, col: nat): seq<Blink> {
    RowBlinks(RowAt(ra, row), RowAt(rb, row), row, col) + FrameBlinks(ra, rb, row + 1)
  }

  predicate Storable(requests: seq<Blink>) {
    AllSized(requests) && NoneAtZero(requests)
  }

  lemma RemainingStep(ra: seq<bytes>, rb: seq<bytes>, row: nat, col: nat)
    requires col < Max(|RowAt(ra, row)|, |RowAt(rb, row)|)
    ensures var a, b := RowAt(ra, row), RowAt(rb, row);
      Remaining(ra, rb, row, col) ==
        (if CellAt(a, col) != SPACE || CellAt(b, col) != SPACE
         then [CellBlink(a, b, row, col)] + Remaining(ra, rb, row, col + 1)
         else Remaining(ra, rb, row, col + 1))
  {
    var a, b := RowAt(ra, row), RowAt(rb, row);
    assert [CellBlink(a, b, row, col)] + RowBlinks(a, b, row, col + 1) + FrameBlinks(ra, rb, row + 1)
        == [CellBlink(a, b, row, col)] + Remaining(ra, rb, row, col + 1);
    assert [] + RowBlinks(a, b, row, col + 1) == RowBlinks(a, b, row, col + 1);
  }

  lemma RowIsDone(ra: seq<bytes>, rb: seq<bytes>, row: nat, col: nat)
    requires Max(|RowAt(ra, row)|, |RowAt(rb, row)|) <= col
    ensures Remaining(ra, rb, row, col) == FrameBlinks(ra, rb, row + 1)
  {
  }

  lemma StartOfFile(t: bytes)
    ensures AtRow(t, Stream(0, DIGIT_ZERO, false), 0)
  {
    assert t[0..] == t && Rows(t)[0..] == Rows(t);
  }

  /** While either file has not ended there is a row to do. */
  lemma RowIsThere(t: bytes, u: bytes, s: Stream, r: Stream, row: nat)
    requires AtRow(t, s, row) && AtRow(u, r, row) && (!s.eof || !r.eof)
    ensures row < Max(|Rows(t)|, |Rows(u)|)
    ensures FrameBlinks(Rows(t), Rows(u), row) == Remaining(Rows(t), Rows(u), row, 0)
  {
  }

  lemma BothEnded(t: bytes, u: bytes, s: Stream, r: Stream, row: nat)
    requires AtRow(t, s, row) && AtRow(u, r, row) && s.eof && r.eof
    ensures FrameBlinks(Rows(t), Rows(u), row) == []
  {
  }

  // ---------- the adds ----------

  /** How add_frames found the tank, what it is to ask for, and what a proper list is to become. */
  datatype Job = Job(issued: seq<Blink>, tank: Tank, all: seq<Blink>, goal: Fish)

  /** The adds asked for so far and those to come are all of the job's, and so is their effect. */
  ghost predicate Progress(job: Job, issued: seq<Blink>, t: Tank, rest: seq<Blink>) {
    && BlinkList.Sound(job.tank) && BlinkList.Sound(t) && AllSized(rest)
    && issued + rest == job.issued + job.all && InsertAll(t, rest) == InsertAll(job.tank, job.all)
  }

  lemma ProgressStep(job: Job, issued: seq<Blink>, t: Tank, b: Blink, rest: seq<Blink>)
    requires Progress(job, issued, t, [b] + rest)
    ensures Sized(b) && BlinkList.Sound(t) && Progress(job, issued + [b], Inserted(t, b), rest)
  {
    assert b in [b] + rest && forall c :: c in rest ==> c in [b] + rest;
    assert ([b] + rest)[0] == b && ([b] + rest)[1..] == rest;
    assert issued + [b] + rest == issued + ([b] + rest);
  }

  lemma ProgressEnds(job: Job, issued: seq<Blink>, t: Tank)
    requires Progress(job, issued, t, [])
    ensures BlinkList.Sound(job.tank) && issued == job.issued + job.all && t == InsertAll(job.tank, job.all)
  {
    assert issued + [] == issued;
  }

  lemma FirstRequest(f: Fish, b: Blink, rest: seq<Blink>)
    requires Ok(f) && Storable([b] + rest)
    ensures Sized(b) && b.location != 0 && Storable(rest)
    ensures AddAll(f, [b] + rest) == AddAll(if b.location >= CELLS || |f.list| == CELLS then f else AddedTo(f, b), rest)
  {
    assert b in [b] + rest && forall c :: c in rest ==> c in [b] + rest;
    assert ([b] + rest)[0] == b && ([b] + rest)[1..] == rest;
  }

  lemma NothingToAdd(f: Fish)
    requires Ok(f)
    ensures AddAll(f, []) == f
  {
  }

  /** The tank holds a proper list, which the requests to come make `goal`. */
  ghost predicate Listing(tank: Fishtank, rest: seq<Blink>, goal: Fish)
    reads tank, tank.slots, tank.video
  {
    tank.Valid() && Storable(rest) && AddAll(tank.View(), rest) == goal
  }

  /** mp1_ioctl with RTC_ADD; what it returns is not looked at. */
  method Request(tank: Fishtank, b: Blink, ghost rest: seq<Blink>, ghost job: Job)
    requires Progress(job, tank.issued, tank.State(), [b] + rest)
    modifies tank, tank.slots, tank.video
    ensures Progress(job, tank.issued, tank.State(), rest)
    ensures old(Listing(tank, [b] + rest, job.goal)) ==> Listing(tank, rest, job.goal)
  {
    ghost var proper := Listing(tank, [b] + rest, job.goal);
    if proper {
      FirstRequest(tank.View(), b, rest);
    }
    ProgressStep(job, tank.issued, tank.State(), b, rest);
    hide Fishtank.View, AddAll, Fishtank.Chained, Storable, Progress, Inserted;
    var _ := tank.Add(b);
  }

  /** The characters of a cell, as the two reads leave them. */
  predicate CellRead(ra: seq<bytes>, rb: seq<bytes>, row: nat, col: nat, c0: byte, c1: byte) {
    var a, b := RowAt(ra, row), RowAt(rb, row);
    && (c0 == NEWLINE <==> |a| <= col) && (c0 != NEWLINE ==> c0 == a[col])
    && (c1 == NEWLINE <==> |b| <= col) && (c1 != NEWLINE ==> c1 == b[col])
  }

  /** The body of the column loop after the reads. */
  method AddCell(
      tank: Fishtank, row: nat, col: nat, c0: byte, c1: byte, ghost ra: seq<bytes>, ghost rb: seq<bytes>, ghost job: Job)
    requires CellRead(ra, rb, row, col, c0, c1) && (c0 != NEWLINE || c1 != NEWLINE)
    requires Progress(job, tank.issued, tank.State(), Remaining(ra, rb, row, col))
    modifies tank, tank.slots, tank.video
    ensures Progress(job, tank.issued, tank.State(), Remaining(ra, rb, row, col + 1))
    ensures old(Listing(tank, Remaining(ra, rb, row, col), job.goal)) ==>
      Listing(tank, Remaining(ra, rb, row, col + 1), job.goal)
  {
    RemainingStep(ra, rb, row, col);
    hide Fishtank.State, Remaining, Progress, Listing;
    if (c0 != SPACE && c0 != NEWLINE) || (c1 != SPACE && c1 != NEWLINE) {
      var on, off := if c0 == NEWLINE then SPACE else c0, if c1 == NEWLINE then SPACE else c1;
      var request := Blink((row * 80 + col + OFFSET) % U16, on, off, PHASE, PHASE, 0, 0);
      assert request == CellBlink(RowAt(ra, row), RowAt(rb, row), row, col);
      Request(tank, request, Remaining(ra, rb, row, col + 1), job);
    }
  }

  /** The column loop: one row of both files. */
  method AddRow(tank: Fishtank, f0: bytes, f1: bytes, was0: Stream, was1: Stream, row: nat, ghost job: Job)
    returns (s0: Stream, s1: Stream)
    requires InRow(f0, was0, row, 0) && InRow(f1, was1, row, 0)
    requires Progress(job, tank.issued, tank.State(), Remaining(Rows(f0), Rows(f1), row, 0))
    modifies tank, tank.slots, tank.video
    ensures s0.c == NEWLINE && s1.c == NEWLINE
    ensures exists col :: InRow(f0, s0, row, col) && InRow(f1, s1, row, col)
    ensures Progress(job, tank.issued, tank.State(), FrameBlinks(Rows(f0), Rows(f1), row + 1))
    ensures old(Listing(tank, Remaining(Rows(f0), Rows(f1), row, 0), job.goal)) ==>
      Listing(tank, FrameBlinks(Rows(f0), Rows(f1), row + 1), job.goal)
  {
    hide Fishtank.State, Fed, Remaining, InRow, Rows, FrameBlinks, Progress, Listing;
    ghost var ra, rb := Rows(f0), Rows(f1);
    ghost var proper := Listing(tank, Remaining(ra, rb, row, 0), job.goal);
    s0, s1 := was0, was1;
    var col := 0;
    while true
      invariant col <= Max(|RowAt(ra, row)|, |RowAt(rb, row)|)
      invariant InRow(f0, s0, row, col) && InRow(f1, s1, row, col)
      invariant Progress(job, tank.issued, tank.State(), Remaining(ra, rb, row, col))
      invariant proper ==> Listing(tank, Remaining(ra, rb, row, col), job.goal)
      decreases Max(|RowAt(ra, row)|, |RowAt(rb, row)|) - col
    {
      FedGivesTheCell(f0, s0, row, col);
      FedGivesTheCell(f1, s1, row, col);
      s0 := Feed(f0, s0);
      s1 := Feed(f1, s1);
      if s0.c == NEWLINE && s1.c == NEWLINE {
        RowIsDone(ra, rb, row, col);
        return;
      }
      AddCell(tank, row, col, s0.c, s1.c, ra, rb, job);
      col := col + 1;
    }
  }

  /** The end of a row: the character variable is reset, unless the file has ended. */
  function Reset(s: Stream): Stream {
    if s.eof then s.(c := NEWLINE) else s.(c := DIGIT_ZERO)
  }

  /**
   For every two files: exactly one add is issued for each cell in which either frame is not blank, in row-major
   order, and for no other, whichever file ends first and whether or not an add succeeds; and that is all that
   happens to the memory. A proper list stays one when no cell is at a location that is stored as 0.
   */
  method AddFrames(tank: Fishtank, f0: bytes, f1: bytes)
    requires BlinkList.Sound(tank.State())
    modifies tank, tank.slots, tank.video
    ensures tank.issued == old(tank.issued) + FrameBlinks(Rows(f0), Rows(f1), 0)
    ensures tank.State() == InsertAll(old(tank.State()), FrameBlinks(Rows(f0), Rows(f1), 0))
    ensures AllSized(FrameBlinks(Rows(f0), Rows(f1), 0))
    ensures old(tank.Valid()) && NoneAtZero(FrameBlinks(Rows(f0), Rows(f1), 0)) ==>
      tank.Valid() && tank.View() == AddAll(old(tank.View()), FrameBlinks(Rows(f0), Rows(f1), 0))
  {
    hide Fishtank.View, Fishtank.Valid, Fishtank.Chained, Fishtank.State, Remaining, InRow, AtRow, Rows,
      FrameBlinks, AddAll, InsertAll, Progress, Listing, AllSized, NoneAtZero, BlinkList.Sound, RowBlinks, Reset, Ok;
    ghost var ra, rb := Rows(f0), Rows(f1);
    FrameSized(ra, rb, 0);
    ghost var job := StartJob(tank, FrameBlinks(ra, rb, 0));
    ghost var proper := tank.Valid() && NoneAtZero(job.all);
    var row := 0;
    var s0, s1 := Stream(0, DIGIT_ZERO, false), Stream(0, DIGIT_ZERO, false);
    StartOfFile(f0);
    StartOfFile(f1);
    while !s0.eof || !s1.eof
      invariant AtRow(f0, s0, row) && AtRow(f1, s1, row)
      invariant Progress(job, tank.issued, tank.State(), FrameBlinks(ra, rb, row))
      invariant proper ==> Listing(tank, FrameBlinks(ra, rb, row), job.goal)
      decreases Max(|ra|, |rb|) - row
    {
      RowIsThere(f0, f1, s0, s1, row);
      RowBegins(f0, s0, row);
      RowBegins(f1, s1, row);
      s0, s1 := AddRow(tank, f0, f1, s0, s1, row, job);
      ghost var col :| InRow(f0, s0, row, col) && InRow(f1, s1, row, col);
      RowEnds(f0, s0, row, col);
      RowEnds(f1, s1, row, col);
      s0, s1 := Reset(s0), Reset(s1);
      row := row + 1;
    }
    BothEnded(f0, f1, s0, s1, row);
    ProgressEnds(job, tank.issued, tank.State());
    if proper {
      ListingEnds(tank, job.goal);
    }
  }

  lemma StartJob(tank: Fishtank, all: seq<Blink>) returns (job: Job)
    requires BlinkList.Sound(tank.State()) && AllSized(all)
    ensures job.issued == tank.issued && job.tank == tank.State() && job.all == all
    ensures Progress(job, tank.issued, tank.State(), all)
    ensures tank.Valid() && NoneAtZero(all) ==> Listing(tank, all, job.goal) && job.goal == AddAll(tank.View(), all)
  {
    var proper := tank.Valid() && NoneAtZero(all);
    job := Job(tank.issued, tank.State(), all, if proper then AddAll(tank.View(), all) else Fish([], []));
  }

  lemma ListingEnds(tank: Fishtank, goal: Fish)
    requires Listing(tank, [], goal)
    ensures tank.Valid() && tank.View() == goal
  {
    NothingToAdd(tank.View());
  }
}
