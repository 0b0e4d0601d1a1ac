/** The start of fish.c's main: the two frames go up, and every clock tick runs the tasklet. */
module FishProgram {
  import opened Bytes
  import opened BlinkSpec
  import opened BlinkList
  import opened FramesSpec
  import opened FramesOnScreen
  import Frames

  /** Cell (row, col) of the right half of the screen. */
  function Cell(video: bytes, row: nat, col: nat): byte
    requires |video| == CELLS && row < 25 && col < 40
  {
    video[row * 80 + col + OFFSET]
  }

  /** What that cell shows t ticks after it showed `was` and the frames went up. */
  function Showing(ra: seq<bytes>, rb: seq<bytes>, row: nat, col: nat, t: nat, was: byte): byte {
    if Blank(ra, rb, row, col) then was
    else if t % (2 * PHASE) < PHASE then CellAt(RowAt(ra, row), col)
    else CellAt(RowAt(rb, row), col)
  }

  predicate Alternates(video: bytes, was: bytes, ra: seq<bytes>, rb: seq<bytes>, t: nat) {
    && |video| == CELLS && |was| == CELLS
    && forall row: nat, col: nat {:trigger Cell(video, row, col)} :: row < 25 && col < 40 ==>
         Cell(video, row, col) == Showing(ra, rb, row, col, t, Cell(was, row, col))
  }

  lemma {:induction false} ScreenAlternates(was: bytes, ra: seq<bytes>, rb: seq<bytes>, t: nat)
    requires |was| == CELLS && Fits(ra) && Fits(rb) && AllSized(FrameBlinks(ra, rb, 0))
    ensures Alternates(TickedBy(AddAll(Fish([], was), FrameBlinks(ra, rb, 0)), t).video, was, ra, rb, t)
  {
    hide AddAll, TickedBy, FrameBlinks, Fits, AllSized, Sized, RowAt, CellAt;
    var video := TickedBy(AddAll(Fish([], was), FrameBlinks(ra, rb, 0)), t).video;
    forall row: nat, col: nat {:trigger Cell(video, row, col)} | row < 25 && col < 40
      ensures Cell(video, row, col) == Showing(ra, rb, row, col, t, Cell(was, row, col))
    {
      FramesAlternate(was, ra, rb, t, row, col);
    }
  }

  /**
   Two files of at most 25 lines of 40 characters, with or without a final newline: after t ticks every cell of the
   right half shows the first file's character in the first half of every 30 ticks and the second file's in the
   other, and cells blank in both are as they were.
   */
  method ShowFrames(tank: Fishtank, f0: bytes, f1: bytes, t: nat)
    requires tank.Valid() && tank.View().list == [] && Fits(Rows(f0)) && Fits(Rows(f1))
    modifies tank, tank.slots, tank.video
    ensures tank.Valid() && Alternates(tank.video[..], old(tank.video[..]), Rows(f0), Rows(f1), t)
  {
    ghost var ra, rb, f := Rows(f0), Rows(f1), tank.View();
    assert f == Fish([], tank.video[..]);
    FittingFramesAvoidZero(ra, rb);
    hide AddAll, TickedBy, FrameBlinks, Fits, AllSized, NoneAtZero, Sized, Fishtank.Chained, Alternates, Rows, Ok;
    Frames.AddFrames(tank, f0, f1);
    ghost var g := tank.View();
    RunTicks(tank, t);
    ScreenAlternates(f.video, ra, rb, t);
  }

  /** The tasklet, once for every tick of the clock. */
  method RunTicks(tank: Fishtank, t: nat)
    requires tank.Valid() && Ok(tank.View())
    modifies tank.slots, tank.video
    ensures tank.Valid() && tank.View() == TickedBy(old(tank.View()), t)
  {
    hide TickedBy, Ok, Fishtank.Chained;
    ghost var g := tank.View();
    var i := 0;
    NoTicks(g);
    while i < t
      invariant 0 <= i <= t && tank.Valid() && Ok(g) && tank.View() == TickedBy(g, i)
    {
      OneTick(g, i);
      tank.Tasklet();
      i := i + 1;
    }
  }

  lemma NoTicks(g: Fish)
    requires Ok(g)
    ensures TickedBy(g, 0) == g
  {
  }

  lemma OneTick(g: Fish, i: nat)
    requires Ok(g)
    ensures TickedBy(g, i + 1) == TickedFrom(TickedBy(g, i), 0)
  {
  }
}
