/** What two frames that fit the screen look like: every cell alternates between them. */
module FramesOnScreen {
  import opened Bytes
  import opened BlinkSpec
  import opened FramesSpec

  predicate AllBelow(list: seq<Blink>, lo: nat) {
    forall i {:trigger list[i]} :: 0 <= i < |list| ==> list[i].location < lo
  }

  /** The list that a run of adds leaves: the last one added is first. */
  function StartedBack(bs: seq<Blink>): (r: seq<Blink>)
    ensures |r| == |bs| && forall i {:trigger bs[i]} :: 0 <= i < |bs| ==> r[|bs| - 1 - i] == Started(bs[i])
  {
    if bs == [] then []
    else
      var rest := StartedBack(bs[1..]);
      assert forall i {:trigger bs[i]} :: 0 < i < |bs| ==> bs[i] == bs[1..][i - 1];
      rest + [Started(bs[0])]
  }

  lemma RisingTail(bs: seq<Blink>, lo: nat)
    requires bs != [] && Rising(bs, lo, CELLS) && AllSized(bs)
    ensures lo <= bs[0].location < CELLS && Sized(bs[0])
    ensures Rising(bs[1..], bs[0].location + 1, CELLS) && AllSized(bs[1..])
  {
    assert forall c :: c in bs[1..] ==> c in bs;
    assert forall i {:trigger bs[1..][i]} :: 0 <= i < |bs| - 1 ==> bs[1..][i] == bs[i + 1];
  }

  lemma AddKeepsDrawn(f: Fish, b: Blink)
    requires Ok(f) && Distinct(f.list) && Drawn(f) && AllBelow(f.list, b.location) && Sized(b) && b.location < CELLS
    ensures Ok(AddedTo(f, b)) && Distinct(AddedTo(f, b).list) && Drawn(AddedTo(f, b))
    ensures AllBelow(AddedTo(f, b).list, b.location + 1)
  {
    var g := AddedTo(f, b);
    assert g.list[0] == Started(b);
    assert forall i {:trigger g.list[i]} :: 0 < i < |g.list| ==> g.list[i] == f.list[i - 1];
  }

  lemma BelowMore(list: seq<Blink>, lo: nat, hi: nat)
    requires AllBelow(list, lo) && lo <= hi
    ensures AllBelow(list, hi)
  {
  }

  /** Requests at rising locations below 2000 all succeed, and leave a screen that shows every blink. */
  lemma {:induction false} RisingAddsSucceed(f: Fish, bs: seq<Blink>, lo: nat)
    requires Ok(f) && AllSized(bs) && Rising(bs, lo, CELLS) && Distinct(f.list) && Drawn(f)
    requires AllBelow(f.list, lo) && |f.list| <= lo
    ensures Distinct(AddAll(f, bs).list) && Drawn(AddAll(f, bs))
    ensures AddAll(f, bs).list == StartedBack(bs) + f.list
    decreases |bs|
  {
    hide Distinct, Drawn, AllSized, Rising, AllBelow, Ok, Sized;
    if bs == [] {
      assert StartedBack(bs) + f.list == f.list;
    } else {
      var b, rest := bs[0], bs[1..];
      RisingTail(bs, lo);
      BelowMore(f.list, lo, b.location);
      AddKeepsDrawn(f, b);
      RisingAddsSucceed(AddedTo(f, b), rest, b.location + 1);
      assert StartedBack(rest) + ([Started(b)] + f.list) == StartedBack(bs) + f.list;
    }
  }

  // ---------- cells that no blink owns ----------

  predicate Unowned(list: seq<Blink>, x: nat) {
    forall i {:trigger list[i]} :: 0 <= i < |list| ==> list[i].location != x
  }

  lemma {:induction false} WalkLeavesOthers(f: Fish, k: nat, x: nat)
    requires Ok(f) && k <= |f.list| && x < CELLS && Unowned(f.list, x)
    ensures TickedFrom(f, k).video[x] == f.video[x] && Unowned(TickedFrom(f, k).list, x)
    decreases |f.list| - k
  {
    if k < |f.list| {
      var b := Ticked(f.list[k]);
      var video := if Expires(f.list[k]) then f.video[b.location := Shown(b)] else f.video;
      WalkLeavesOthers(Fish(f.list[k := b], video), k + 1, x);
    }
  }

  lemma {:induction false} WalksLeaveOthers(f: Fish, t: nat, x: nat)
    requires Ok(f) && x < CELLS && Unowned(f.list, x)
    ensures TickedBy(f, t).video[x] == f.video[x] && Unowned(TickedBy(f, t).list, x)
  {
    if t > 0 {
      WalksLeaveOthers(f, t - 1, x);
      WalkLeavesOthers(TickedBy(f, t - 1), 0, x);
    }
  }

  lemma {:induction false} AddsLeaveOthers(f: Fish, bs: seq<Blink>, x: nat)
    requires Ok(f) && AllSized(bs) && x < CELLS && Unowned(f.list, x) && Unowned(bs, x)
    ensures AddAll(f, bs).video[x] == f.video[x] && Unowned(AddAll(f, bs).list, x)
    decreases |bs|
  {
    if bs != [] {
      var b, rest := bs[0], bs[1..];
      assert Sized(b) && forall c :: c in rest ==> c in bs;
      assert forall i {:trigger rest[i]} :: 0 <= i < |rest| ==> rest[i] == bs[i + 1];
      AddsLeaveOthers(if b.location >= CELLS || |f.list| == CELLS then f else AddedTo(f, b), rest, x);
    }
  }

  // ---------- requests and cells ----------

  predicate Blank(ra: seq<bytes>, rb: seq<bytes>, row: nat, col: nat) {
    CellAt(RowAt(ra, row), col) == SPACE && CellAt(RowAt(rb, row), col) == SPACE
  }

  lemma {:induction false} InRowBlinks(a: bytes, b: bytes, row: nat, from: nat, col: nat)
    requires from <= col && (CellAt(a, col) != SPACE || CellAt(b, col) != SPACE)
    ensures CellBlink(a, b, row, col) in RowBlinks(a, b, row, from)
    decreases col - from
  {
    if from < col {
      InRowBlinks(a, b, row, from + 1, col);
    }
  }

  /** A cell that is not blank in both frames is asked for. */
  lemma {:induction false} CellIsRequested(ra: seq<bytes>, rb: seq<bytes>, from: nat, row: nat, col: nat)
    requires from <= row && !Blank(ra, rb, row, col)
    ensures CellBlink(RowAt(ra, row), RowAt(rb, row), row, col) in FrameBlinks(ra, rb, from)
    decreases row - from
  {
    if from < row {
      CellIsRequested(ra, rb, from + 1, row, col);
    } else {
      InRowBlinks(RowAt(ra, row), RowAt(rb, row), row, 0, col);
    }
  }

  lemma CellAvoids(a: bytes, b: bytes, row: nat, col: nat, r: nat, c: nat)
    requires row < 25 && col < 40 && r < 25 && c < 40
    requires row == r && col == c ==> CellAt(a, c) == SPACE && CellAt(b, c) == SPACE
    ensures Unowned(CellRequest(a, b, row, col), r * 80 + c + OFFSET)
  {
    assert row * 80 + col + OFFSET < U16 && r * 80 + c + OFFSET < U16;
    if row * 80 + col == r * 80 + c {
      assert row == r && col == c;
    }
  }

  lemma UnownedAppend(xs: seq<Blink>, ys: seq<Blink>, x: nat)
    ensures Unowned([], x) && (Unowned(xs, x) && Unowned(ys, x) ==> Unowned(xs + ys, x))
  {
  }

  lemma {:induction false} RowAvoids(a: bytes, b: bytes, row: nat, from: nat, r: nat, c: nat)
    requires |a| <= 40 && |b| <= 40 && row < 25 && r < 25 && c < 40
    requires row == r && from <= c ==> CellAt(a, c) == SPACE && CellAt(b, c) == SPACE
    ensures Unowned(RowBlinks(a, b, row, from), r * 80 + c + OFFSET)
    decreases 40 - from
  {
    hide Unowned, CellRequest, CellAt;
    UnownedAppend([], [], r * 80 + c + OFFSET);
    if from < Max(|a|, |b|) {
      CellAvoids(a, b, row, from, r, c);
      UnownedAppend(CellRequest(a, b, row, from), RowBlinks(a, b, row, from + 1), r * 80 + c + OFFSET);
      RowAvoids(a, b, row, from + 1, r, c);
    }
  }

  /** No request is at a cell that is blank in both frames. */
  lemma {:induction false} BlankIsNotRequested(ra: seq<bytes>, rb: seq<bytes>, from: nat, row: nat, col: nat)
    requires Fits(ra) && Fits(rb) && row < 25 && col < 40 && Blank(ra, rb, row, col)
    ensures Unowned(FrameBlinks(ra, rb, from), row * 80 + col + OFFSET)
    decreases Max(|ra|, |rb|) - from
  {
    hide Unowned, RowBlinks;
    UnownedAppend(
      RowBlinks(RowAt(ra, from), RowAt(rb, from), from, 0), FrameBlinks(ra, rb, from + 1), row * 80 + col + OFFSET);
    if from >= 25 {
      NothingBelow(ra, rb, from);
    } else if from < Max(|ra|, |rb|) {
      RowAvoids(RowAt(ra, from), RowAt(rb, from), from, 0, row, col);
      BlankIsNotRequested(ra, rb, from + 1, row, col);
    }
  }

  lemma {:induction false} DrawnAfter(f: Fish, t: nat)
    requires Ok(f) && Distinct(f.list) && Drawn(f)
    ensures Drawn(TickedBy(f, t)) && Distinct(TickedBy(f, t).list)
  {
    if t > 0 {
      DrawnAfter(f, t - 1);
      WalkKeepsDrawn(TickedBy(f, t - 1), 0);
    }
  }

  lemma OwnedCellAfter(f: Fish, i: nat, b: Blink, t: nat)
    requires Ok(f) && Distinct(f.list) && Drawn(f) && i < |f.list| && f.list[i] == Started(b)
    requires Sized(b) && b.onLength == PHASE && b.offLength == PHASE
    ensures b.location < CELLS
    ensures TickedBy(f, t).video[b.location] == if t % (2 * PHASE) < PHASE then b.onChar else b.offChar
  {
    DrawnAfter(f, t);
    WalksTickEach(f, t, i);
    TicksInClosedForm(b, t);
    assert TickedBy(f, t).list[i] == AtPhase(b, t % (2 * PHASE));
  }

  /** Every add of two fitting frames succeeds. */
  lemma FittingFramesAreAdded(video: bytes, ra: seq<bytes>, rb: seq<bytes>)
    requires |video| == CELLS && Fits(ra) && Fits(rb)
    ensures AllSized(FrameBlinks(ra, rb, 0))
    ensures var g := AddAll(Fish([], video), FrameBlinks(ra, rb, 0));
      Distinct(g.list) && Drawn(g) && g.list == StartedBack(FrameBlinks(ra, rb, 0))
  {
    hide AddAll, FrameBlinks, Rising, Fits, StartedBack, AllSized;
    FrameSized(ra, rb, 0);
    FrameRises(ra, rb, 0);
    RisingAddsSucceed(Fish([], video), FrameBlinks(ra, rb, 0), OFFSET);
  }

  lemma RequestedCellAfter(g: Fish, bs: seq<Blink>, b: Blink, t: nat)
    requires Ok(g) && Distinct(g.list) && Drawn(g) && g.list == StartedBack(bs) && b in bs && AllSized(bs)
    requires b.onLength == PHASE && b.offLength == PHASE
    ensures b.location < CELLS
    ensures TickedBy(g, t).video[b.location] == if t % (2 * PHASE) < PHASE then b.onChar else b.offChar
  {
    hide TickedBy, Distinct, Drawn, Ok, Sized, StartedBack;
    var i :| 0 <= i < |bs| && bs[i] == b;
    assert g.list[|bs| - 1 - i] == Started(b);
    OwnedCellAfter(g, |bs| - 1 - i, b, t);
  }

  /** None of their cells is at location 0. */
  lemma FittingFramesAvoidZero(ra: seq<bytes>, rb: seq<bytes>)
    requires Fits(ra) && Fits(rb)
    ensures NoneAtZero(FrameBlinks(ra, rb, 0))
  {
    hide FrameBlinks, Fits;
    FrameRises(ra, rb, 0);
  }

  /**
   Two frames of at most 25 rows of 40 columns, added to an empty list: after any number of ticks each cell of the
   right half shows the first frame's character for 15 ticks and the second frame's for the next 15, and so on;
   cells blank in both frames are left as they were.
   */
  lemma {:induction false} FramesAlternate(video: bytes, ra: seq<bytes>, rb: seq<bytes>, t: nat, row: nat, col: nat)
    requires |video| == CELLS && Fits(ra) && Fits(rb) && row < 25 && col < 40
    ensures AllSized(FrameBlinks(ra, rb, 0))
    ensures var on, off := CellAt(RowAt(ra, row), col), CellAt(RowAt(rb, row), col);
      TickedBy(AddAll(Fish([], video), FrameBlinks(ra, rb, 0)), t).video[row * 80 + col + OFFSET]
      == if on == SPACE && off == SPACE then video[row * 80 + col + OFFSET] else if t % (2 * PHASE) < PHASE then on else off
  {
    hide AddAll, TickedBy, FrameBlinks, Rising, Fits, Distinct, Drawn, Sized, AllSized, RowAt, CellAt;
    var bs, f := FrameBlinks(ra, rb, 0), Fish([], video);
    FittingFramesAreAdded(video, ra, rb);
    var g := AddAll(f, bs);
    if Blank(ra, rb, row, col) {
      BlankIsNotRequested(ra, rb, 0, row, col);
      AddsLeaveOthers(f, bs, row * 80 + col + OFFSET);
      WalksLeaveOthers(g, t, row * 80 + col + OFFSET);
    } else {
      CellIsRequested(ra, rb, 0, row, col);
      RequestedCellAfter(g, bs, CellBlink(RowAt(ra, row), RowAt(rb, row), row, col), t);
    }
  }
}
