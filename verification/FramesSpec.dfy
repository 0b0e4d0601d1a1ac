/** Which blinks add_frames of fish.c asks for, row by row and column by column of two newline-split frames. */
module FramesSpec {
  import opened Bytes
  import opened BlinkSpec

  const OFFSET := 40
  const PHASE := 15

  /** The rows of a frame: what its newlines separate. There is always one more row than newlines. */
  function Rows(t: bytes): (rows: seq<bytes>)
    ensures rows != []
  {
    if t == [] then [[]]
    else if t[0] == NEWLINE then [[]] + Rows(t[1..])
    else
      var rest := Rows(t[1..]);
      [[t[0]] + rest[0]] + rest[1..]
  }

  /** Row `row` of a frame; frames are padded with empty rows, and rows with blanks. */
  function RowAt(rows: seq<bytes>, row: nat): bytes {
    if row < |rows| then rows[row] else []
  }

  function CellAt(line: bytes, col: nat): byte {
    if col < |line| then line[col] else SPACE
  }

  /** The blink for a cell. Its location is stored in 16 bits. */
  function CellBlink(a: bytes, b: bytes, row: nat, col: nat): Blink {
    Blink((row * 80 + col + OFFSET) % U16, CellAt(a, col), CellAt(b, col), PHASE, PHASE, 0, 0)
  }

  /** What a cell asks for: its blink, unless it is blank in both frames. */
  function CellRequest(a: bytes, b: bytes, row: nat, col: nat): seq<Blink> {
    if CellAt(a, col) != SPACE || CellAt(b, col) != SPACE then [CellBlink(a, b, row, col)] else []
  }

  /** The blinks of one row from column `col` on: one for each cell in which either frame is not blank. */
  function RowBlinks(a: bytes, b: bytes, row: nat, col: nat): seq<Blink>
    decreases Max(|a|, |b|) - col
  {
    if col >= Max(|a|, |b|) then []
    else CellRequest(a, b, row, col) + RowBlinks(a, b, row, col + 1)
  }

  function FrameBlinks(ra: seq<bytes>, rb: seq<bytes>, row: nat): seq<Blink>
    decreases Max(|ra|, |rb|) - row
  {
    if row >= Max(|ra|, |rb|) then []
    else RowBlinks(RowAt(ra, row), RowAt(rb, row), row, 0) + FrameBlinks(ra, rb, row + 1)
  }

  predicate AllSized(requests: seq<Blink>) {
    forall b :: b in requests ==> Sized(b)
  }

  predicate NoneAtZero(requests: seq<Blink>) {
    forall b :: b in requests ==> b.location != 0
  }

  lemma FrameSized(ra: seq<bytes>, rb: seq<bytes>, row: nat)
    ensures AllSized(FrameBlinks(ra, rb, row))
    decreases Max(|ra|, |rb|) - row
  {
    if row < Max(|ra|, |rb|) {
      RowSized(RowAt(ra, row), RowAt(rb, row), row, 0);
      FrameSized(ra, rb, row + 1);
    }
  }

  lemma RowSized(a: bytes, b: bytes, row: nat, col: nat)
    ensures AllSized(RowBlinks(a, b, row, col))
    decreases Max(|a|, |b|) - col
  {
    if col < Max(|a|, |b|) {
      RowSized(a, b, row, col + 1);
    }
  }

  /** A whole list of add requests in order; one that fails is passed over. */
  function AddAll(f: Fish, requests: seq<Blink>): (g: Fish)
    requires Ok(f) && AllSized(requests)
    ensures Ok(g)
    decreases |requests|
  {
    if requests == [] then f
    else
      var b := requests[0];
      assert Sized(b) && forall c :: c in requests[1..] ==> c in requests;
      AddAll(if b.location >= CELLS || |f.list| == CELLS then f else AddedTo(f, b), requests[1..])
  }

  /** Every cell's location fits the 16-bit field. */
  predicate Locatable(ra: seq<bytes>, rb: seq<bytes>) {
    forall row {:trigger RowAt(ra, row)} {:trigger RowAt(rb, row)} :: 0 <= row < Max(|ra|, |rb|) ==>
      row * 80 + Max(|RowAt(ra, row)|, |RowAt(rb, row)|) + OFFSET <= U16
  }

  lemma {:induction false} RowAvoidsZero(a: bytes, b: bytes, row: nat, col: nat)
    requires row * 80 + Max(|a|, |b|) + OFFSET <= U16
    ensures NoneAtZero(RowBlinks(a, b, row, col))
    decreases Max(|a|, |b|) - col
  {
    if col < Max(|a|, |b|) {
      RowAvoidsZero(a, b, row, col + 1);
    }
  }

  /** Frames whose cells all have 16-bit locations ask for no blink at location 0. */
  lemma {:induction false} LocatableAvoidsZero(ra: seq<bytes>, rb: seq<bytes>, row: nat)
    requires Locatable(ra, rb)
    ensures NoneAtZero(FrameBlinks(ra, rb, row))
    decreases Max(|ra|, |rb|) - row
  {
    if row < Max(|ra|, |rb|) {
      RowAvoidsZero(RowAt(ra, row), RowAt(rb, row), row, 0);
      LocatableAvoidsZero(ra, rb, row + 1);
    }
  }

  // ---------- frames that fit the screen ----------

  /** Every location is at least lo, below hi, and above the ones before it. */
  predicate Rising(bs: seq<Blink>, lo: nat, hi: nat) {
    && (forall i {:trigger bs[i]} :: 0 <= i < |bs| ==> lo <= bs[i].location < hi)
    && forall i, j {:trigger bs[i], bs[j]} :: 0 <= i < j < |bs| ==> bs[i].location < bs[j].location
  }

  lemma RisingAppend(xs: seq<Blink>, ys: seq<Blink>, lo: nat, mid: nat, from: nat, hi: nat)
    requires Rising(xs, lo, mid) && Rising(ys, from, hi) && lo <= mid <= from && mid <= hi
    ensures Rising(xs + ys, lo, hi)
  {
  }

  lemma CellRises(a: bytes, b: bytes, row: nat, col: nat)
    requires row < 25 && col < 40
    ensures Rising(CellRequest(a, b, row, col), row * 80 + col + OFFSET, row * 80 + col + 1 + OFFSET)
  {
  }

  lemma NoneRises(lo: nat, hi: nat)
    ensures Rising([], lo, hi)
  {
  }

  lemma {:induction false} RowRises(a: bytes, b: bytes, row: nat, col: nat)
    requires row < 25 && |a| <= 40 && |b| <= 40 && col <= 40
    ensures Rising(RowBlinks(a, b, row, col), row * 80 + col + OFFSET, row * 80 + 80)
    decreases 40 - col
  {
    hide Rising, CellRequest;
    if col < Max(|a|, |b|) {
      CellRises(a, b, row, col);
      RowRises(a, b, row, col + 1);
      RisingAppend(CellRequest(a, b, row, col), RowBlinks(a, b, row, col + 1), row * 80 + col + OFFSET,
        row * 80 + col + 1 + OFFSET, row * 80 + col + 1 + OFFSET, row * 80 + 80);
    } else {
      NoneRises(row * 80 + col + OFFSET, row * 80 + 80);
    }
  }

  /**
   No row has more than 40 columns, and nothing is below the 25th; the newline that ends a 25th line starts
   an empty row.
   */
  predicate Fits(rows: seq<bytes>) {
    forall row {:trigger rows[row]} :: 0 <= row < |rows| ==> |rows[row]| <= 40 && (row >= 25 ==> rows[row] == [])
  }

  lemma RowBelow(rows: seq<bytes>, row: nat)
    requires Fits(rows) && row >= 25
    ensures RowAt(rows, row) == []
  {
  }

  lemma EmptyRow(row: nat)
    ensures RowBlinks([], [], row, 0) == []
  {
  }

  lemma {:induction false} NothingBelow(ra: seq<bytes>, rb: seq<bytes>, row: nat)
    requires Fits(ra) && Fits(rb) && row >= 25
    ensures FrameBlinks(ra, rb, row) == []
    decreases Max(|ra|, |rb|) - row
  {
    hide Fits, RowAt, RowBlinks, CellAt;
    if row < Max(|ra|, |rb|) {
      RowBelow(ra, row);
      RowBelow(rb, row);
      EmptyRow(row);
      NothingBelow(ra, rb, row + 1);
    }
  }

  lemma {:induction false} FrameRises(ra: seq<bytes>, rb: seq<bytes>, row: nat)
    requires Fits(ra) && Fits(rb) && row <= 25
    ensures Rising(FrameBlinks(ra, rb, row), row * 80 + OFFSET, CELLS)
    decreases 25 - row
  {
    if row == 25 {
      NothingBelow(ra, rb, row);
    } else if row < Max(|ra|, |rb|) {
      RowRises(RowAt(ra, row), RowAt(rb, row), row, 0);
      FrameRises(ra, rb, row + 1);
      var first := RowBlinks(RowAt(ra, row), RowAt(rb, row), row, 0);
      RisingAppend(first, FrameBlinks(ra, rb, row + 1), row * 80 + OFFSET, row * 80 + 80, (row + 1) * 80 + OFFSET, CELLS);
    }
  }
}
