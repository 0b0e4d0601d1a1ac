/**
 The keyboard's line input as a value: an input buffer holding the pending lines end to end and then the line
 being typed, and the positions at which Enter was pressed. Keys and reads are steps on it.
 */
module LineInput {
  import opened Bytes

  const MAX_INPUT := 128

  /** input_buffer, input_location, the used part of new_lines, and read_flag. */
  datatype Input = Input(buffer: bytes, location: nat, ends: seq<nat>, ready: bool)

  datatype Key = Char(c: byte) | Enter | Backspace | CtrlL

  predicate Ordered(ends: seq<nat>) {
    forall i, j {:trigger ends[i], ends[j]} :: 0 <= i <= j < |ends| ==> ends[i] <= ends[j]
  }

  /** The recorded ends are in order and lie inside what has been typed. */
  predicate Proper(s: Input) {
    && |s.buffer| == MAX_INPUT && s.location < MAX_INPUT && |s.ends| <= MAX_INPUT
    && Ordered(s.ends) && forall i {:trigger s.ends[i]} :: 0 <= i < |s.ends| ==> s.ends[i] <= s.location
  }

  function LineStart(s: Input): nat {
    if s.ends == [] then 0 else s.ends[|s.ends| - 1]
  }

  /** What a key does. A key that finds the buffer full is lost, but still withholds the pending line. */
  function Pressed(s: Input, key: Key): Input
    requires |s.buffer| == MAX_INPUT
  {
    match key
    case Char(c) =>
      if s.location < MAX_INPUT - 1 then Input(s.buffer[s.location := c], s.location + 1, s.ends, false)
      else s.(ready := false)
    case Enter => s.(ends := s.ends + [s.location], ready := true)
    case Backspace => if s.location > LineStart(s) then s.(location := s.location - 1) else s
    case CtrlL => s.(location := 0)
  }

  /** Whatever is typed, the location never exceeds 127. */
  function PressedAll(s: Input, keys: seq<Key>): (r: Input)
    requires |s.buffer| == MAX_INPUT
    ensures |r.buffer| == MAX_INPUT && (s.location < MAX_INPUT ==> r.location < MAX_INPUT)
  {
    if keys == [] then s
    else
      var before := PressedAll(s, keys[..|keys| - 1]);
      Pressed(before, keys[|keys| - 1])
  }

  /** From the k-th on, no key but backspace and Ctrl-L. */
  predicate OnlyErases(keys: seq<Key>, k: nat) {
    forall j :: k <= j < |keys| ==> keys[j].Backspace? || keys[j].CtrlL?
  }

  /** The last key other than backspace and Ctrl-L is Enter. */
  predicate EnterIsLast(keys: seq<Key>) {
    exists i :: 0 <= i < |keys| && keys[i].Enter? && OnlyErases(keys, i + 1)
  }

  lemma EnterIsLastBefore(keys: seq<Key>, key: Key)
    ensures EnterIsLast(keys + [key]) <==> key.Enter? || ((key.Backspace? || key.CtrlL?) && EnterIsLast(keys))
  {
    var all := keys + [key];
    assert forall i :: 0 <= i < |keys| ==> all[i] == keys[i];
    assert all[|keys|] == key;
    if key.Enter? {
      assert all[|keys|].Enter? && OnlyErases(all, |keys| + 1);
    } else if key.Backspace? || key.CtrlL? {
      forall i {:trigger all[i]} | 0 <= i < |keys| ensures OnlyErases(all, i + 1) <==> OnlyErases(keys, i + 1) {
      }
      assert EnterIsLast(all) <==> exists i :: 0 <= i < |keys| && all[i].Enter? && OnlyErases(all, i + 1);
    }
  }

  /**
   A read is let through exactly when the last key other than backspace and Ctrl-L was Enter: a character typed
   after Enter withholds the lines that are pending until the next Enter.
   */
  lemma {:induction false} ReadyAfterEnter(s: Input, keys: seq<Key>)
    requires |s.buffer| == MAX_INPUT
    ensures PressedAll(s, keys).ready <==> EnterIsLast(keys) || (s.ready && OnlyErases(keys, 0))
  {
    if keys != [] {
      var before, key := keys[..|keys| - 1], keys[|keys| - 1];
      assert keys == before + [key];
      ReadyAfterEnter(s, before);
      EnterIsLastBefore(before, key);
    }
  }

  /** A finished line that cannot be read, because the next one has been begun. */
  lemma TypingAheadWithholdsTheLine(s: Input, a: byte, b: byte)
    requires Idle(s)
    ensures var r := PressedAll(s, [Char(a), Enter, Char(b)]); r.ends == [1] && r.buffer[0] == a && !r.ready
  {
    var keys := [Char(a), Enter, Char(b)];
    assert keys[..2] == [Char(a), Enter] && keys[..2][..1] == [Char(a)] && [Char(a)][..0] == [];
    assert PressedAll(s, [Char(a)]) == Pressed(s, Char(a));
    assert PressedAll(s, keys[..2]).ends == [1];
  }

  /** What a read of n bytes delivers when the first line ends at `end`. */
  function Delivered(buffer: bytes, end: nat, n: nat): bytes
    requires end <= |buffer| && n > 0
  {
    if n > end then buffer[..end] + [NEWLINE] else buffer[..n - 1] + [NUL]
  }

  /**
   The line positions after a read. The move is counted in bytes and the positions are four-byte words, so only
   every fourth of the remaining ones moves down; and none is made relative to the new start of the buffer.
   */
  function Shifted(ends: seq<nat>): (r: seq<nat>)
    requires ends != []
    ensures |r| == |ends| - 1
    ensures forall j {:trigger r[j]} :: 0 <= j < |r| ==> r[j] == ends[if 4 * j < |ends| - 1 then j + 1 else j]
  {
    seq(|ends| - 1, j requires 0 <= j < |ends| - 1 => ends[if 4 * j < |ends| - 1 then j + 1 else j])
  }

  /** The first line lies inside what has been typed: otherwise a read would move a negative number of bytes. */
  predicate Readable(s: Input) {
    |s.buffer| == MAX_INPUT && s.ends != [] && s.ends[0] <= s.location < MAX_INPUT
  }

  /** The state after terminal_read has taken the first pending line. */
  function AfterRead(s: Input): Input
    requires Readable(s)
  {
    var end := s.ends[0];
    Input(s.buffer[end..s.location] + s.buffer[s.location - end..], s.location - end, Shifted(s.ends), false)
  }

  predicate Idle(s: Input) {
    |s.buffer| == MAX_INPUT && s.location == 0 && s.ends == []
  }

  // ---------- the lines as the user sees them ----------

  /** Finished lines not yet read, and the line being typed. */
  datatype Text = Text(lines: seq<bytes>, current: bytes)

  function LineAt(s: Input, k: nat): bytes
    requires Proper(s) && k < |s.ends|
  {
    s.buffer[if k == 0 then 0 else s.ends[k - 1]..s.ends[k]]
  }

  function TextOf(s: Input): (t: Text)
    requires Proper(s)
    ensures |t.lines| == |s.ends|
    ensures forall k {:trigger t.lines[k]} :: 0 <= k < |s.ends| ==> t.lines[k] == LineAt(s, k)
  {
    Text(seq(|s.ends|, k requires 0 <= k < |s.ends| => LineAt(s, k)), s.buffer[LineStart(s)..s.location])
  }

  /** What a key is for. */
  function Edited(t: Text, key: Key, room: bool): Text {
    match key
    case Char(c) => if room then t.(current := t.current + [c]) else t
    case Enter => Text(t.lines + [t.current], [])
    case Backspace => if t.current == [] then t else t.(current := t.current[..|t.current| - 1])
    case CtrlL => Text([], [])
  }

  /** Two inputs with the same ends up to the k-th, and the same characters below it, have the same k-th line. */
  lemma SameLine(s: Input, r: Input, k: nat)
    requires Proper(s) && Proper(r) && k < |s.ends| && k < |r.ends|
    requires s.ends[k] == r.ends[k] && (k > 0 ==> s.ends[k - 1] == r.ends[k - 1])
    requires r.buffer[..s.ends[k]] == s.buffer[..s.ends[k]]
    ensures LineAt(r, k) == LineAt(s, k)
  {
    var lo, hi := if k == 0 then 0 else s.ends[k - 1], s.ends[k];
    assert k > 0 ==> s.ends[k - 1] <= s.ends[k];
    assert r.buffer[lo..hi] == r.buffer[..hi][lo..] && s.buffer[lo..hi] == s.buffer[..hi][lo..];
  }

  lemma EnterEditsText(s: Input)
    requires Proper(s) && |s.ends| < MAX_INPUT
    ensures Proper(Pressed(s, Enter)) && TextOf(Pressed(s, Enter)) == Edited(TextOf(s), Enter, true)
  {
    var r := Pressed(s, Enter);
    forall k | 0 <= k < |s.ends| ensures TextOf(r).lines[k] == TextOf(s).lines[k] {
      SameLine(s, r, k);
    }
    assert TextOf(r).lines == TextOf(s).lines + [TextOf(s).current];
  }

  lemma TypingKeepsEnds(s: Input, key: Key)
    requires Proper(s) && (key.Char? || key.Backspace?)
    ensures var r := Pressed(s, key);
      r.ends == s.ends && Proper(r) && r.buffer[..LineStart(s)] == s.buffer[..LineStart(s)]
  {
  }

  lemma SliceEdges(b: bytes, start: nat, n: nat, c: byte)
    requires start <= n < |b|
    ensures b[n := c][start..n + 1] == b[start..n] + [c]
    ensures start < n ==> b[start..n - 1] == b[start..n][..n - start - 1]
  {
  }

  lemma TypingEditsCurrent(s: Input, key: Key)
    requires Proper(s) && (key.Char? || key.Backspace?)
    ensures var r, start := Pressed(s, key), LineStart(s);
      start <= r.location && r.buffer[start..r.location] == Edited(TextOf(s), key, s.location < MAX_INPUT - 1).current
  {
    SliceEdges(s.buffer, LineStart(s), s.location, if key.Char? then key.c else NUL);
    assert TextOf(s).current == s.buffer[LineStart(s)..s.location];
    hide TextOf;
  }

  lemma TypingEditsText(s: Input, key: Key)
    requires Proper(s) && (key.Char? || key.Backspace?)
    ensures Proper(Pressed(s, key)) && TextOf(Pressed(s, key)) == Edited(TextOf(s), key, s.location < MAX_INPUT - 1)
  {
    TypingKeepsEnds(s, key);
    var r, start := Pressed(s, key), LineStart(s);
    TypingEditsCurrent(s, key);
    hide Pressed;
    forall k | 0 <= k < |s.ends| ensures TextOf(r).lines[k] == TextOf(s).lines[k] {
      assert s.ends[k] <= start;
      TakeTake(r.buffer, start, s.ends[k]);
      TakeTake(s.buffer, start, s.ends[k]);
      SameLine(s, r, k);
    }
    assert TextOf(r).lines == TextOf(s).lines;
  }

  /** Every key but Ctrl-L edits the text as it should, and never past 127 characters. */
  lemma KeyEditsText(s: Input, key: Key)
    requires Proper(s) && key != CtrlL && (key == Enter ==> |s.ends| < MAX_INPUT)
    ensures Proper(Pressed(s, key))
    ensures TextOf(Pressed(s, key)) == Edited(TextOf(s), key, s.location < MAX_INPUT - 1)
  {
    hide Proper, Pressed, TextOf;
    if key == Enter {
      EnterEditsText(s);
    } else {
      TypingEditsText(s, key);
    }
  }

  /**
   Ctrl-L forgets the typed characters but not the recorded line ends, because the statement that would forget
   them is inside a comment. It clears the input exactly when nothing is pending, and leaves recorded ends
   outside the input exactly when a pending line is not empty.
   */
  lemma CtrlLKeepsPendingEnds(s: Input)
    requires Proper(s)
    ensures Proper(Pressed(s, CtrlL)) <==> forall i {:trigger s.ends[i]} :: 0 <= i < |s.ends| ==> s.ends[i] == 0
    ensures Proper(Pressed(s, CtrlL)) && TextOf(Pressed(s, CtrlL)) == Edited(TextOf(s), CtrlL, true) <==> s.ends == []
  {
    var r := Pressed(s, CtrlL);
    assert r.ends == s.ends;
  }

  /** The positions that a read should leave: one fewer, and counted from the new start. */
  predicate Rebased(ends: seq<nat>, r: seq<nat>) {
    |r| == |ends| - 1 && forall j {:trigger r[j]} :: 0 <= j < |r| ==> r[j] + ends[0] == ends[j + 1]
  }

  /** When the byte-counted move happens to leave the right positions. */
  predicate ShiftSuffices(ends: seq<nat>)
    requires ends != []
  {
    || |ends| == 1
    || (ends[0] == 0
        && forall j {:trigger ends[j]} :: 1 <= j < |ends| - 1 && 4 * j >= |ends| - 1 ==> ends[j] == ends[j + 1])
  }

  lemma ShiftedIsRebased(ends: seq<nat>)
    requires ends != [] && Ordered(ends)
    ensures Rebased(ends, Shifted(ends)) <==> ShiftSuffices(ends)
  {
    var r := Shifted(ends);
    if |ends| > 1 {
      assert r[0] == ends[1];
      if ShiftSuffices(ends) {
        forall j {:trigger r[j]} | 0 <= j < |r| ensures r[j] + ends[0] == ends[j + 1] {
          assert 4 * j >= |ends| - 1 ==> ends[j] == ends[j + 1];
        }
      }
      if Rebased(ends, r) {
        forall j {:trigger ends[j]} | 1 <= j < |ends| - 1 && 4 * j >= |ends| - 1 ensures ends[j] == ends[j + 1] {
          assert r[j] == ends[j];
        }
      }
    }
  }

  /** Lines of the same lengths end at the same positions. */
  lemma {:induction false} LengthsGiveEnds(s: Input, r: Input, j: nat)
    requires Proper(s) && Proper(r) && s.ends != [] && |r.ends| == |s.ends| - 1 && j < |r.ends|
    requires forall k :: 0 <= k < |r.ends| ==> |LineAt(r, k)| == |LineAt(s, k + 1)|
    ensures r.ends[j] + s.ends[0] == s.ends[j + 1]
  {
    assert |LineAt(r, j)| == |LineAt(s, j + 1)|;
    assert s.ends[j] <= s.ends[j + 1] && (j > 0 ==> r.ends[j - 1] <= r.ends[j]);
    if j > 0 {
      LengthsGiveEnds(s, r, j - 1);
    }
  }

  lemma RebasedIsProper(s: Input)
    requires Proper(s) && s.ends != [] && Rebased(s.ends, AfterRead(s).ends)
    ensures Proper(AfterRead(s))
  {
    hide Shifted;
    var r := AfterRead(s);
    forall i {:trigger r.ends[i]} | 0 <= i < |r.ends| ensures r.ends[i] <= r.location {
      assert s.ends[i + 1] <= s.location;
    }
    forall i, j {:trigger r.ends[i], r.ends[j]} | 0 <= i <= j < |r.ends| ensures r.ends[i] <= r.ends[j] {
      assert s.ends[i + 1] <= s.ends[j + 1];
    }
  }

  /** A slice of the buffer after the move is the slice further on before it. */
  lemma MovedDown(s: Input, lo: nat, hi: nat)
    requires Proper(s) && s.ends != [] && lo <= hi <= s.location - s.ends[0]
    ensures AfterRead(s).buffer[lo..hi] == s.buffer[s.ends[0] + lo..s.ends[0] + hi]
  {
  }

  lemma RebasedLines(s: Input)
    requires Proper(s) && s.ends != [] && Rebased(s.ends, AfterRead(s).ends) && Proper(AfterRead(s))
    ensures forall k {:trigger TextOf(AfterRead(s)).lines[k]} ::
      0 <= k < |s.ends| - 1 ==> TextOf(AfterRead(s)).lines[k] == TextOf(s).lines[k + 1]
  {
    var r, e := AfterRead(s), s.ends[0];
    forall k | 0 <= k < |r.ends| ensures TextOf(r).lines[k] == TextOf(s).lines[k + 1] {
      assert e <= s.ends[k] <= s.ends[k + 1] <= s.location;
      assert k > 0 ==> r.ends[k - 1] + e == s.ends[k];
      MovedDown(s, if k == 0 then 0 else r.ends[k - 1], r.ends[k]);
    }
  }

  lemma RebasedIsRead(s: Input)
    requires Proper(s) && s.ends != [] && Rebased(s.ends, AfterRead(s).ends)
    ensures Proper(AfterRead(s))
    ensures TextOf(AfterRead(s)) == Text(TextOf(s).lines[1..], TextOf(s).current)
  {
    RebasedIsProper(s);
    hide Shifted, Ordered;
    RebasedLines(s);
    var r, e := AfterRead(s), s.ends[0];
    assert TextOf(r).lines == TextOf(s).lines[1..];
    assert e <= s.ends[|s.ends| - 1] && e <= LineStart(s) <= s.location && LineStart(r) + e == LineStart(s);
    MovedDown(s, LineStart(r), r.location);
  }

  /**
   A read leaves the other pending lines as they were exactly when the byte-counted move suffices;
   one pending line is always safe.
   */
  lemma ReadKeepsOtherLines(s: Input)
    requires Proper(s) && s.ends != []
    ensures Proper(AfterRead(s)) && TextOf(AfterRead(s)) == Text(TextOf(s).lines[1..], TextOf(s).current)
      <==> ShiftSuffices(s.ends)
  {
    hide Shifted, Rebased, ShiftSuffices;
    var r := AfterRead(s);
    ShiftedIsRebased(s.ends);
    if Rebased(s.ends, r.ends) {
      RebasedIsRead(s);
    } else if Proper(r) && TextOf(r) == Text(TextOf(s).lines[1..], TextOf(s).current) {
      forall k | 0 <= k < |r.ends| ensures |LineAt(r, k)| == |LineAt(s, k + 1)| {
        assert TextOf(r).lines[k] == TextOf(s).lines[k + 1];
      }
      NotRebasedIsNotRead(s, r);
    }
  }

  lemma NotRebasedIsNotRead(s: Input, r: Input)
    requires Proper(s) && Proper(r) && s.ends != [] && |r.ends| == |s.ends| - 1
    requires forall k :: 0 <= k < |r.ends| ==> |LineAt(r, k)| == |LineAt(s, k + 1)|
    ensures Rebased(s.ends, r.ends)
  {
    forall j {:trigger r.ends[j]} | 0 <= j < |r.ends| ensures r.ends[j] + s.ends[0] == s.ends[j + 1] {
      LengthsGiveEnds(s, r, j);
    }
  }

  /** What a read returns of a line: the line and its newline, or as much of it as fits before a NUL. */
  function ReadOf(line: bytes, n: nat): bytes
    requires n > 0
  {
    if n > |line| then line + [NEWLINE] else line[..n - 1] + [NUL]
  }

  /** A read always delivers the first pending line, however many are pending. */
  lemma ReadDeliversFirstLine(s: Input, n: nat)
    requires Proper(s) && s.ends != [] && n > 0
    ensures Readable(s) && Delivered(s.buffer, s.ends[0], n) == ReadOf(TextOf(s).lines[0], n)
  {
    assert TextOf(s).lines[0] == s.buffer[0..s.ends[0]] == s.buffer[..s.ends[0]];
  }

  /** One Enter lets one read through: however many lines are left, the next read waits for the next Enter. */
  lemma OneReadPerEnter(s: Input, keys: seq<Key>)
    requires Readable(s)
    ensures |AfterRead(s).ends| == |s.ends| - 1
    ensures PressedAll(AfterRead(s), keys).ready <==> EnterIsLast(keys)
  {
    hide PressedAll;
    ReadyAfterEnter(AfterRead(s), keys);
  }

  /** Two lines typed ahead: after the first is read, the second's recorded end lies outside the input. */
  lemma TwoPendingLinesGoWrong(s: Input, a: byte, b: byte)
    requires Idle(s)
    ensures var r := PressedAll(s, [Char(a), Enter, Char(b), Enter]);
      Proper(r) && !Readable(AfterRead(r))
  {
    var keys := [Char(a), Enter, Char(b), Enter];
    assert keys[..3] == [Char(a), Enter, Char(b)] && keys[..3][..2] == [Char(a), Enter];
    assert keys[..3][..2][..1] == [Char(a)] && [Char(a)][..0] == [];
    var r1 := Pressed(s, Char(a));
    var r3 := Pressed(Pressed(r1, Enter), Char(b));
    assert PressedAll(s, [Char(a)]) == r1;
    assert PressedAll(s, [Char(a), Enter]) == Pressed(r1, Enter);
    assert PressedAll(s, keys[..3]) == r3;
    assert Pressed(r3, Enter).ends == [1, 2];
  }

  /** A line typed ahead and then Ctrl-L: its recorded end lies outside the input. */
  lemma CtrlLStrandsALine(s: Input, a: byte)
    requires Idle(s)
    ensures !Readable(PressedAll(s, [Char(a), Enter, CtrlL]))
  {
    var keys := [Char(a), Enter, CtrlL];
    assert keys[..2] == [Char(a), Enter] && keys[..2][..1] == [Char(a)] && [Char(a)][..0] == [];
    assert PressedAll(s, [Char(a)]) == Pressed(s, Char(a));
    assert PressedAll(s, keys[..2]).ends == [1];
  }

  // ---------- one line at a time ----------

  /** The line that keys without Enter leave: characters append while there is room, backspace drops the last, Ctrl-L all. */
  function LineOf(keys: seq<Key>): (line: bytes)
    ensures |line| < MAX_INPUT
  {
    if keys == [] then []
    else
      var line := LineOf(keys[..|keys| - 1]);
      match keys[|keys| - 1]
      case Char(c) => if |line| < MAX_INPUT - 1 then line + [c] else line
      case Backspace => if line == [] then [] else line[..|line| - 1]
      case _ => []
  }

  lemma {:induction false} TypingBuildsTheLine(s: Input, keys: seq<Key>)
    requires Idle(s) && Enter !in keys
    ensures var r := PressedAll(s, keys);
      r.ends == [] && r.location == |LineOf(keys)| && r.buffer[..r.location] == LineOf(keys)
  {
    if keys != [] {
      var init, key := keys[..|keys| - 1], keys[|keys| - 1];
      assert key in keys;
      TypingBuildsTheLine(s, init);
      var before := PressedAll(s, init);
      assert key.Backspace? && before.location > 0 ==>
        before.buffer[..before.location - 1] == before.buffer[..before.location][..before.location - 1];
    }
  }

  /** Keys without Enter, then Enter, then a read: it delivers the line typed, and the input is idle again. */
  lemma {:induction false} RoundDeliversTheLine(s: Input, keys: seq<Key>, n: nat)
    requires Idle(s) && Enter !in keys && n > 0
    ensures var r := Pressed(PressedAll(s, keys), Enter);
      && Proper(r) && Readable(r) && r.ready && |r.ends| == 1
      && Delivered(r.buffer, r.ends[0], n) == ReadOf(LineOf(keys), n)
      && Idle(AfterRead(r)) && !AfterRead(r).ready
  {
    hide PressedAll, LineOf, LineAt;
    TypingBuildsTheLine(s, keys);
    var before := PressedAll(s, keys);
    var r := Pressed(before, Enter);
    assert r.ends == [before.location];
    if n <= before.location {
      assert r.buffer[..n - 1] == r.buffer[..before.location][..n - 1];
    }
  }

  /** One round of a session: the keys before Enter, and the size of the read after it. */
  datatype Round = Round(keys: seq<Key>, n: nat)

  predicate Plain(rounds: seq<Round>) {
    forall i {:trigger rounds[i]} :: 0 <= i < |rounds| ==> Enter !in rounds[i].keys && rounds[i].n > 0
  }

  /** What the reads of a whole session return, by running it. */
  function Session(s: Input, rounds: seq<Round>): seq<bytes>
    requires Idle(s) && Plain(rounds)
    decreases |rounds|
  {
    if rounds == [] then []
    else
      RoundDeliversTheLine(s, rounds[0].keys, rounds[0].n);
      var r := Pressed(PressedAll(s, rounds[0].keys), Enter);
      [Delivered(r.buffer, r.ends[0], rounds[0].n)] + Session(AfterRead(r), rounds[1..])
  }

  function LinesRead(rounds: seq<Round>): seq<bytes>
    requires Plain(rounds)
  {
    seq(|rounds|, i requires 0 <= i < |rounds| => ReadOf(LineOf(rounds[i].keys), rounds[i].n))
  }

  /**
   In any session in which each line is read before the next is typed, every read returns its own line
   and nothing of the others.
   */
  lemma {:induction false} SessionReturnsItsLines(s: Input, rounds: seq<Round>)
    requires Idle(s) && Plain(rounds)
    ensures Session(s, rounds) == LinesRead(rounds)
    decreases |rounds|
  {
    hide Pressed, PressedAll, LineOf, AfterRead, Proper, Delivered;
    if rounds != [] {
      var rest := rounds[1..];
      RoundDeliversTheLine(s, rounds[0].keys, rounds[0].n);
      SessionReturnsItsLines(AfterRead(Pressed(PressedAll(s, rounds[0].keys), Enter)), rest);
      assert LinesRead(rounds) == [ReadOf(LineOf(rounds[0].keys), rounds[0].n)] + LinesRead(rest);
    }
  }
}
