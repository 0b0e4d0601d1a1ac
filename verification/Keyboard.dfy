/** The keyboard handler of keyboard.c and terminal_read of terminal.c, over the arrays they share. */
module Keyboard {
  import opened Bytes
  import FileImage
  import opened LineInput
  import Memory

  const LETTER_L: byte := 108

  /** new_lines as it lies in memory: 128 little-endian words. */
  predicate Words(words: bytes) {
    |words| == 4 * MAX_INPUT && forall i {:trigger words[i]} :: 0 <= i < |words| && i % 4 != 0 ==> words[i] == 0
  }

  function EndsOf(words: bytes, count: nat): (ends: seq<nat>)
    requires |words| == 4 * MAX_INPUT && count <= MAX_INPUT
    ensures |ends| == count && forall j {:trigger ends[j]} :: 0 <= j < count ==> ends[j] == FileImage.WordAt(words, 4 * j)
  {
    seq(count, j requires 0 <= j < count => FileImage.WordAt(words, 4 * j))
  }

  /** Locations fit one byte, so a word is its lowest byte. */
  lemma SmallWord(words: bytes, j: nat)
    requires Words(words) && j < MAX_INPUT
    ensures FileImage.WordAt(words, 4 * j) == words[4 * j]
  {
    var w := words[4 * j..4 * j + 4];
    assert w[1] == 0 && w[2] == 0 && w[3] == 0;
    FileImage.ZeroTail(w[1..]);
  }

  /** A byte of the words after n bytes have moved down by four. */
  lemma MovedWordByte(words: bytes, n: nat, i: nat)
    requires Words(words) && n + 4 <= |words| && i < |words|
    ensures Memory.Moved(words, 0, 4, n)[i] == words[if i < n then i + 4 else i]
  {
  }

  /** Moving count bytes, where count words were meant, shifts the positions as `Shifted` says. */
  lemma MoveShiftsEnds(words: bytes, count: nat)
    requires Words(words) && 0 < count <= MAX_INPUT
    ensures var moved := Memory.Moved(words, 0, 4, count - 1);
      Words(moved) && EndsOf(moved, count - 1) == Shifted(EndsOf(words, count))
  {
    var moved, ends := Memory.Moved(words, 0, 4, count - 1), EndsOf(words, count);
    forall i {:trigger moved[i]} | 0 <= i < |moved| && i % 4 != 0 ensures moved[i] == 0 {
      MovedWordByte(words, count - 1, i);
    }
    forall j | 0 <= j < count - 1 ensures EndsOf(moved, count - 1)[j] == Shifted(ends)[j] {
      SmallWord(moved, j);
      MovedWordByte(words, count - 1, 4 * j);
      SmallWord(words, if 4 * j < count - 1 then j + 1 else j);
    }
  }

  lemma AppendedEnd(words: bytes, count: nat, location: byte)
    requires Words(words) && count < MAX_INPUT
    ensures var grown := words[4 * count := location];
      Words(grown) && EndsOf(grown, count + 1) == EndsOf(words, count) + [location]
  {
    var grown := words[4 * count := location];
    forall j | 0 <= j <= count ensures EndsOf(grown, count + 1)[j] == (EndsOf(words, count) + [location])[j] {
      SmallWord(grown, j);
      SmallWord(words, j);
    }
  }

  class Keyboard {
    const inputBuffer: array<byte>
    const newLines: array<byte>
    var inputLocation: nat
    var newLinesLocation: nat
    var readFlag: bool

    ghost predicate Valid()
      reads this, inputBuffer, newLines
    {
      && inputBuffer.Length == MAX_INPUT && newLines.Length == 4 * MAX_INPUT && inputBuffer != newLines
      && Words(newLines[..]) && newLinesLocation <= MAX_INPUT && inputLocation < MAX_INPUT
    }

    ghost function View(): Input
      requires Valid()
      reads this, inputBuffer, newLines
    {
      Input(inputBuffer[..], inputLocation, EndsOf(newLines[..], newLinesLocation), readFlag)
    }

    constructor ()
      ensures Valid() && Idle(View()) && !readFlag && fresh(inputBuffer) && fresh(newLines)
    {
      inputBuffer := new byte[MAX_INPUT](_ => 0);
      newLines := new byte[4 * MAX_INPUT](_ => 0);
      inputLocation, newLinesLocation, readFlag := 0, 0, false;
    }

    /** map_keys on the character of a key: with Ctrl only 'l' does anything here, and a key without a character nothing. */
    method MapKeys(ctrl: bool, character: byte)
      requires Valid() && (!ctrl && character == NEWLINE ==> newLinesLocation < MAX_INPUT)
      modifies this, inputBuffer, newLines
      ensures Valid()
      ensures View() ==
        if ctrl then (if character == LETTER_L then Pressed(old(View()), CtrlL) else old(View()))
        else if character == NUL then old(View())
        else Pressed(old(View()), if character == NEWLINE then Enter else Char(character))
    {
      if ctrl {
        if character == LETTER_L {
          inputLocation := 0;
        }
        return;
      }
      if character != NUL {
        if character == NEWLINE {
          AppendedEnd(newLines[..], newLinesLocation, inputLocation);
          StoreWord(newLinesLocation, inputLocation);
          newLinesLocation := newLinesLocation + 1;
          readFlag := true;
          return;
        } else if inputLocation < MAX_INPUT - 1 {
          readFlag := false;
          inputBuffer[inputLocation] := character;
          inputLocation := inputLocation + 1;
          return;
        }
        readFlag := false;
      }
    }

    method StoreWord(j: nat, value: byte)
      requires Valid() && j < MAX_INPUT
      modifies newLines
      ensures newLines[..] == old(newLines[..])[4 * j := value]
    {
      newLines[4 * j], newLines[4 * j + 1], newLines[4 * j + 2], newLines[4 * j + 3] := value, 0, 0, 0;
    }

    method LoadWord(j: nat) returns (value: nat)
      requires Valid() && j < newLinesLocation
      ensures value == View().ends[j]
    {
      SmallWord(newLines[..], j);
      value := newLines[4 * j];
    }

    /** handle_backspcae: the last character of the current line goes, and none before the line's start. */
    method HandleBackspace()
      requires Valid()
      modifies this
      ensures Valid() && View() == Pressed(old(View()), Backspace)
    {
      var lineStart := 0;
      if newLinesLocation != 0 {
        lineStart := LoadWord(newLinesLocation - 1);
      }
      if inputLocation > lineStart {
        inputLocation := inputLocation - 1;
      }
    }

    /** terminal_read once read_flag is up: the first line with its newline, or its first nbytes - 1 characters and a NUL. */
    method TerminalRead(buf: array<byte>, nbytes: nat) returns (r: nat)
      requires Valid() && readFlag && nbytes > 0 && nbytes <= buf.Length && buf != inputBuffer && buf != newLines
      requires newLinesLocation > 0 ==> Readable(View())
      modifies this, inputBuffer, newLines, buf
      ensures Valid()
      ensures old(newLinesLocation) == 0 ==> r == 0 && View() == old(View()).(ready := false) && buf[..] == old(buf[..])
      ensures old(newLinesLocation) > 0 ==>
        var line := Delivered(old(View()).buffer, old(View()).ends[0], nbytes);
        r == |line| && buf[..] == line + old(buf[..])[r..] && View() == AfterRead(old(View()))
    {
      hide Words, Delivered, Shifted;
      if newLinesLocation == 0 {
        readFlag := false;
        return 0;
      }
      var end := LoadWord(0);
      r := CopyLine(buf, end, nbytes);
      DropFirst(end);
    }

    /** The copy to the reader's buffer, in the two branches of terminal_read. */
    method CopyLine(buf: array<byte>, end: nat, nbytes: nat) returns (r: nat)
      requires Valid() && end < MAX_INPUT && 0 < nbytes <= buf.Length && buf != inputBuffer && buf != newLines
      modifies buf
      ensures var line := Delivered(inputBuffer[..], end, nbytes);
        r == |line| && buf[..] == line + old(buf[..])[r..]
    {
      hide Words;
      ghost var was := buf[..];
      if nbytes > end {
        FileImage.CopyIn(inputBuffer[..end], buf, 0);
        buf[end] := NEWLINE;
        r := end + 1;
      } else {
        FileImage.CopyIn(inputBuffer[..nbytes - 1], buf, 0);
        buf[nbytes - 1] := NUL;
        r := nbytes;
      }
      assert buf[..] == Delivered(inputBuffer[..], end, nbytes) + was[r..];
    }

    /** What both branches of terminal_read do after copying the line out. */
    method DropFirst(end: nat)
      requires Valid() && Readable(View()) && end == View().ends[0]
      modifies this, inputBuffer, newLines
      ensures Valid() && View() == AfterRead(old(View()))
    {
      inputLocation := inputLocation - end;
      Memory.Memmove(inputBuffer, 0, end, inputLocation);
      newLinesLocation := newLinesLocation - 1;
      MoveShiftsEnds(newLines[..], newLinesLocation + 1);
      Memory.Memmove(newLines, 0, 4, newLinesLocation);
      readFlag := false;
    }
  }
}
