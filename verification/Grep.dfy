/** do_one_file of ece391grep.c: the scanner that carries partial lines from one read to the next. */
module Grep {
  import opened Bytes
  import opened FileImage
  import opened Directory
  import opened KernelSpec
  import opened KernelInvariant
  import opened KernelCalls
  import opened KernelCode
  import opened Programs
  import opened GrepSpec

  /** "file open failed\n" */
  const FILE_OPEN_FAILED: bytes := [102, 105, 108, 101, 32, 111, 112, 101, 110, 32, 102, 97, 105, 108, 101, 100, 10]

  // ---------- the string functions of ece391support.c ----------

  /** Character i of a C string, its terminator included. */
  function CharAt(s: bytes, i: nat): byte
    requires i <= |s|
  {
    if i < |s| then s[i] else NUL
  }

  /** The buffer holds no terminator from a up to e. */
  ghost predicate Text(data: array<byte>, a: int, e: int)
    requires 0 <= a && e <= data.Length
    reads data
  {
    forall i {:trigger data[i]} :: a <= i < e ==> data[i] != NUL
  }

  /** ece391_strncmp of a terminated string in a buffer with a pattern of length n. */
  method Strncmp(data: array<byte>, at: nat, end: nat, s: bytes) returns (r: int)
    requires at <= end < data.Length && data[end] == NUL && NulFree(s)
    ensures r == 0 <==> at + |s| <= end && data[at..at + |s|] == s
  {
    var n := |s|;
    if n == 0 {
      return 0;
    }
    var i := 0;
    while data[at + i] == s[i]
      invariant 0 <= i < |s| && n == |s| - i && at + i <= end
      invariant data[at..at + i] == s[..i]
      decreases |s| - i
    {
      assert s[i] in s && s[i] != NUL;
      n := n - 1;
      if n == 0 {
        assert s[..i + 1] == s;
        return 0;
      }
      i := i + 1;
    }
    DiffersAt(data, at, end, s, i);
    r := (data[at + i] as int) - s[i];
  }

  lemma DiffersAt(data: array<byte>, at: nat, end: nat, s: bytes, i: nat)
    requires at + i <= end < data.Length && i < |s| && data[at + i] != s[i]
    ensures !(at + |s| <= end && data[at..at + |s|] == s)
  {
    if at + |s| <= end {
      assert data[at..at + |s|][i] != s[i];
    }
  }

  method Strlen(data: array<byte>, at: nat, ghost end: nat) returns (n: nat)
    requires at <= end < data.Length && data[end] == NUL && Text(data, at, end)
    ensures n == end - at
  {
    n := 0;
    while data[at + n] != NUL
      invariant at + n <= end
      decreases end - n
    {
      n := n + 1;
    }
  }

  /** ece391_strcpy downwards within one buffer: each byte is read before anything lands on it. */
  method CarryDown(data: array<byte>, from: nat, end: nat)
    requires 0 < from <= end < data.Length && data[end] == NUL && Text(data, from, end)
    modifies data
    ensures data[..end - from] == old(data[from..end]) && Text(data, 0, end - from)
    ensures forall i {:trigger data[i]} :: end - from < i < data.Length ==> data[i] == old(data[i])
  {
    ghost var was := data[..];
    var i := 0;
    while data[from + i] != NUL
      invariant 0 <= i <= end - from
      invariant forall j {:trigger data[j]} :: 0 <= j < data.Length ==> data[j] == if j < i then was[from + j] else was[j]
      decreases end - i
    {
      data[i] := data[from + i];
      i := i + 1;
    }
    data[i] := NUL;
    assert forall j {:trigger data[j]} :: 0 <= j < end - from ==> data[j] == was[from + j];
  }

  // ---------- one stretch ----------

  /** What the scanner may do to the kernel while it prints: nothing an open file depends on. */
  twostate predicate OnlyPrints(k: System)
    reads k, k.frames
  {
    k.Valid() && forall fd, inode, position {:trigger Reading(k, fd, inode, position)} ::
      old(Reading(k, fd, inode, position)) ==> Reading(k, fd, inode, position)
  }

  /** A slice of a stretch of the buffer is a stretch of the buffer. */
  lemma BufferSlice(data: array<byte>, from: nat, end: nat, i: nat, j: nat)
    requires from <= end <= data.Length && i <= j <= end - from
    ensures data[from..end][i..j] == data[from + i..from + j]
  {
    var whole := data[..];
    assert data[from..end] == whole[from..end] && data[from + i..from + j] == whole[from + i..from + j];
    SliceSlice(whole, from, end, i, j);
  }

  /** Where the pattern occurs in the stretch, seen from the buffer; its first character tells where it cannot. */
  lemma OccursInBuffer(data: array<byte>, from: nat, end: nat, s: bytes, check: nat)
    requires from <= check < end < data.Length
    ensures OccursAt(data[from..end], s, check - from) <==> check + |s| <= end && data[check..check + |s|] == s
    ensures s != [] && OccursAt(data[from..end], s, check - from) ==> CharAt(s, 0) == data[check]
  {
    if check + |s| <= end {
      BufferSlice(data, from, end, check - from, check - from + |s|);
      if s != [] && data[check..check + |s|] == s {
        assert data[check..check + |s|][0] == data[check];
      }
    }
  }

  lemma NoOccurrence(line: bytes, s: bytes)
    requires s != [] ==> forall i :: 0 <= i < |line| ==> !OccursAt(line, s, i)
    ensures !Matches(line, s)
  {
  }

  /** A terminator stored at the end of a stretch. */
  method Terminate(data: array<byte>, ghost from: nat, at: nat, ghost end: nat)
    requires from <= at < data.Length && at <= end <= data.Length
    modifies data
    ensures data[at] == NUL && data[from..at] == old(data[from..at])
    ensures at < end ==> data[at + 1..end] == old(data[at + 1..end])
    ensures forall i {:trigger data[i]} :: 0 <= i < data.Length && i != at ==> data[i] == old(data[i])
  {
    ghost var low := data[from..at];
    ghost var high := if at < end then data[at + 1..end] else [];
    data[at] := NUL;
    assert data[from..at] == low;
    assert at < end ==> data[at + 1..end] == high;
  }

  /** The search loop: the first place the pattern occurs prints the stretch, and ends the search. */
  method SearchPiece(k: System, s: bytes, fname: bytes, data: array<byte>, lineStart: nat, lineEnd: nat)
    requires k.Valid() && lineStart <= lineEnd < data.Length && data[lineEnd] == NUL
    requires Text(data, lineStart, lineEnd) && NulFree(s)
    modifies k`output
    ensures OnlyPrints(k)
    ensures k.output == old(k.output) + ReportOne(data[lineStart..lineEnd], s, fname)
  {
    hide Inv, System.View, System.Valid, Reading, OccursAt;
    ghost var line := data[lineStart..lineEnd];
    var check := lineStart;
    while check < lineEnd
      invariant lineStart <= check <= lineEnd && OnlyPrints(k) && k.output == old(k.output)
      invariant s != [] ==> forall i :: 0 <= i < check - lineStart ==> !OccursAt(line, s, i)
    {
      OccursInBuffer(data, lineStart, lineEnd, s, check);
      if CharAt(s, 0) == data[check] {
        var differs := Strncmp(data, check, lineEnd, s);
        if differs == 0 {
          PrintPiece(k, fname, data, lineStart, lineEnd);
          return;
        }
      }
      check := check + 1;
    }
    NoOccurrence(line, s);
  }

  method PrintPiece(k: System, fname: bytes, data: array<byte>, lineStart: nat, lineEnd: nat)
    requires k.Valid() && lineStart <= lineEnd < data.Length && data[lineEnd] == NUL && Text(data, lineStart, lineEnd)
    modifies k`output
    ensures OnlyPrints(k)
    ensures k.output == old(k.output) + (fname + [58] + data[lineStart..lineEnd] + [NEWLINE])
  {
    hide Inv, System.View, System.Valid, Reading;
    var r := WriteOut(k, fname);
    r := WriteOut(k, [58]);
    var n := Strlen(data, lineStart, lineEnd);
    r := WriteOut(k, data[lineStart..lineStart + n]);
    r := WriteOut(k, [NEWLINE]);
  }

  // ---------- one buffer ----------

  method FindLineEnd(data: array<byte>, lineStart: nat, last: nat) returns (lineEnd: nat)
    requires lineStart <= last < data.Length
    ensures lineStart <= lineEnd <= last && NEWLINE !in data[lineStart..lineEnd]
    ensures lineEnd < last ==> data[lineEnd] == NEWLINE
  {
    lineEnd := lineStart;
    while lineEnd < last && NEWLINE != data[lineEnd]
      invariant lineStart <= lineEnd <= last && NEWLINE !in data[lineStart..lineEnd]
    {
      lineEnd := lineEnd + 1;
    }
  }

  /** The report still owed when `buffer` is in hand and `rest` has not been read. */
  ghost function Owed(buffer: bytes, rest: bytes, s: bytes, fname: bytes): bytes {
    Report(Pieces(buffer + rest), s, fname)
  }

  /** The partial line at the end of the buffer goes to the front. */
  method CarryRest(data: array<byte>, lineStart: nat, lineEnd: nat, last: nat) returns (carried: nat)
    requires data.Length == BUFSIZE + 1 && 0 < lineStart <= lineEnd == last <= BUFSIZE
    requires Text(data, lineStart, last) && data[BUFSIZE] != NEWLINE
    modifies data
    ensures carried == last - lineStart && data[..carried] == old(data[lineStart..last])
    ensures Text(data, 0, carried) && data[BUFSIZE] != NEWLINE
  {
    Terminate(data, lineStart, lineEnd, last);
    CarryDown(data, lineStart, lineEnd);
    carried := last - lineStart;
  }

  /**
   The inner loop: what is left of the buffer is either nothing or the beginning of a line, and
   what has been printed together with what is owed for the rest is unchanged.
   */
  method ScanBuffer(k: System, s: bytes, fname: bytes, data: array<byte>, last: nat, cnt: nat, ghost rest: bytes)
    returns (carried: nat)
    requires k.Valid() && data !in k.frames && data.Length == BUFSIZE + 1 && last <= BUFSIZE && NulFree(s)
    requires Text(data, 0, last) && data[BUFSIZE] != NEWLINE
    requires last < BUFSIZE || cnt == 0 ==> rest == []
    modifies k`output, data
    ensures OnlyPrints(k)
    ensures carried < BUFSIZE && data[BUFSIZE] != NEWLINE && Text(data, 0, carried)
    ensures cnt == 0 ==> carried == 0
    ensures k.output + Owed(data[..carried], rest, s, fname) == old(k.output) + Owed(old(data[..last]), rest, s, fname)
  {
    hide Inv, System.View, System.Valid, Reading, ReportOne, Owed;
    ghost var goal := k.output + Owed(data[..last], rest, s, fname);
    var lineStart := 0;
    while true
      invariant 0 <= lineStart <= last && (lineStart == last ==> lineStart == 0) && OnlyPrints(k)
      invariant Text(data, lineStart, last) && data[BUFSIZE] != NEWLINE
      invariant k.output + Owed(data[lineStart..last], rest, s, fname) == goal
      decreases last - lineStart
    {
      ghost var buffer := data[lineStart..last];
      var lineEnd := FindLineEnd(data, lineStart, last);
      ghost var n, printed := lineEnd - lineStart, k.output;
      BufferSlice(data, lineStart, last, 0, n);
      if NEWLINE != data[lineEnd] && cnt != 0 && lineStart != 0 {
        carried := CarryRest(data, lineStart, lineEnd, last);
        return;
      }
      ghost var left := NextOwed(buffer, n, rest, s, fname);
      if n < |buffer| {
        BufferSlice(data, lineStart, last, n + 1, |buffer|);
      }
      Terminate(data, lineStart, lineEnd, last);
      SearchPiece(k, s, fname, data, lineStart, lineEnd);
      lineStart := lineEnd + 1;
      assert k.output + Owed(left, rest, s, fname) == goal by {
        Associative(printed, ReportOne(buffer[..n], s, fname), Owed(left, rest, s, fname));
      }
      if lineStart >= last {
        assert data[..0] == left;
        return 0;
      }
      assert data[lineStart..last] == left;
    }
  }

  /** What is owed splits into the report of the next stretch and what is owed after it. */
  lemma NextOwed(buffer: bytes, n: nat, rest: bytes, s: bytes, fname: bytes) returns (left: bytes)
    requires n <= |buffer| <= BUFSIZE && NEWLINE !in buffer[..n] && (n < |buffer| ==> buffer[n] == NEWLINE)
    requires n == |buffer| ==> rest == [] || |buffer| == BUFSIZE
    ensures left == if n < |buffer| then buffer[n + 1..] else []
    ensures Owed(buffer, rest, s, fname) == ReportOne(buffer[..n], s, fname) + Owed(left, rest, s, fname)
  {
    hide Report, ReportOne, Pieces;
    if n < |buffer| {
      LineInBuffer(buffer, rest, n, s, fname);
      left := buffer[n + 1..];
    } else {
      assert buffer[..n] == buffer && [] + rest == rest;
      BufferIsPiece(buffer, rest, s, fname);
      left := [];
    }
  }

  lemma Associative(a: bytes, b: bytes, c: bytes)
    ensures (a + b) + c == a + (b + c)
  {
  }

  // ---------- one file ----------

  /**
   do_one_file on a file name: exactly what the pieces of the file report, or the message and -1 when it
   cannot be opened; the same descriptors are open afterwards as before, so grep never runs out of them.
   `data` is the stack buffer with whatever was in it; its spare byte is not a newline.
   */
  method DoOneFile(k: System, s: bytes, fname: bytes, data: array<byte>) returns (r: int)
    requires k.Valid() && data !in k.frames && data.Length == BUFSIZE + 1 && data[BUFSIZE] != NEWLINE
    requires NulFree(s) && OpsFor(fname) == FileOps
    requires Opens(k, fname) ==> NulFree(Contents(k.img, Lookup(k.img, fname).value.inode))
    modifies k`pcbs, k`dirDentry, k`lastDentry, k`output, data
    ensures k.Valid()
    ensures !old(Opens(k, fname)) ==> r == -1 && k.output == old(k.output) + FILE_OPEN_FAILED
    ensures old(Opens(k, fname)) ==> r == 0
    ensures SameOpen(old(k.Pcb().fds), k.Pcb().fds)
    ensures old(Opens(k, fname)) ==>
      k.output == old(k.output) + Report(Pieces(Contents(k.img, Lookup(k.img, fname).value.inode)), s, fname)
  {
    hide Inv, Contents, Lookup, Report, Pieces;
    ghost var was := k.Pcb().fds;
    var fd := OpenName(k, fname);
    if fd == -1 {
      var w := WriteOut(k, FILE_OPEN_FAILED);
      return -1;
    }
    GrepOpenFile(k, s, fname, data, fd, Lookup(k.img, fname).value.inode);
    r := CloseFile(k, fd);
    StillOpen(was, k.Pcb().fds, fd);
  }

  /** The read call of the scanner: short only when it reaches the end of the file. */
  method Fill(k: System, fd: int, ghost inode: nat, ghost position: nat, ghost c: bytes, data: array<byte>, last: nat)
    returns (cnt: nat)
    requires k.Valid() && WellFormed(k.img) && Reading(k, fd, inode, position) && data !in k.frames
    requires data.Length == BUFSIZE + 1 && last < BUFSIZE && c == Contents(k.img, inode) && position <= |c|
    modifies k`pcbs, k`dirDentry, k`lastDentry, data
    ensures k.Valid() && Reading(k, fd, inode, position + cnt) && OnlyFd(old(k.Pcb().fds), k.Pcb().fds, fd)
    ensures last + cnt <= BUFSIZE && position + cnt <= |c|
    ensures last + cnt < BUFSIZE ==> position + cnt == |c|
    ensures data[..last + cnt] == old(data[..last]) + c[position..position + cnt]
    ensures data[BUFSIZE] == old(data[BUFSIZE])
    ensures old(Text(data, 0, last)) && NulFree(c) ==> Text(data, 0, last + cnt)
  {
    hide Inv, Contents, WellFormed, System.View, System.Valid, WithFd, Clip, Replaced;
    ghost var was := data[..];
    TextIsNulFree(data, last);
    assert data[..last] == was[..last];
    ClipIn(c, position, BUFSIZE - last, was, last);
    cnt := ReadFile(k, fd, inode, position, data, last, BUFSIZE - last);
    assert data[..last + cnt] == data[..][..last + cnt] && data[BUFSIZE] == data[..][BUFSIZE];
    TextIsNulFree(data, last + cnt);
    if NulFree(c) && NulFree(was[..last]) {
      NulFreeParts(was[..last], c, position, cnt);
    }
  }

  /** What a read delivers behind what the buffer already holds. */
  lemma ClipIn(c: bytes, position: nat, nbytes: nat, was: bytes, last: nat)
    requires position <= |c| && last + nbytes < |was|
    ensures var d := Clip(c, position, nbytes);
      && |d| <= nbytes && position + |d| <= |c| && (|d| < nbytes ==> position + |d| == |c|)
      && Replaced(was, last, d)[..last + |d|] == was[..last] + c[position..position + |d|]
      && Replaced(was, last, d)[last + nbytes] == was[last + nbytes]
  {
  }

  lemma TextIsNulFree(data: array<byte>, n: nat)
    requires n <= data.Length
    ensures Text(data, 0, n) <==> NulFree(data[..n])
  {
    assert forall i {:trigger data[i]} :: 0 <= i < n ==> data[..n][i] == data[i];
  }

  lemma NulFreeParts(a: bytes, c: bytes, from: nat, n: nat)
    requires NulFree(a) && NulFree(c) && from + n <= |c|
    ensures NulFree(a + c[from..from + n])
  {
    forall x | x in c[from..from + n] ensures x in c {
    }
  }

  lemma StillOpen(was: seq<Fd>, now: seq<Fd>, fd: int)
    requires OnlyFd(was, now, fd) && was[fd].flags == 0 && now[fd].flags == 0
    ensures SameOpen(was, now)
  {
  }

  method CloseFile(k: System, fd: int) returns (r: int)
    requires k.Valid() && 2 <= fd < MAX_FILES_NUMBER && k.Pcb().fds[fd].flags != 0
    modifies k`pcbs, k`lastDentry
    ensures k.Valid() && r == 0 && OnlyFd(old(k.Pcb().fds), k.Pcb().fds, fd) && k.Pcb().fds[fd].flags == 0
  {
    ghost var s := k.View();
    CloseKeepsInv(k.img, s, fd);
    CloseFreesDescriptor(s, fd);
    hide Inv, Close;
    r := k.SystemClose(fd);
  }

  lemma SameTable(k: System, fd: int, inode: nat, position: nat)
    requires Reading(k, fd, inode, position)
    ensures OnlyFd(k.Pcb().fds, k.Pcb().fds, fd)
  {
    assert Shaped(k.View()) && Current(k.View()) == k.Pcb();
  }

  lemma WholeOwed(c: bytes, s: bytes, fname: bytes)
    ensures Owed([], c, s, fname) == Report(Pieces(c), s, fname)
  {
    assert [] + c == c;
  }

  lemma NothingOwed(s: bytes, fname: bytes)
    ensures Owed([], [], s, fname) == []
  {
  }

  /** Bytes that move from the file into the buffer are owed all the same. */
  lemma OwedMoves(had: bytes, now: bytes, c: bytes, position: nat, cnt: nat, s: bytes, fname: bytes)
    requires position + cnt <= |c| && now == had + c[position..position + cnt]
    ensures Owed(now, c[position + cnt..], s, fname) == Owed(had, c[position..], s, fname)
  {
    assert now + c[position + cnt..] == had + c[position..];
  }

  /** The outer loop: read, scan, carry, until a read returns nothing. */
  method GrepOpenFile(k: System, s: bytes, fname: bytes, data: array<byte>, fd: int, ghost inode: nat)
    requires k.Valid() && WellFormed(k.img) && Reading(k, fd, inode, 0)
    requires data !in k.frames && data.Length == BUFSIZE + 1 && data[BUFSIZE] != NEWLINE
    requires NulFree(s) && NulFree(Contents(k.img, inode))
    modifies k`pcbs, k`dirDentry, k`lastDentry, k`output, data
    ensures k.Valid() && Reading(k, fd, inode, |Contents(k.img, inode)|) && OnlyFd(old(k.Pcb().fds), k.Pcb().fds, fd)
    ensures k.output == old(k.output) + Report(Pieces(Contents(k.img, inode)), s, fname)
  {
    hide Inv, Contents, WellFormed, System.View, System.Valid, Reading, Report, Pieces, Owed;
    ghost var c := Contents(k.img, inode);
    ghost var goal, position := k.output + Owed([], c, s, fname), 0;
    WholeOwed(c, s, fname);
    SameTable(k, fd, inode, 0);
    var last := 0;
    while true
      invariant k.Valid() && Reading(k, fd, inode, position) && position <= |c|
      invariant OnlyFd(old(k.Pcb().fds), k.Pcb().fds, fd)
      invariant 0 <= last < BUFSIZE && data[BUFSIZE] != NEWLINE && Text(data, 0, last)
      invariant k.output + Owed(data[..last], c[position..], s, fname) == goal
      decreases |c| - position
    {
      ghost var had := data[..last];
      var cnt := Fill(k, fd, inode, position, c, data, last);
      OwedMoves(had, data[..last + cnt], c, position, cnt, s, fname);
      position := position + cnt;
      last := ScanBuffer(k, s, fname, data, last + cnt, cnt, c[position..]);
      if cnt == 0 {
        assert data[..last] == c[position..] == [];
        NothingOwed(s, fname);
        return;
      }
    }
  }
}
