/** What reads deliver over a whole run: files through descriptors, names through the directory cursor. */
module KernelReads {
  import opened Bytes
  import opened FileImage
  import opened Directory
  import opened CommandLine
  import opened KernelSpec
  import opened KernelInvariant
  import opened KernelRuns

  // ---------- files ----------

  /** Descriptor fd of process n. */
  function FdOf(s: Kernel, n: int, fd: nat): Fd
    requires Shaped(s) && fd < MAX_FILES_NUMBER
  {
    PcbAt(s.pcbs, Slot(n)).fds[fd]
  }

  /** What the call delivers on process n's descriptor fd: something only when n itself reads it. */
  ghost function Delivery(img: bytes, s: Kernel, c: Call, n: int, fd: nat): bytes
    requires Inv(img, s)
  {
    if c.ReadCall? && c.fd == fd && s.total == n then Read(img, s, fd, c.nbytes, c.device).data else []
  }

  /** Everything a run delivers on it, in order. */
  ghost function Got(img: bytes, s: Kernel, cs: seq<Call>, n: int, fd: nat): bytes
    requires Inv(img, s) && RunOk(img, s, cs)
    decreases |cs|
  {
    if cs == [] then [] else Delivery(img, s, cs[0], n, fd) + Got(img, Next(img, s, cs[0]), cs[1..], n, fd)
  }

  /** Process n stays alive, and does not close fd; anything else may happen, in n or in its descendants. */
  ghost predicate Keeps(img: bytes, s: Kernel, cs: seq<Call>, n: int, fd: nat)
    requires Inv(img, s) && RunOk(img, s, cs)
    decreases |cs|
  {
    && n <= s.total
    && (cs != [] ==> !(cs[0] == CloseCall(fd) && s.total == n) && Keeps(img, Next(img, s, cs[0]), cs[1..], n, fd))
  }

  ghost predicate OpenFile(s: Kernel, n: int, fd: nat)
    requires Shaped(s)
  {
    fd < MAX_FILES_NUMBER && FdOf(s, n, fd).flags == 1 && FdOf(s, n, fd).ops == FileOps
  }

  /** `got` is what the file holds from `from` on. */
  predicate Covers(c: bytes, from: nat, got: bytes) {
    from + |got| <= |c| && got == c[from..from + |got|]
  }

  lemma CoversMore(c: bytes, from: nat, got: bytes, more: bytes)
    requires Covers(c, from, got) && Covers(c, from + |got|, more)
    ensures Covers(c, from, got + more)
  {
  }

  lemma FileInRange(img: bytes, s: Kernel, n: int, fd: nat)
    requires Inv(img, s) && 1 <= n <= s.total && OpenFile(s, n, fd)
    ensures FdOf(s, n, fd).position <= |Contents(img, FdOf(s, n, fd).inode)|
  {
    assert LiveOk(img, PcbAt(s.pcbs, Slot(n)), n);
    assert FdOk(img, FdOf(s, n, fd));
  }

  lemma ReadStep(img: bytes, s: Kernel, i: int, nbytes: int, device: bytes, fd: nat)
    requires Inv(img, s) && OpenFile(s, s.total, fd)
    ensures var r, f := Read(img, s, i, nbytes, device), FdOf(s, s.total, fd);
      && FdOf(r.state, s.total, fd) == (if i == fd then Moved(f, |r.data|) else f)
      && (i == fd ==> Covers(Contents(img, f.inode), f.position, r.data))
  {
    ReadMovesPosition(img, s, i, nbytes, device);
    FileInRange(img, s, s.total, fd);
  }

  lemma OpenStep(img: bytes, s: Kernel, name: bytes, fd: nat)
    requires Inv(img, s) && OpenFile(s, s.total, fd)
    ensures FdOf(Open(img, s, name).state, s.total, fd) == FdOf(s, s.total, fd)
  {
    OpenTakesLeastFree(img, s, name);
  }

  lemma CloseStep(img: bytes, s: Kernel, i: int, fd: nat)
    requires Inv(img, s) && OpenFile(s, s.total, fd) && i != fd
    ensures FdOf(Close(s, i).state, s.total, fd) == FdOf(s, s.total, fd)
  {
  }

  lemma ExecuteStep(img: bytes, s: Kernel, command: bytes, esp: int, ebp: int, fd: nat)
    requires Inv(img, s) && Mask(esp) == s.current && OpenFile(s, s.total, fd)
    ensures FdOf(Execute(img, s, command, esp, ebp).0, s.total, fd) == FdOf(s, s.total, fd)
  {
    if Program(img, Parse(command).name).Some? && !AtLimit(s) {
      ExecutedChild(img, s, command, esp, ebp);
    }
  }

  lemma HaltStep(img: bytes, s: Kernel, status: int, fd: nat)
    requires Inv(img, s) && s.total <= Halt(img, s, status).0.total && OpenFile(s, s.total, fd)
    ensures FdOf(Halt(img, s, status).0, s.total, fd) == FdOf(s, s.total, fd)
  {
    if s.total == 1 {
      RestartedShellKeepsDescriptors(img, s, status);
      assert Current(s).fds[fd].flags != 0;
    }
  }

  lemma WriteStep(img: bytes, s: Kernel, i: int, data: bytes, fd: nat)
    requires Inv(img, s) && OpenFile(s, s.total, fd)
    ensures FdOf(Write(s, i, data).state, s.total, fd) == FdOf(s, s.total, fd)
  {
  }

  lemma OwnStep(img: bytes, s: Kernel, c: Call, fd: nat)
    requires Inv(img, s) && CallOk(s, c) && s.total <= Next(img, s, c).total
    requires OpenFile(s, s.total, fd) && c != CloseCall(fd)
    ensures FdOf(Next(img, s, c), s.total, fd) == Moved(FdOf(s, s.total, fd), |Delivery(img, s, c, s.total, fd)|)
  {
    hide Open, Close, Read, Write, Execute, Halt, LiveOk, WellFormed, Program;
    match c
    case OpenCall(name) => OpenStep(img, s, name, fd);
    case CloseCall(i) => CloseStep(img, s, i, fd);
    case ReadCall(i, n, device) => ReadStep(img, s, i, n, device, fd);
    case WriteCall(i, data) => WriteStep(img, s, i, data, fd);
    case VidmapCall(_, _) =>
    case ExecuteCall(command, esp, ebp) => ExecuteStep(img, s, command, esp, ebp, fd);
    case HaltCall(status) => HaltStep(img, s, status, fd);
    case Store(_, _) =>
  }

  lemma DeliveryCovers(img: bytes, s: Kernel, c: Call, n: int, fd: nat)
    requires Inv(img, s) && 1 <= n <= s.total && OpenFile(s, n, fd)
    ensures Covers(Contents(img, FdOf(s, n, fd).inode), FdOf(s, n, fd).position, Delivery(img, s, c, n, fd))
  {
    FileInRange(img, s, n, fd);
    if c.ReadCall? && c.fd == fd && s.total == n {
      ReadStep(img, s, c.fd, c.nbytes, c.device, fd);
    }
  }

  /** One step: the descriptor of a process that lives on moves by what was delivered on it. */
  lemma FdStep(img: bytes, s: Kernel, c: Call, n: int, fd: nat)
    requires Inv(img, s) && CallOk(s, c) && 1 <= n <= s.total && n <= Next(img, s, c).total
    requires OpenFile(s, n, fd) && !(c == CloseCall(fd) && s.total == n)
    ensures var t, f, d := Next(img, s, c), FdOf(s, n, fd), Delivery(img, s, c, n, fd);
      FdOf(t, n, fd) == Moved(f, |d|) && Covers(Contents(img, f.inode), f.position, d)
  {
    DeliveryCovers(img, s, c, n, fd);
    if n < s.total {
      StepAbove(img, s, c, n);
    } else {
      OwnStep(img, s, c, fd);
    }
  }

  /**
   For any interleaving of reads on any descriptors, with any other calls and any children in between:
   the bytes delivered on a file descriptor while its process lives and keeps it open are exactly the
   file from where the descriptor stood, and the descriptor has moved on by as many.
   */
  lemma {:induction false} ReadsDeliverTheFile(img: bytes, s: Kernel, cs: seq<Call>, n: int, fd: nat)
    requires Inv(img, s) && RunOk(img, s, cs) && 1 <= n && Keeps(img, s, cs, n, fd) && OpenFile(s, n, fd)
    ensures var t, f, got := Run(img, s, cs), FdOf(s, n, fd), Got(img, s, cs, n, fd);
      FdOf(t, n, fd) == Moved(f, |got|) && Covers(Contents(img, f.inode), f.position, got)
    decreases |cs|
  {
    hide Next, LiveOk, Delivery, Covers, Contents, FdOf;
    if cs == [] {
      NothingCovered(img, s, n, fd);
    } else {
      var t, f := Next(img, s, cs[0]), FdOf(s, n, fd);
      FdStep(img, s, cs[0], n, fd);
      ReadsDeliverTheFile(img, t, cs[1..], n, fd);
      CoversMore(Contents(img, f.inode), f.position, Delivery(img, s, cs[0], n, fd), Got(img, t, cs[1..], n, fd));
    }
  }

  lemma NothingCovered(img: bytes, s: Kernel, n: int, fd: nat)
    requires Inv(img, s) && 1 <= n <= s.total && OpenFile(s, n, fd)
    ensures Covers(Contents(img, FdOf(s, n, fd).inode), FdOf(s, n, fd).position, [])
  {
    FileInRange(img, s, n, fd);
  }

  /** Once a read for at least one byte returns 0, the whole file has been delivered; before that, it has not. */
  lemma ReadToTheEnd(img: bytes, s: Kernel, cs: seq<Call>, fd: nat, nbytes: int, device: bytes)
    requires Inv(img, s) && RunOk(img, s, cs) && Run(img, s, cs).total == s.total
    requires Keeps(img, s, cs, s.total, fd) && OpenFile(s, s.total, fd) && FdOf(s, s.total, fd).position == 0
    requires 0 < nbytes
    ensures Read(img, Run(img, s, cs), fd, nbytes, device).count == 0
      <==> Got(img, s, cs, s.total, fd) == Contents(img, FdOf(s, s.total, fd).inode)
  {
    hide Next, LiveOk;
    ReadsDeliverTheFile(img, s, cs, s.total, fd);
    var t := Run(img, s, cs);
    ReadMovesPosition(img, t, fd, nbytes, device);
  }

  // ---------- the directory ----------

  /** What the directory reads as: the entry looked up when it was opened, then the others by index. */
  function Listing(img: bytes, first: bytes): (names: seq<bytes>)
    requires WellFormed(img)
    ensures |names| == DentryCount(img)
  {
    if DentryCount(img) == 0 then [] else [first] + Names(img)[1..]
  }

  predicate OpenDir(s: Kernel, fd: int)
    requires Shaped(s)
  {
    IsOpen(s, fd) && Current(s).fds[fd].ops == DirOps
  }

  /** The global cursor of dir_read stands at an entry of the listing, or behind the last. */
  predicate CursorAt(img: bytes, s: Kernel, first: bytes, k: nat)
    requires WellFormed(img)
  {
    s.lastDentry == k <= DentryCount(img) && (k < DentryCount(img) ==> s.dirDentry.name == Listing(img, first)[k])
  }

  lemma DirReadStep(img: bytes, s: Kernel, fd: int, nbytes: int, device: bytes, first: bytes, k: nat)
    requires WellFormed(img) && Shaped(s) && OpenDir(s, fd) && CursorAt(img, s, first, k)
    ensures var r := Read(img, s, fd, nbytes, device);
      && OpenDir(r.state, fd) && r.count == |r.data|
      && r.data == (if k < DentryCount(img) then Listing(img, first)[k] else [])
      && CursorAt(img, r.state, first, if k < DentryCount(img) then k + 1 else k)
  {
    DirReadIs(img, s, fd, nbytes, device);
    hide Read, Contents, Clip, Lookup, WellFormed, Advance;
    if k < DentryCount(img) {
      var next := match LookupIndex(img, k + 1) case None => s.dirDentry case Some(e) => e;
      AdvanceKeepsDir(s.(lastDentry := k + 1, dirDentry := next), fd, s.dirDentry.name);
    } else {
      AdvanceKeepsDir(s, fd, []);
    }
  }

  lemma DirReadIs(img: bytes, s: Kernel, fd: int, nbytes: int, device: bytes)
    requires WellFormed(img) && Shaped(s) && OpenDir(s, fd)
    ensures Read(img, s, fd, nbytes, device) ==
      if s.lastDentry >= DentryCount(img) then Advance(s, fd, [])
      else
        var next := match LookupIndex(img, s.lastDentry + 1) case None => s.dirDentry case Some(e) => e;
        Advance(s.(lastDentry := s.lastDentry + 1, dirDentry := next), fd, s.dirDentry.name)
  {
    hide Contents, Clip, Lookup, LookupIndex;
  }

  lemma AdvanceKeepsDir(s: Kernel, fd: nat, data: bytes)
    requires Shaped(s) && OpenDir(s, fd)
    ensures var r := Advance(s, fd, data);
      && OpenDir(r.state, fd) && r.count == |r.data| && r.data == data
      && r.state.dirDentry == s.dirDentry && r.state.lastDentry == s.lastDentry
  {
  }

  /** The state after the directory has been read n times. */
  ghost function AfterReads(img: bytes, s: Kernel, fd: int, n: nat): (t: Kernel)
    requires WellFormed(img) && Shaped(s)
    ensures Shaped(t)
  {
    if n == 0 then s else Read(img, AfterReads(img, s, fd, n - 1), fd, FILE_NAME_LENGTH, []).state
  }

  /** The directory is open and the cursor is where n reads from its start leave it. */
  predicate AfterEntries(img: bytes, t: Kernel, fd: int, first: bytes, n: nat)
    requires WellFormed(img) && Shaped(t)
  {
    OpenDir(t, fd) && CursorAt(img, t, first, Min(n, DentryCount(img)))
  }

  lemma ReadEntryStep(img: bytes, t: Kernel, fd: int, first: bytes, n: nat)
    requires WellFormed(img) && Shaped(t) && AfterEntries(img, t, fd, first, n)
    ensures var r := Read(img, t, fd, FILE_NAME_LENGTH, []);
      && AfterEntries(img, r.state, fd, first, n + 1)
      && r.data == if n < DentryCount(img) then Listing(img, first)[n] else []
  {
    DirReadStep(img, t, fd, FILE_NAME_LENGTH, [], first, Min(n, DentryCount(img)));
    hide Read, Listing, CursorAt, OpenDir, Shaped;
  }

  lemma {:induction false} EntriesAfterReads(img: bytes, s: Kernel, fd: int, first: bytes, n: nat)
    requires WellFormed(img) && Shaped(s) && AfterEntries(img, s, fd, first, 0)
    ensures AfterEntries(img, AfterReads(img, s, fd, n), fd, first, n)
  {
    hide Read, WellFormed, Shaped, AfterEntries;
    if n > 0 {
      EntriesAfterReads(img, s, fd, first, n - 1);
      ReadEntryStep(img, AfterReads(img, s, fd, n - 1), fd, first, n - 1);
    }
  }

  /** Reading the open directory over and over gives each entry of the listing once, in order, and then 0 forever. */
  lemma NthDirRead(img: bytes, s: Kernel, fd: int, first: bytes, n: nat)
    requires WellFormed(img) && Shaped(s) && OpenDir(s, fd) && CursorAt(img, s, first, 0)
    ensures var t := AfterReads(img, s, fd, n);
      && OpenDir(t, fd) && CursorAt(img, t, first, Min(n, DentryCount(img)))
      && Read(img, t, fd, FILE_NAME_LENGTH, []).data == (if n < DentryCount(img) then Listing(img, first)[n] else [])
  {
    EntriesAfterReads(img, s, fd, first, n);
    ReadEntryStep(img, AfterReads(img, s, fd, n), fd, first, n);
    hide Read, CursorAt, OpenDir, Shaped, AfterReads, Listing;
  }

  predicate ReadsDir(s: Kernel, c: Call)
    requires Shaped(s)
  {
    c.ReadCall? && OpenDir(s, c.fd)
  }

  /** The call neither opens the directory nor closes a descriptor that is open on it. */
  predicate LeavesCursor(s: Kernel, c: Call)
    requires Shaped(s)
  {
    && (c.OpenCall? ==> c.name != DOT)
    && (c.CloseCall? && 2 <= c.fd ==> !OpenDir(s, c.fd))
  }

  ghost predicate RunLeavesCursor(img: bytes, s: Kernel, cs: seq<Call>)
    requires Inv(img, s) && RunOk(img, s, cs)
    decreases |cs|
  {
    cs != [] ==> LeavesCursor(s, cs[0]) && RunLeavesCursor(img, Next(img, s, cs[0]), cs[1..])
  }

  ghost function DirData(img: bytes, s: Kernel, c: Call): bytes
    requires WellFormed(img) && Shaped(s) && ReadsDir(s, c)
  {
    Read(img, s, c.fd, c.nbytes, c.device).data
  }

  /** What a run's directory reads deliver, in order, on whatever descriptors of whatever processes. */
  ghost function DirGot(img: bytes, s: Kernel, cs: seq<Call>): seq<bytes>
    requires Inv(img, s) && RunOk(img, s, cs)
    decreases |cs|
  {
    if cs == [] then []
    else
      (if ReadsDir(s, cs[0]) then [DirData(img, s, cs[0])] else [])
      + DirGot(img, Next(img, s, cs[0]), cs[1..])
  }

  lemma OpenLeavesCursor(img: bytes, s: Kernel, name: bytes)
    requires WellFormed(img) && Shaped(s) && name != DOT
    ensures var t := Open(img, s, name).state; t.dirDentry == s.dirDentry && t.lastDentry == s.lastDentry
  {
  }

  lemma ReadLeavesCursor(img: bytes, s: Kernel, fd: int, nbytes: int, device: bytes)
    requires WellFormed(img) && Shaped(s) && !OpenDir(s, fd)
    ensures var t := Read(img, s, fd, nbytes, device).state; t.dirDentry == s.dirDentry && t.lastDentry == s.lastDentry
  {
  }

  lemma ExecuteLeavesCursor(img: bytes, s: Kernel, command: bytes, esp: int, ebp: int)
    requires ImageOk(img) && Shaped(s) && 0 <= s.total
    ensures var t := Execute(img, s, command, esp, ebp).0; t.dirDentry == s.dirDentry && t.lastDentry == s.lastDentry
  {
    var program := Program(img, Parse(command).name);
    if program.Some? && s.total < MAXIMUM_PROCESS - 1 {
      EquippedFds(img, Spawned(s, program.value, Parse(command).args, esp, ebp));
    }
  }

  lemma StepLeavesCursor(img: bytes, s: Kernel, c: Call)
    requires Inv(img, s) && CallOk(s, c) && LeavesCursor(s, c) && !ReadsDir(s, c)
    ensures var t := Next(img, s, c); t.dirDentry == s.dirDentry && t.lastDentry == s.lastDentry
  {
    hide Open, Read, Execute, LiveOk;
    match c
    case OpenCall(name) => OpenLeavesCursor(img, s, name);
    case ReadCall(fd, n, device) => ReadLeavesCursor(img, s, fd, n, device);
    case ExecuteCall(command, esp, ebp) => ExecuteLeavesCursor(img, s, command, esp, ebp);
    case HaltCall(status) =>
      if s.total == 1 {
        ExecuteLeavesCursor(img, s.(total := 0), SHELL, 0, 0);
      }
    case _ =>
  }

  /** The n entries of the listing from the k-th on, and nothing after the last. */
  function Stretch(img: bytes, first: bytes, k: nat, n: nat): (names: seq<bytes>)
    requires WellFormed(img)
    ensures |names| == n
  {
    seq(n, i requires 0 <= i < n => if k + i < DentryCount(img) then Listing(img, first)[k + i] else [])
  }

  lemma StretchStep(img: bytes, first: bytes, k: nat, n: nat)
    requires WellFormed(img)
    ensures var next := if k < DentryCount(img) then k + 1 else k;
      Stretch(img, first, k, n + 1)
      == [if k < DentryCount(img) then Listing(img, first)[k] else []] + Stretch(img, first, next, n)
  {
    hide Listing;
    var next := if k < DentryCount(img) then k + 1 else k;
    var whole, rest := Stretch(img, first, k, n + 1), Stretch(img, first, next, n);
    forall i | 0 < i <= n ensures whole[i] == rest[i - 1] {
    }
  }

  /** The names delivered are the listing's from the k-th on, and the cursor stands behind them. */
  ghost predicate NamesAreNext(img: bytes, names: seq<bytes>, t: Kernel, first: bytes, k: nat) {
    && WellFormed(img) && names == Stretch(img, first, k, |names|)
    && CursorAt(img, t, first, Min(k + |names|, DentryCount(img)))
  }

  /**
   In any run that does not open or close the directory, the reads of it on all descriptors together, by any
   process, deliver the next stretch of the one listing: the cursor is global, so readers share it.
   */
  lemma {:induction false} DirReadsShareTheListing(img: bytes, s: Kernel, cs: seq<Call>, first: bytes, k: nat)
    requires Inv(img, s) && RunOk(img, s, cs) && RunLeavesCursor(img, s, cs) && CursorAt(img, s, first, k)
    ensures NamesAreNext(img, DirGot(img, s, cs), Run(img, s, cs), first, k)
    decreases |cs|
  {
    NothingRead(img, s, first, k);
    hide NamesAreNext, Next, LiveOk, Listing, Read, Stretch, CursorAt, LeavesCursor, ReadsDir, CallOk, DentryCount,
      WellFormed, ImageOk, OpenDir, Inv, Shaped, DirData;
    if cs != [] {
      var c, t := cs[0], Next(img, s, cs[0]);
      var rest := DirGot(img, t, cs[1..]);
      if ReadsDir(s, c) {
        DirCallStep(img, s, c, first, k);
        var next := if k < DentryCount(img) then k + 1 else k;
        DirReadsShareTheListing(img, t, cs[1..], first, next);
        NamesMore(img, DirData(img, s, c), rest, Run(img, t, cs[1..]), first, k);
        assert DirGot(img, s, cs) == [DirData(img, s, c)] + rest;
      } else {
        StepLeavesCursor(img, s, c);
        SameCursor(img, s, t, first, k);
        DirReadsShareTheListing(img, t, cs[1..], first, k);
        assert DirGot(img, s, cs) == [] + rest == rest;
      }
    }
  }

  lemma NamesMore(img: bytes, name: bytes, rest: seq<bytes>, t: Kernel, first: bytes, k: nat)
    requires WellFormed(img) && name == (if k < DentryCount(img) then Listing(img, first)[k] else [])
    requires k <= DentryCount(img) && NamesAreNext(img, rest, t, first, if k < DentryCount(img) then k + 1 else k)
    ensures NamesAreNext(img, [name] + rest, t, first, k)
  {
    hide Listing, CursorAt, WellFormed;
    StretchStep(img, first, k, |rest|);
  }

  lemma SameCursor(img: bytes, s: Kernel, t: Kernel, first: bytes, k: nat)
    requires WellFormed(img) && CursorAt(img, s, first, k) && t.dirDentry == s.dirDentry && t.lastDentry == s.lastDentry
    ensures CursorAt(img, t, first, k)
  {
  }

  lemma NothingRead(img: bytes, s: Kernel, first: bytes, k: nat)
    requires Inv(img, s) && CursorAt(img, s, first, k)
    ensures NamesAreNext(img, [], s, first, k) && 8 <= |img| && k <= DentryCount(img) && Shaped(s)
  {
  }

  lemma DirCallStep(img: bytes, s: Kernel, c: Call, first: bytes, k: nat)
    requires Inv(img, s) && CallOk(s, c) && ReadsDir(s, c) && CursorAt(img, s, first, k)
    ensures CursorAt(img, Next(img, s, c), first, if k < DentryCount(img) then k + 1 else k)
    ensures DirData(img, s, c) == (if k < DentryCount(img) then Listing(img, first)[k] else [])
  {
    DirReadStep(img, s, c.fd, c.nbytes, c.device, first, k);
  }

  /** The name a listing begins with: "." where the directory has it, and otherwise the last entry that was looked up. */
  function FirstListed(img: bytes, s: Kernel): (name: bytes)
    requires WellFormed(img) && Shaped(s)
    ensures |name| <= FILE_NAME_LENGTH
  {
    if DOT in Names(img) then DOT else s.dirDentry.name
  }

  /** Opening "." puts the cursor at the start of a listing, whether or not the directory has that name. */
  lemma OpenDirCursor(img: bytes, s: Kernel)
    requires WellFormed(img) && Shaped(s) && FirstFree(Current(s).fds, 0) < MAX_FILES_NUMBER
    ensures var r := Open(img, s, DOT);
      && r.value == FirstFree(Current(s).fds, 0) && OpenDir(r.state, r.value)
      && CursorAt(img, r.state, FirstListed(img, s), 0)
  {
    LookupIsLeastIndex(img, DOT);
    OpenTakesLeastFree(img, s, DOT);
  }

  /** What ls makes of a list of names: one a line, up to the first that is empty. */
  function NameLines(names: seq<bytes>): bytes {
    if names == [] || names[0] == [] then [] else names[0] + [NEWLINE] + NameLines(names[1..])
  }

  /** When no name is empty, ls prints the directory exactly when "." is its first entry. */
  lemma ListingIsDirectory(img: bytes)
    requires WellFormed(img) && DOT in Names(img) && [] !in Names(img)
    ensures NameLines(Listing(img, DOT)) == NameLines(Names(img)) <==> Names(img)[0] == DOT
  {
    var names := Names(img);
    var l := Listing(img, DOT);
    assert l[1..] == names[1..] && names[0] in names;
    var rest := NameLines(names[1..]);
    assert names[0] == DOT ==> l == names;
    if NameLines(l) == NameLines(names) {
      assert |names[0]| == 1;
      assert (names[0] + [NEWLINE] + rest)[0] == (DOT + [NEWLINE] + rest)[0];
    }
  }
}
