/** The user programs cat and ls, run on the kernel's own system calls. */
module Programs {
  import opened Bytes
  import opened FileImage
  import opened Directory
  import opened KernelSpec
  import opened KernelInvariant
  import opened KernelReads
  import opened KernelCode
  import GrepSpec

  /** "file not found\n" */
  const FILE_NOT_FOUND: bytes := [102, 105, 108, 101, 32, 110, 111, 116, 32, 102, 111, 117, 110, 100, 10]

  /** "directory open failed\n" */
  const DIR_OPEN_FAILED: bytes :=
    [100, 105, 114, 101, 99, 116, 111, 114, 121, 32, 111, 112, 101, 110, 32, 102, 97, 105, 108, 101, 100, 10]

  /** "file read failed\n" */
  const FILE_READ_FAILED: bytes := [102, 105, 108, 101, 32, 114, 101, 97, 100, 32, 102, 97, 105, 108, 101, 100, 10]

  // ---------- what a descriptor still has to deliver ----------

  /** Descriptor fd is open, with the read and write functions `ops`. */
  predicate OpenFor(s: Kernel, fd: int, ops: Ops)
    requires Shaped(s)
  {
    IsOpen(s, fd) && Current(s).fds[fd].ops == ops
  }

  /** What reads of an open descriptor deliver until one delivers nothing; a read of the keyboard always delivers more. */
  ghost function Remaining(img: bytes, s: Kernel, fd: int): bytes
    requires WellFormed(img) && Shaped(s) && IsOpen(s, fd)
  {
    var d := Current(s).fds[fd];
    match d.ops
    case FileOps => Contents(img, d.inode)[Min(d.position, |Contents(img, d.inode)|)..]
    case DirOps => NameText(NamesAhead(img, s.dirDentry.name, s.lastDentry))
    case _ => []
  }

  /** Names run together, up to the first that is empty. */
  function NameText(names: seq<bytes>): bytes {
    if names == [] || names[0] == [] then [] else names[0] + NameText(names[1..])
  }

  /** The directory from its k-th entry on, read when the cursor's entry has this name. */
  function NamesAhead(img: bytes, name: bytes, k: nat): (names: seq<bytes>)
    requires WellFormed(img)
    ensures k == 0 ==> names == Listing(img, name)
  {
    if k < DentryCount(img) then [name] + Names(img)[k + 1..] else []
  }

  lemma ClipTakes(c: bytes, position: nat, nbytes: nat)
    requires position <= |c| && 0 < nbytes
    ensures var d := Clip(c, position, nbytes);
      && |d| <= nbytes && position + |d| <= |c| && c[position..] == d + c[position + |d|..]
      && (d == [] ==> position == |c|)
  {
  }

  lemma FileRemaining(img: bytes, s: Kernel, fd: nat)
    requires Inv(img, s) && OpenFor(s, fd, FileOps)
    ensures fd < MAX_FILES_NUMBER && WellFormed(img) && Shaped(s) && IsOpen(s, fd)
    ensures var d, c := Current(s).fds[fd], Contents(img, Current(s).fds[fd].inode);
      d.position <= |c| && Remaining(img, s, fd) == c[d.position..]
  {
    FirstFreeOfLive(img, s);
    assert FdOk(img, Current(s).fds[fd]);
    hide Contents;
  }

  lemma FileReadIs(img: bytes, s: Kernel, fd: nat, nbytes: nat)
    requires WellFormed(img) && Shaped(s) && OpenFor(s, fd, FileOps)
    ensures var d, r := Current(s).fds[fd], Read(img, s, fd, nbytes, []);
      && r.data == Clip(Contents(img, d.inode), d.position, nbytes) && r.count == |r.data|
      && OpenFor(r.state, fd, FileOps)
      && Current(r.state).fds[fd].inode == d.inode && Current(r.state).fds[fd].position == d.position + r.count
  {
    hide Contents, Clip;
  }

  /** After a read that moved a descriptor and delivered `data`, the rest remains. */
  ghost predicate Takes(img: bytes, s: Kernel, t: Kernel, fd: int, data: bytes)
    requires WellFormed(img) && Shaped(s) && Shaped(t) && IsOpen(s, fd) && IsOpen(t, fd)
  {
    Remaining(img, s, fd) == if data == [] then [] else data + Remaining(img, t, fd)
  }

  lemma TakesRest(img: bytes, s: Kernel, t: Kernel, fd: int, data: bytes)
    requires WellFormed(img) && Shaped(s) && Shaped(t) && IsOpen(s, fd) && IsOpen(t, fd)
    requires Remaining(img, s, fd) == if data == [] then [] else data + Remaining(img, t, fd)
    ensures Takes(img, s, t, fd, data)
  {
  }

  lemma FileReadTakes(img: bytes, s: Kernel, fd: nat, nbytes: nat)
    requires WellFormed(img) && Shaped(s) && Inv(img, s) && OpenFor(s, fd, FileOps) && 0 < nbytes
    ensures var r := Read(img, s, fd, nbytes, []);
      r.count == |r.data| <= nbytes && OpenFor(r.state, fd, FileOps) && Takes(img, s, r.state, fd, r.data)
  {
    hide Inv, Read, Contents, Remaining, WellFormed, Clip, Takes;
    var d, r := Current(s).fds[fd], Read(img, s, fd, nbytes, []);
    var t, c := r.state, Contents(img, d.inode);
    FileReadIs(img, s, fd, nbytes);
    ReadKeepsInv(img, s, fd, nbytes, []);
    FileRemaining(img, s, fd);
    FileRemaining(img, t, fd);
    ClipTakes(c, d.position, nbytes);
    TakesOn(c, d.position, r.data, Remaining(img, s, fd), Remaining(img, t, fd));
    TakesRest(img, s, t, fd, r.data);
  }

  lemma TakesOn(c: bytes, position: nat, d: bytes, before: bytes, after: bytes)
    requires position + |d| <= |c| && before == c[position..] && after == c[position + |d|..]
    requires c[position..] == d + c[position + |d|..] && (d == [] ==> position == |c|)
    ensures before == if d == [] then [] else d + after
  {
  }

  lemma NamesAheadStep(img: bytes, dentry: Dentry, k: nat)
    requires WellFormed(img) && k < DentryCount(img)
    ensures var next := match LookupIndex(img, k + 1) case None => dentry case Some(e) => e;
      NamesAhead(img, dentry.name, k) == [dentry.name] + NamesAhead(img, next.name, k + 1)
  {
    var names := Names(img);
    if k + 1 < DentryCount(img) {
      assert names[k + 1..] == [names[k + 1]] + names[k + 2..];
    }
  }

  lemma NameTextStep(name: bytes, names: seq<bytes>)
    ensures NameText([name] + names) == if name == [] then [] else name + NameText(names)
  {
    assert ([name] + names)[1..] == names;
  }

  lemma DirRemaining(img: bytes, s: Kernel, fd: int)
    requires WellFormed(img) && Shaped(s) && OpenDir(s, fd)
    ensures 8 <= |img| && OpenFor(s, fd, DirOps)
    ensures Remaining(img, s, fd) == NameText(NamesAhead(img, s.dirDentry.name, s.lastDentry))
  {
  }

  lemma NothingAhead(img: bytes, name: bytes, k: nat)
    requires WellFormed(img) && DentryCount(img) <= k
    ensures NamesAhead(img, name, k) == []
  {
  }

  /** The cursor moved on by one entry. */
  function NextEntry(img: bytes, s: Kernel): (u: Kernel)
    requires WellFormed(img) && Shaped(s)
    ensures Shaped(u)
  {
    var next := match LookupIndex(img, s.lastDentry + 1) case None => s.dirDentry case Some(e) => e;
    s.(lastDentry := s.lastDentry + 1, dirDentry := next)
  }

  lemma NextEntryAhead(img: bytes, s: Kernel, fd: nat)
    requires WellFormed(img) && Shaped(s) && OpenDir(s, fd) && s.lastDentry < DentryCount(img)
    ensures var u := NextEntry(img, s);
      && fd < MAX_FILES_NUMBER && OpenDir(u, fd)
      && NamesAhead(img, s.dirDentry.name, s.lastDentry)
        == [s.dirDentry.name] + NamesAhead(img, u.dirDentry.name, u.lastDentry)
  {
    hide WellFormed, NamesAhead, LookupIndex;
    NamesAheadStep(img, s.dirDentry, s.lastDentry);
  }

  lemma DirReadIsNext(img: bytes, s: Kernel, fd: nat, nbytes: nat)
    requires WellFormed(img) && Shaped(s) && OpenDir(s, fd)
    ensures 8 <= |img| && fd < MAX_FILES_NUMBER
    ensures Read(img, s, fd, nbytes, []) == if s.lastDentry < DentryCount(img)
      then Advance(NextEntry(img, s), fd, s.dirDentry.name) else Advance(s, fd, [])
  {
    DirReadIs(img, s, fd, nbytes, []);
    hide Read, LookupIndex, Advance;
  }

  lemma DirReadTakes(img: bytes, s: Kernel, fd: nat, nbytes: nat)
    requires WellFormed(img) && Shaped(s) && OpenDir(s, fd)
    ensures var r := Read(img, s, fd, nbytes, []);
      && r.count == |r.data| && r.data in {s.dirDentry.name, []} && OpenDir(r.state, fd)
      && Takes(img, s, r.state, fd, r.data)
  {
    hide *;
    DirReadIsNext(img, s, fd, nbytes);
    DirRemaining(img, s, fd);
    var name, u := s.dirDentry.name, NextEntry(img, s);
    if s.lastDentry < DentryCount(img) {
      NextEntryAhead(img, s, fd);
      AdvanceKeepsDir(u, fd, name);
      DirRemaining(img, Advance(u, fd, name).state, fd);
      NameTextStep(name, NamesAhead(img, u.dirDentry.name, u.lastDentry));
    } else {
      AdvanceKeepsDir(s, fd, []);
      NothingAhead(img, name, s.lastDentry);
      NameTextOfNone();
    }
    var r := Read(img, s, fd, nbytes, []);
    TakesRest(img, s, r.state, fd, r.data);
  }

  lemma NameTextOfNone()
    ensures NameText([]) == []
  {
  }

  /** A read fails on the console, and on anything else takes from what remains; it delivers nothing only at the end. */
  lemma ReadTakes(img: bytes, s: Kernel, fd: int, ops: Ops, nbytes: nat)
    requires Inv(img, s) && OpenFor(s, fd, ops) && ops != StdinOps && FILE_NAME_LENGTH <= nbytes
    ensures var r := Read(img, s, fd, nbytes, []);
      && OpenFor(r.state, fd, ops)
      && if ops == StdoutOps then r.count == -1 && r.data == []
        else
          && r.count == |r.data| <= (if ops == DirOps then FILE_NAME_LENGTH else nbytes)
          && Takes(img, s, r.state, fd, r.data)
  {
    if ops == FileOps {
      FileReadTakes(img, s, fd, nbytes);
    } else if ops == DirOps {
      DirReadTakes(img, s, fd, nbytes);
    } else {
      FirstFreeOfLive(img, s);
      assert FdOk(img, Current(s).fds[fd]);
    }
  }

  // ---------- system calls as a program sees them ----------

  ghost predicate Reads(k: System, fd: int, ops: Ops)
    reads k, k.frames
  {
    k.Valid() && OpenFor(k.View(), fd, ops)
  }

  ghost function Left(k: System, fd: int, ops: Ops): bytes
    requires Reads(k, fd, ops)
    reads k, k.frames
  {
    Remaining(k.img, k.View(), fd)
  }

  /** Descriptor fd of the running process is open on a file, at a position. */
  ghost predicate Reading(k: System, fd: int, inode: nat, position: nat)
    reads k, k.frames
  {
    k.Valid() && WellFormed(k.img) && 0 <= fd < MAX_FILES_NUMBER && k.Pcb().fds[fd] == Fd(FileOps, inode, position, 1)
  }

  lemma OutputLeavesRemaining(img: bytes, s: Kernel, t: Kernel)
    requires WellFormed(img) && Shaped(s) && t == s.(output := t.output)
    ensures forall fd, ops {:trigger OpenFor(t, fd, ops)} {:trigger OpenFor(s, fd, ops)} ::
      OpenFor(s, fd, ops) ==> OpenFor(t, fd, ops) && Remaining(img, t, fd) == Remaining(img, s, fd)
  {
    hide Contents, NameText, NamesAhead, WellFormed;
  }

  /** Writing to descriptor 1 always reaches the console. */
  method WriteOut(k: System, data: bytes) returns (r: int)
    requires k.Valid()
    modifies k`output
    ensures k.Valid() && k.output == old(k.output) + data && r == |data|
    ensures forall fd, ops {:trigger Reads(k, fd, ops)} ::
      old(Reads(k, fd, ops)) ==> Reads(k, fd, ops) && Left(k, fd, ops) == old(Left(k, fd, ops))
    ensures forall fd, inode, position {:trigger Reading(k, fd, inode, position)} ::
      old(Reading(k, fd, inode, position)) ==> Reading(k, fd, inode, position)
    ensures forall fd, first, i {:trigger Listed(k, fd, first, i)} ::
      old(Listed(k, fd, first, i)) ==> Listed(k, fd, first, i)
  {
    ghost var s := k.View();
    FirstFreeOfLive(k.img, s);
    WriteKeepsInv(k.img, s, 1, data);
    hide Inv, Remaining;
    r := k.SystemWrite(1, data);
    OutputLeavesRemaining(k.img, s, k.View());
    forall fd, ops {:trigger Reads(k, fd, ops)} | old(Reads(k, fd, ops))
      ensures Reads(k, fd, ops) && Left(k, fd, ops) == old(Left(k, fd, ops))
    {
      assert OpenFor(s, fd, ops);
    }
  }

  /** A name opens when a descriptor is free and it is a device, the directory, or in the directory. */
  ghost predicate Opens(k: System, name: bytes)
    requires k.Valid()
    reads k, k.frames
  {
    FirstFree(k.Pcb().fds, 0) < MAX_FILES_NUMBER && (OpsFor(name) == FileOps ==> Lookup(k.img, name).Some?)
  }

  /** No descriptor but fd differs between the tables. */
  predicate OnlyFd(was: seq<Fd>, now: seq<Fd>, fd: int) {
    |was| == |now| == MAX_FILES_NUMBER && 0 <= fd < MAX_FILES_NUMBER && now == was[fd := now[fd]]
  }

  /** What a name just opened has to deliver. */
  ghost function TextOf(img: bytes, s: Kernel, name: bytes): bytes
    requires WellFormed(img) && Shaped(s)
  {
    match OpsFor(name)
    case FileOps => (match Lookup(img, name) case None => [] case Some(d) => Contents(img, d.inode))
    case DirOps => NameText(Listing(img, FirstListed(img, s)))
    case _ => []
  }

  lemma OpenedFile(img: bytes, s: Kernel, name: bytes)
    requires WellFormed(img) && Shaped(s) && FirstFree(Current(s).fds, 0) < MAX_FILES_NUMBER
    requires OpsFor(name) == FileOps && Lookup(img, name).Some?
    ensures var r := Open(img, s, name);
      OpenFor(r.state, r.value, FileOps) && Remaining(img, r.state, r.value) == Contents(img, Lookup(img, name).value.inode)
  {
    hide Contents, Lookup, WellFormed;
    assert Open(img, s, name).value == FirstFree(Current(s).fds, 0);
  }

  lemma OpenedDir(img: bytes, s: Kernel)
    requires WellFormed(img) && Shaped(s) && FirstFree(Current(s).fds, 0) < MAX_FILES_NUMBER
    ensures var r := Open(img, s, DOT);
      OpenFor(r.state, r.value, DirOps) && Remaining(img, r.state, r.value) == NameText(Listing(img, FirstListed(img, s)))
  {
    var r := Open(img, s, DOT);
    OpenDirCursor(img, s);
    DirRemaining(img, r.state, r.value);
    if DentryCount(img) == 0 {
      NothingAhead(img, r.state.dirDentry.name, 0);
    }
  }

  lemma OpenedText(img: bytes, s: Kernel, name: bytes)
    requires Inv(img, s)
    requires FirstFree(Current(s).fds, 0) < MAX_FILES_NUMBER && (OpsFor(name) == FileOps ==> Lookup(img, name).Some?)
    ensures var r := Open(img, s, name);
      && r.value == FirstFree(Current(s).fds, 0) >= 2
      && OpenFor(r.state, r.value, OpsFor(name)) && Remaining(img, r.state, r.value) == TextOf(img, s, name)
      && (OpsFor(name) == FileOps ==> Current(r.state).fds[r.value] == Fd(FileOps, Lookup(img, name).value.inode, 0, 1))
      && OnlyFd(Current(s).fds, Current(r.state).fds, r.value)
  {
    FirstFreeOfLive(img, s);
    OpenTakesLeastFree(img, s, name);
    LookupIsLeastIndex(img, name);
    hide Inv, Contents, Lookup, Names, NamesAhead, Listing, FirstListed, NameText;
    match OpsFor(name)
    case FileOps => OpenedFile(img, s, name);
    case DirOps => OpenedDir(img, s);
    case _ =>
  }

  method OpenName(k: System, name: bytes) returns (fd: int)
    requires k.Valid()
    modifies k`pcbs, k`dirDentry, k`lastDentry
    ensures k.Valid()
    ensures old(!Opens(k, name)) ==> fd == -1 && k.View() == old(k.View())
    ensures old(Opens(k, name)) ==>
      && fd == FirstFree(old(k.Pcb().fds), 0) && fd >= 2 && Reads(k, fd, OpsFor(name))
      && Left(k, fd, OpsFor(name)) == TextOf(k.img, old(k.View()), name)
      && (OpsFor(name) == FileOps ==> Reading(k, fd, Lookup(k.img, name).value.inode, 0))
      && OnlyFd(old(k.Pcb().fds), k.Pcb().fds, fd)
  {
    OpenKeepsInv(k.img, k.View(), name);
    OpenTakesLeastFree(k.img, k.View(), name);
    if Opens(k, name) {
      OpenedText(k.img, k.View(), name);
    }
    hide Inv, Open, OpsFor, Remaining, TextOf;
    fd := k.SystemOpen(name);
  }

  /** What a read of this many bytes puts into the buffer: the data, and the terminator behind a name. */
  lemma ArrivingData(k: System, fd: int, ops: Ops, nbytes: nat)
    requires Reads(k, fd, ops) && ops != StdinOps
    ensures var d := Read(k.img, k.View(), fd, nbytes, []).data;
      k.ArrivingOn(fd, nbytes, []) == d || (k.ArrivingOn(fd, nbytes, []) == d + [NUL] && ops == DirOps)
  {
    hide Inv, Contents, Clip, Lookup, LookupIndex;
  }

  lemma FrontOf(was: bytes, d: bytes, arriving: bytes)
    requires |arriving| <= |was| && (arriving == d || arriving == d + [NUL])
    ensures Replaced(was, 0, arriving)[..|d|] == d
  {
  }

  /** Reading an open file: its next bytes, as many as asked for while there are that many. */
  method ReadFile(k: System, fd: int, ghost inode: nat, ghost position: nat, buf: array<byte>, at: nat, nbytes: nat)
    returns (count: nat)
    requires Reading(k, fd, inode, position) && buf !in k.frames && at + nbytes <= buf.Length
    modifies k`pcbs, k`dirDentry, k`lastDentry, buf
    ensures Reading(k, fd, inode, position + count)
    ensures k.View() == WithFd(old(k.View()), fd, Fd(FileOps, inode, position + count, 1))
    ensures OnlyFd(old(k.Pcb().fds), k.Pcb().fds, fd)
    ensures count == |Clip(Contents(k.img, inode), position, nbytes)|
    ensures buf[..] == Replaced(old(buf[..]), at, Clip(Contents(k.img, inode), position, nbytes))
  {
    ghost var s := k.View();
    FileStep(k.img, s, fd, inode, position, nbytes);
    ArrivingFile(k, fd, inode, position, nbytes);
    ReadKeepsInv(k.img, s, fd, nbytes, []);
    assert k.Shape() && k.Memory();
    hide *;
    count := k.SystemRead(fd, buf, at, nbytes, []);
    ValidAgain(k);
    ReadingNow(k, fd, inode, position + count);
  }

  lemma FileStep(img: bytes, s: Kernel, fd: int, inode: nat, position: nat, nbytes: nat)
    requires WellFormed(img) && Shaped(s) && 0 <= fd < MAX_FILES_NUMBER
    requires Current(s).fds[fd] == Fd(FileOps, inode, position, 1)
    ensures var r, c := Read(img, s, fd, nbytes, []), Clip(Contents(img, inode), position, nbytes);
      && r.count == |c| && r.state == WithFd(s, fd, Fd(FileOps, inode, position + |c|, 1))
      && Current(r.state).fds[fd] == Fd(FileOps, inode, position + |c|, 1)
      && OnlyFd(Current(s).fds, Current(r.state).fds, fd)
  {
    hide Clip, Contents, WellFormed;
  }

  lemma ArrivingFile(k: System, fd: int, inode: nat, position: nat, nbytes: nat)
    requires Reading(k, fd, inode, position)
    ensures k.ArrivingOn(fd, nbytes, []) == Clip(Contents(k.img, inode), position, nbytes)
    ensures |Clip(Contents(k.img, inode), position, nbytes)| <= nbytes
  {
    ClipIsShort(Contents(k.img, inode), position, nbytes);
    hide Clip, Contents, WellFormed, Inv;
  }

  lemma ClipIsShort(c: bytes, position: nat, nbytes: nat)
    ensures |Clip(c, position, nbytes)| <= nbytes
  {
  }

  lemma ReadingNow(k: System, fd: int, inode: nat, position: nat)
    requires k.Valid() && 0 <= fd < MAX_FILES_NUMBER && Shaped(k.View())
    requires Current(k.View()).fds[fd] == Fd(FileOps, inode, position, 1)
    ensures Reading(k, fd, inode, position)
    ensures k.Pcb() == Current(k.View())
  {
    hide WellFormed, Inv;
  }

  /** A read into the front of a buffer with room for what arrives: the step of the kernel, and its data in the buffer. */
  method ReadInto(k: System, fd: int, ghost ops: Ops, buf: array<byte>, nbytes: nat) returns (cnt: int)
    requires k.Valid() && Reads(k, fd, ops) && ops != StdinOps && buf !in k.frames
    requires |Read(k.img, k.View(), fd, nbytes, []).data| + (if ops == DirOps then 1 else 0) <= buf.Length
    modifies k`pcbs, k`dirDentry, k`lastDentry, buf
    ensures k.Valid()
    ensures var r := Read(k.img, old(k.View()), fd, nbytes, []);
      k.View() == r.state && cnt == r.count && buf[..|r.data|] == r.data
  {
    ghost var s, was := k.View(), buf[..];
    ghost var d, arriving := Read(k.img, s, fd, nbytes, []).data, k.ArrivingOn(fd, nbytes, []);
    ReadKeepsInv(k.img, s, fd, nbytes, []);
    ArrivingData(k, fd, ops, nbytes);
    FrontOf(was, d, arriving);
    assert k.Shape() && k.Memory();
    hide *;
    cnt := k.SystemRead(fd, buf, 0, nbytes, []);
    ValidAgain(k);
    TakeOf(buf, |d|);
  }

  lemma ValidAgain(k: System)
    requires k.Memory() && Inv(k.img, k.View())
    ensures k.Valid()
  {
  }

  lemma TakeOf(buf: array<byte>, n: nat)
    requires n <= buf.Length
    ensures buf[..n] == buf[..][..n]
  {
  }

  /** A read into a buffer of 1024 bytes. */
  method ReadOn(k: System, fd: int, ghost ops: Ops, buf: array<byte>) returns (cnt: int)
    requires k.Valid() && Reads(k, fd, ops) && ops != StdinOps && buf !in k.frames && buf.Length == 1024
    modifies k`pcbs, k`dirDentry, k`lastDentry, buf
    ensures k.Valid() && Reads(k, fd, ops)
    ensures if ops == StdoutOps then cnt == -1
      else 0 <= cnt <= 1024 && old(Left(k, fd, ops)) == if cnt == 0 then [] else buf[..cnt] + Left(k, fd, ops)
  {
    ReadTakes(k.img, k.View(), fd, ops, 1024);
    hide Inv, Read, Remaining, Shaped, OpenFor, System.View, System.Valid;
    cnt := ReadInto(k, fd, ops, buf, 1024);
  }

  // ---------- cat ----------

  lemma Associates(a: bytes, b: bytes, c: bytes)
    ensures a + (b + c) == a + b + c
  {
  }

  /** The read and write loop of cat: all that the descriptor has left goes to the console, and the loop ends. */
  method CopyToConsole(k: System, fd: int, ghost ops: Ops, buf: array<byte>) returns (status: int)
    requires k.Valid() && Reads(k, fd, ops) && ops != StdinOps && buf !in k.frames && buf.Length == 1024
    modifies k`pcbs, k`dirDentry, k`lastDentry, k`output, buf
    ensures k.Valid()
    ensures ops == StdoutOps ==> status == 3 && k.output == old(k.output) + FILE_READ_FAILED
    ensures ops != StdoutOps ==> status == 0 && k.output == old(k.output) + old(Left(k, fd, ops))
  {
    hide *;
    ghost var owed := Left(k, fd, ops);
    ghost var goal := k.output + owed;
    var cnt := ReadOn(k, fd, ops, buf);
    while cnt != 0
      invariant k.Valid() && Reads(k, fd, ops)
      invariant ops == StdoutOps ==> cnt == -1 && k.output == old(k.output)
      invariant ops != StdoutOps ==>
        0 <= cnt <= 1024 && owed == (if cnt == 0 then [] else buf[..cnt] + Left(k, fd, ops)) && k.output + owed == goal
      decreases |owed|
    {
      if cnt == -1 {
        var w := WriteOut(k, FILE_READ_FAILED);
        return 3;
      }
      ghost var written, out := buf[..cnt], k.output;
      owed := Left(k, fd, ops);
      Associates(out, written, owed);
      var w := WriteOut(k, buf[..cnt]);
      cnt := ReadOn(k, fd, ops, buf);
    }
    status := 0;
  }

  /** The argument of cat is opened. */
  method OpenArgument(k: System, buf: array<byte>) returns (fd: int)
    requires k.Valid() && buf !in k.frames && buf.Length == 1024
    modifies k`pcbs, k`dirDentry, k`lastDentry, buf
    ensures k.Valid()
    ensures var name := old(k.Pcb().argbuf);
      if !old(Opens(k, k.Pcb().argbuf)) then fd == -1
      else fd >= 2 && Reads(k, fd, OpsFor(name)) && Left(k, fd, OpsFor(name)) == TextOf(k.img, old(k.View()), name)
  {
    ArgsOfLive(k.img, k.View());
    ghost var name, s := k.Pcb().argbuf, k.View();
    hide Inv;
    var r := k.SystemGetargs(buf, 0);
    CStringIn(buf[..], name);
    assert k.View() == s;
    hide Opens, OpsFor, TextOf, Left, Reads, System.View;
    fd := OpenName(k, CString(buf[..]));
  }

  /** cat: what the named file, directory or device delivers goes to the console, or else a message. */
  method Cat(k: System, buf: array<byte>) returns (status: int)
    requires k.Valid() && buf !in k.frames && buf.Length == 1024
    requires OpsFor(k.Pcb().argbuf) != StdinOps
    modifies k`pcbs, k`dirDentry, k`lastDentry, k`output, buf
    ensures k.Valid()
    ensures var name := old(k.Pcb().argbuf);
      if !old(Opens(k, k.Pcb().argbuf)) then status == 2 && k.output == old(k.output) + FILE_NOT_FOUND
      else if name == STDOUT then status == 3 && k.output == old(k.output) + FILE_READ_FAILED
      else status == 0 && k.output == old(k.output) + TextOf(k.img, old(k.View()), name)
  {
    ghost var name := k.Pcb().argbuf;
    assert OpsFor(name) == StdoutOps <==> name == STDOUT;
    hide *;
    var fd := OpenArgument(k, buf);
    if fd == -1 {
      var w := WriteOut(k, FILE_NOT_FOUND);
      return 2;
    }
    status := CopyToConsole(k, fd, OpsFor(name), buf);
  }

  // ---------- ls ----------

  /** Descriptor fd of the running process is open on the directory, whose cursor is at entry i of the listing. */
  ghost predicate Listed(k: System, fd: int, first: bytes, i: nat)
    reads k, k.frames
  {
    k.Valid() && WellFormed(k.img) && OpenDir(k.View(), fd) && CursorAt(k.img, k.View(), first, i)
  }

  /** One entry of the open directory, with its terminator, at the start of the buffer. */
  method ReadEntry(k: System, fd: int, ghost first: bytes, ghost i: nat, buf: array<byte>)
    returns (cnt: nat)
    requires k.Valid() && WellFormed(k.img) && Listed(k, fd, first, i) && |first| <= FILE_NAME_LENGTH
    requires buf !in k.frames && buf.Length == FILE_NAME_LENGTH + 1
    modifies k`pcbs, k`dirDentry, k`lastDentry, buf
    ensures k.Valid() && Listed(k, fd, first, if i < DentryCount(k.img) then i + 1 else i)
    ensures cnt <= FILE_NAME_LENGTH
    ensures buf[..cnt] == if i < DentryCount(k.img) then Listing(k.img, first)[i] else []
  {
    DirReadStep(k.img, k.View(), fd, FILE_NAME_LENGTH, [], first, i);
    ListingFits(k.img, first, i);
    assert Reads(k, fd, DirOps);
    hide Inv, Read, Listing, Shaped, CursorAt, OpenDir, OpenFor, Reads, System.View, System.Valid;
    cnt := ReadInto(k, fd, DirOps, buf, FILE_NAME_LENGTH);
  }

  lemma ListingFits(img: bytes, first: bytes, i: nat)
    requires WellFormed(img) && |first| <= FILE_NAME_LENGTH
    ensures i < DentryCount(img) ==> |Listing(img, first)[i]| <= FILE_NAME_LENGTH
  {
    if 0 < i < DentryCount(img) {
      assert Listing(img, first)[i] == Names(img)[i] == NameAt(img, i);
    }
  }

  method OpenDot(k: System) returns (fd: int)
    requires k.Valid()
    modifies k`pcbs, k`dirDentry, k`lastDentry
    ensures k.Valid()
    ensures old(FirstFree(k.Pcb().fds, 0) == MAX_FILES_NUMBER) ==> fd == -1 && k.View() == old(k.View())
    ensures old(FirstFree(k.Pcb().fds, 0) < MAX_FILES_NUMBER) ==>
      2 <= fd < MAX_FILES_NUMBER && WellFormed(k.img) && Listed(k, fd, FirstListed(k.img, old(k.View())), 0)
  {
    ghost var s := k.View();
    OpenKeepsInv(k.img, s, DOT);
    FirstFreeOfLive(k.img, s);
    OpenTakesLeastFree(k.img, s, DOT);
    if FirstFree(k.Pcb().fds, 0) < MAX_FILES_NUMBER {
      OpenDirCursor(k.img, s);
    }
    hide Inv, Open, FirstListed;
    fd := k.SystemOpen(DOT);
  }

  /**
   ls: the listing on the console, one name a line, or a message when no descriptor is free. Without a "." in the
   directory the first line is the last name the kernel looked up instead.
   */
  method Ls(k: System, buf: array<byte>) returns (status: int)
    requires k.Valid() && buf !in k.frames && buf.Length == FILE_NAME_LENGTH + 1
    modifies k`pcbs, k`dirDentry, k`lastDentry, k`output, buf
    ensures k.Valid()
    ensures old(FirstFree(k.Pcb().fds, 0) < MAX_FILES_NUMBER) ==>
      status == 0 && k.output == old(k.output) + NameLines(Listing(k.img, FirstListed(k.img, old(k.View()))))
    ensures old(FirstFree(k.Pcb().fds, 0) == MAX_FILES_NUMBER) ==>
      status == 2 && k.output == old(k.output) + DIR_OPEN_FAILED
  {
    hide Inv, Names, Listing, FirstListed;
    ghost var first := FirstListed(k.img, k.View());
    var fd := OpenDot(k);
    if fd == -1 {
      var w := WriteOut(k, DIR_OPEN_FAILED);
      return 2;
    }
    ListEntries(k, fd, first, buf);
    status := 0;
  }

  /** The read and write loop of ls. */
  method ListEntries(k: System, fd: int, ghost first: bytes, buf: array<byte>)
    requires k.Valid() && WellFormed(k.img) && Listed(k, fd, first, 0) && |first| <= FILE_NAME_LENGTH
    requires buf !in k.frames && buf.Length == FILE_NAME_LENGTH + 1
    modifies k`pcbs, k`dirDentry, k`lastDentry, k`output, buf
    ensures k.Valid() && k.output == old(k.output) + NameLines(Listing(k.img, first))
  {
    hide *;
    ghost var names := Listing(k.img, first);
    ghost var goal, i := k.output + NameLines(names), 0;
    assert names[0..] == names;
    var cnt := ReadEntry(k, fd, first, 0, buf);
    while cnt != 0
      invariant 0 <= cnt <= FILE_NAME_LENGTH && 0 <= i <= |names|
      invariant k.Valid() && Listed(k, fd, first, if i < |names| then i + 1 else i)
      invariant buf[..cnt] == if i < |names| then names[i] else []
      invariant k.output + NameLines(names[i..]) == goal
      decreases |names| - i
    {
      ghost var name := buf[..cnt];
      NameLinesFrom(names, i);
      Associates(k.output, name + [NEWLINE], NameLines(names[i + 1..]));
      buf[cnt] := NEWLINE;
      assert buf[..cnt + 1] == name + [NEWLINE];
      var w := WriteOut(k, buf[..cnt + 1]);
      i := i + 1;
      cnt := ReadEntry(k, fd, first, i, buf);
    }
    NameLinesFrom(names, i);
  }

  lemma NameLinesFrom(names: seq<bytes>, i: nat)
    requires i <= |names|
    ensures i == |names| || names[i] == [] ==> NameLines(names[i..]) == []
    ensures i < |names| && names[i] != [] ==> NameLines(names[i..]) == names[i] + [NEWLINE] + NameLines(names[i + 1..])
  {
    if i < |names| {
      assert names[i..][1..] == names[i + 1..];
    }
  }

  /** What ls prints of names that are neither empty nor broken by a newline are lines that give the names again. */
  lemma {:induction false} ListingReadsBack(names: seq<bytes>)
    requires [] !in names && GrepSpec.OneLiners(names)
    ensures GrepSpec.Lines(NameLines(names)) == names
  {
    if names != [] {
      assert names[0] in names && forall p :: p in names[1..] ==> p in names;
      ListingReadsBack(names[1..]);
      GrepSpec.FirstOfLines(names[0], NameLines(names[1..]));
    }
  }

  /** A C string stored in a buffer reads back as itself. */
  lemma CStringIn(buffer: bytes, s: bytes)
    requires NulFree(s) && s + [NUL] <= buffer
    ensures CString(buffer) == s
  {
    assert buffer[..|s|] == s && buffer[|s|] == (s + [NUL])[|s|];
    CStringEnds(buffer, |s|);
  }
}
