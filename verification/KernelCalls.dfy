/** What single system calls come to: closing, opening again, the devices, programs and the clock. */
module KernelCalls {
  import opened Bytes
  import opened FileImage
  import opened Directory
  import opened Numerals
  import opened KernelSpec
  import opened KernelInvariant

  // ---------- close ----------

  /** t is s but that descriptor fd of the running process is free, and the directory cursor reset if it was on that. */
  ghost predicate FreesOnly(s: Kernel, t: Kernel, fd: int)
    requires Shaped(s) && Shaped(t) && 0 <= fd < MAX_FILES_NUMBER
  {
    var p, q := Current(s), Current(t);
    && t == s.(pcbs := t.pcbs, lastDentry := if p.fds[fd].ops == DirOps then 0 else s.lastDentry)
    && (forall a {:trigger PcbAt(t.pcbs, a)} :: a != s.current ==> PcbAt(t.pcbs, a) == PcbAt(s.pcbs, a))
    && q == p.(fds := q.fds) && q.fds[fd].flags == 0
    && forall i {:trigger q.fds[i]} :: 0 <= i < MAX_FILES_NUMBER && i != fd ==> q.fds[i] == p.fds[i]
  }

  /** An open descriptor from 2 on is free after close, and nothing else has changed; otherwise close is refused. */
  lemma CloseFreesDescriptor(s: Kernel, fd: int)
    requires Shaped(s)
    ensures var r := Close(s, fd);
      if 2 <= fd < 8 && Current(s).fds[fd].flags != 0 then r.value == 0 && FreesOnly(s, r.state, fd)
      else r.value == -1 && r.state == s
  {
  }

  /** The same descriptors are open in both tables, on the same things. */
  predicate SameOpen(f: seq<Fd>, g: seq<Fd>) {
    |f| == |g| && forall i {:trigger g[i]} :: 0 <= i < |f| ==> g[i] == f[i] || (f[i].flags == 0 && g[i].flags == 0)
  }

  lemma {:induction false} SameFirstFree(f: seq<Fd>, g: seq<Fd>, k: nat)
    requires SameOpen(f, g) && k <= |f|
    ensures FirstFree(f, k) == FirstFree(g, k)
    decreases |f| - k
  {
    if k < |f| {
      assert g[k].flags == 0 <==> f[k].flags == 0;
      SameFirstFree(f, g, k + 1);
    }
  }

  /** A name that an open finds when a descriptor is free. */
  predicate Findable(img: bytes, name: bytes)
    requires WellFormed(img)
  {
    OpsFor(name) == FileOps ==> name in Names(img)
  }

  /** Closing what an open returned leaves exactly the descriptors open that were open before. */
  lemma CloseUndoesOpen(img: bytes, s: Kernel, name: bytes)
    requires Inv(img, s) && FirstFree(Current(s).fds, 0) < MAX_FILES_NUMBER && Findable(img, name)
    ensures var o := Open(img, s, name);
      var c := Close(o.state, o.value);
      && o.value == FirstFree(Current(s).fds, 0) && c.value == 0
      && SameOpen(Current(s).fds, Current(c.state).fds)
      && FirstFree(Current(c.state).fds, 0) == FirstFree(Current(s).fds, 0)
  {
    var o := Open(img, s, name);
    FirstFreeOfLive(img, s);
    OpenTakesLeastFree(img, s, name);
    CloseFreesDescriptor(o.state, o.value);
    hide Inv, Open, Close, FdsOk, Names, WellFormed;
    var c := Close(o.state, o.value);
    assert SameOpen(Current(s).fds, Current(c.state).fds);
    SameFirstFree(Current(s).fds, Current(c.state).fds, 0);
  }

  /** Opening each name in turn and closing it again succeeds every time. */
  ghost predicate PairsSucceed(img: bytes, s: Kernel, names: seq<bytes>)
    requires WellFormed(img) && Shaped(s)
    decreases |names|
  {
    names != [] ==>
      var o := Open(img, s, names[0]);
      var c := Close(o.state, o.value);
      2 <= o.value < 8 && c.value == 0 && PairsSucceed(img, c.state, names[1..])
  }

  /** With one descriptor free, any number of opens succeeds as long as each is closed before the next. */
  lemma {:induction false} PairsNeverRunOut(img: bytes, s: Kernel, names: seq<bytes>)
    requires Inv(img, s) && FirstFree(Current(s).fds, 0) < MAX_FILES_NUMBER
    requires forall name :: name in names ==> Findable(img, name)
    ensures PairsSucceed(img, s, names)
    decreases |names|
  {
    if names != [] {
      var o := Open(img, s, names[0]);
      CloseUndoesOpen(img, s, names[0]);
      FirstFreeOfLive(img, s);
      OpenKeepsInv(img, s, names[0]);
      CloseKeepsInv(img, o.state, o.value);
      hide Inv, Open, Close, Findable;
      PairsNeverRunOut(img, Close(o.state, o.value).state, names[1..]);
    }
  }

  // ---------- devices ----------

  /** The four names that are not looked up, and what reads and writes of each come to. */
  lemma DevicesOpenByName(img: bytes, s: Kernel, n: int, device: bytes, data: bytes)
    requires WellFormed(img) && Shaped(s) && FirstFree(Current(s).fds, 0) < MAX_FILES_NUMBER
    ensures var i, stdin := FirstFree(Current(s).fds, 0), Open(img, s, [115, 116, 100, 105, 110]);
      stdin.value == i && Read(img, stdin.state, i, n, device).data == device && Write(stdin.state, i, data).value == -1
    ensures var i, stdout := FirstFree(Current(s).fds, 0), Open(img, s, [115, 116, 100, 111, 117, 116]);
      && stdout.value == i && Read(img, stdout.state, i, n, device).count == -1
      && Write(stdout.state, i, data) == Answer(stdout.state.(output := s.output + data), |data|)
    ensures var i, rtc := FirstFree(Current(s).fds, 0), Open(img, s, [114, 116, 99]);
      rtc.value == i && Read(img, rtc.state, i, n, device).count == 0
    ensures var i, dot := FirstFree(Current(s).fds, 0), Open(img, s, [46]);
      && dot.value == i && Write(dot.state, i, data).value == -1
      && Read(img, dot.state, i, n, device).data == if DentryCount(img) == 0 then [] else dot.state.dirDentry.name
  {
    hide WellFormed, Lookup, LookupIndex, Contents, Clip;
  }

  /** A power of two between 2 and 1024. */
  ghost predicate IsRate(f: nat) {
    exists k: nat {:trigger Power(2, k)} :: 1 <= k <= 10 && f == Power(2, k)
  }

  lemma RatesArePowers(f: nat)
    ensures f in RTC_FREQUENCIES <==> IsRate(f)
  {
    assert Power(2, 0) == 1 && Power(2, 1) == 2 && Power(2, 2) == 4 && Power(2, 3) == 8;
    assert Power(2, 4) == 16 && Power(2, 5) == 32 && Power(2, 6) == 64;
    assert Power(2, 7) == 128 && Power(2, 8) == 256 && Power(2, 9) == 512 && Power(2, 10) == 1024;
  }

  /** The clock takes four bytes that hold such a number, and complains about any other four. */
  lemma ClockTakesPowersOfTwo(s: Kernel, fd: int, data: bytes)
    requires Shaped(s) && IsOpen(s, fd) && Current(s).fds[fd].ops == RtcOps
    ensures var r := Write(s, fd, data);
      if |data| != 4 then r == Answer(s, -1)
      else if IsRate(Number(data[0], data[1], data[2], data[3])) then r == Answer(s, 4)
      else r == Answer(s.(output := s.output + WRONG_FREQUENCY), -1)
  {
    hide LittleEndian, IsRate, Number;
    if |data| == 4 {
      WordIsSum(data, 0);
      assert data[0..4] == data;
      RatesArePowers(LittleEndian(data));
    }
  }

  /** Files and the directory cannot be written, and what is written to stdout goes to the console and nowhere else. */
  lemma OnlyTheConsoleIsWritten(s: Kernel, fd: int, data: bytes)
    requires Shaped(s) && (IsOpen(s, fd) ==> Current(s).fds[fd].ops != RtcOps)
    ensures var r := Write(s, fd, data);
      if IsOpen(s, fd) && Current(s).fds[fd].ops == StdoutOps then r == Answer(s.(output := s.output + data), |data|)
      else r == Answer(s, -1)
  {
  }

  /** vidmap refuses the addresses 0 and 4 MB for its result, and otherwise makes entry 64 the table, for programs too. */
  lemma VidmapMapsTheTable(s: Kernel, screenStart: int, table: int)
    requires Shaped(s)
    ensures var r := Vidmap(s, screenStart, table);
      if screenStart == 0 || screenStart == 0x40_0000 then r == Answer(s, -1)
      else
        && r.value == 0 && r.state == s.(pageDir := r.state.pageDir) && |r.state.pageDir| == |s.pageDir|
        && r.state.pageDir[64] == Pde(true, true, true, false, table)
        && forall e {:trigger r.state.pageDir[e]} :: 0 <= e < |s.pageDir| && e != 64 ==> r.state.pageDir[e] == s.pageDir[e]
  {
  }

  // ---------- files and programs ----------

  /** A read of an open file delivers as many bytes as were asked for, or as there are, from its position on. */
  lemma FileReadDelivers(img: bytes, s: Kernel, fd: int, nbytes: int, device: bytes)
    requires Inv(img, s) && IsOpen(s, fd) && Current(s).fds[fd].ops == FileOps
    ensures var d, r := Current(s).fds[fd], Read(img, s, fd, nbytes, device);
      && var c := Contents(img, d.inode);
      && d.position <= |c| && r.count == Min(Max(0, nbytes), |c| - d.position)
      && r.data == c[d.position..d.position + r.count]
  {
    FirstFreeOfLive(img, s);
    assert FdOk(img, Current(s).fds[fd]);
    hide Inv, Contents;
  }

  /** A name is a program exactly when the file it leads to has forty bytes and starts with the four of the format. */
  lemma ProgramsStartWithMagic(img: bytes, name: bytes)
    requires WellFormed(img)
    ensures Program(img, name).Some? <==>
      && Lookup(img, name).Some?
      && var c := Contents(img, Lookup(img, name).value.inode);
      40 <= |c| && c[0] == 0x7f && c[1] == 0x45 && c[2] == 0x4c && c[3] == 0x46
    ensures Program(img, name).Some? ==> Program(img, name).value == Contents(img, Lookup(img, name).value.inode)
  {
    if Lookup(img, name).Some? {
      var c := Contents(img, Lookup(img, name).value.inode);
      hide Contents, Lookup, WellFormed;
      if 40 <= |c| {
        assert c[..4] == [c[0], c[1], c[2], c[3]];
      }
    }
  }
}
