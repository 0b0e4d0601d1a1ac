/** What holds in every state the kernel can reach. */
module KernelInvariant {
  import opened Bytes
  import opened FileImage
  import opened Directory
  import opened CommandLine
  import opened KernelSpec

  // ---------- addresses ----------

  /** Any stack pointer inside a process's 8 KB slot, and no other, masks to its control block. */
  lemma MaskFindsSlot(n: int, esp: int)
    ensures Mask(esp) == Slot(n) <==> Slot(n) <= esp < Slot(n) + PCB_SIZE
  {
    var q := esp / PCB_SIZE;
    assert esp == q * PCB_SIZE + esp % PCB_SIZE;
    assert Slot(n) == (0x400 - n) * PCB_SIZE;
    if Slot(n) <= esp < Slot(n) + PCB_SIZE {
      assert q == 0x400 - n;
    }
  }

  /** Slots of different processes do not overlap, and neither do their frames, nor the kernel's. */
  lemma SlotsAndFramesAreDisjoint(m: int, n: int)
    requires 1 <= m < n <= MAXIMUM_PROCESS - 1
    ensures Slot(n) + PCB_SIZE <= Slot(m)
    ensures KERNEL_FRAME < UserPde(m).base < UserPde(n).base < FRAMES
  {
  }

  // ---------- the invariant ----------

  ghost predicate FdOk(img: bytes, fd: Fd)
    requires WellFormed(img)
  {
    && fd.flags <= 1
    && (fd.flags == 1 ==> fd.ops != NoOps)
    && (fd.flags == 1 && fd.ops == FileOps ==> fd.position <= |Contents(img, fd.inode)|)
  }

  ghost predicate FdsOk(img: bytes, fds: seq<Fd>)
    requires WellFormed(img)
  {
    && |fds| == MAX_FILES_NUMBER
    && (forall i {:trigger fds[i]} :: 0 <= i < MAX_FILES_NUMBER ==> FdOk(img, fds[i]))
    && fds[0].flags == 1 && fds[0].ops == StdinOps
    && fds[1].flags == 1 && fds[1].ops == StdoutOps
  }

  predicate AllFree(fds: seq<Fd>) {
    forall i {:trigger fds[i]} :: 0 <= i < |fds| ==> fds[i].flags == 0
  }

  /** The control block of live process j: its number, its link to its parent, its descriptors, its arguments. */
  ghost predicate LiveOk(img: bytes, p: Pcb, j: int)
    requires WellFormed(img)
  {
    && p.processNum == j
    && p.parentNum == Max(1, j - 1) && p.parent == Slot(Max(1, j - 1))
    && (2 <= j ==> Mask(p.parentEsp) == Slot(j - 1))
    && FdsOk(img, p.fds) && ArgsOk(p.argbuf)
  }

  ghost predicate Inv(img: bytes, s: Kernel) {
    && ImageOk(img) && Shaped(s)
    && 1 <= s.total <= MAXIMUM_PROCESS - 1
    && s.current == Slot(s.total)
    && s.pageDir[USER_ENTRY] == UserPde(s.total)
    && Mask(s.esp0) == s.current
    && (forall j {:trigger Slot(j)} :: 1 <= j <= s.total ==> LiveOk(img, PcbAt(s.pcbs, Slot(j)), j))
    && (forall j {:trigger Slot(j)} :: s.total < j ==> AllFree(PcbAt(s.pcbs, Slot(j)).fds))
  }

  /** Where a 4 MB page puts an address. */
  function Physical(directory: seq<Pde>, address: nat): int
    requires address / PAGE_SIZE < |directory|
  {
    directory[address / PAGE_SIZE].base * PAGE_SIZE + address % PAGE_SIZE
  }

  predicate UserAddress(address: nat) {
    PROGRAM_VIRTUAL_START <= address < PROGRAM_VIRTUAL_START + PAGE_SIZE
  }

  /**
   In any two reachable states, two program addresses lead to the same physical byte exactly when the same process
   number runs and the addresses are the same; none leads into the kernel's page or below it.
   */
  lemma ProgramsAreApart(img: bytes, s: Kernel, t: Kernel, a: nat, b: nat)
    requires Inv(img, s) && Inv(img, t) && UserAddress(a) && UserAddress(b)
    ensures a / PAGE_SIZE == USER_ENTRY && b / PAGE_SIZE == USER_ENTRY
    ensures Physical(s.pageDir, a) == Physical(t.pageDir, b) <==> s.total == t.total && a == b
    ensures (KERNEL_FRAME + 1) * PAGE_SIZE <= Physical(s.pageDir, a) < FRAMES * PAGE_SIZE
  {
  }

  // ---------- calls that touch one descriptor of the running process ----------

  /** t is s but for descriptor i of the running process, the directory cursor and the console. */
  ghost predicate Touches(s: Kernel, t: Kernel, i: nat, fd: Fd)
    requires Shaped(s) && i < MAX_FILES_NUMBER
  {
    Shaped(t) && t == WithFd(s, i, fd).(dirDentry := t.dirDentry, lastDentry := t.lastDentry, output := t.output)
  }

  lemma TouchKeepsInv(img: bytes, s: Kernel, t: Kernel, i: nat, fd: Fd)
    requires Inv(img, s) && i < MAX_FILES_NUMBER && Touches(s, t, i, fd) && FdOk(img, fd)
    requires i < 2 ==> fd.flags == 1 && fd.ops == Current(s).fds[i].ops
    ensures Inv(img, t)
  {
    assert LiveOk(img, PcbAt(s.pcbs, Slot(s.total)), s.total);
    forall j {:trigger Slot(j)} | 1 <= j <= t.total ensures LiveOk(img, PcbAt(t.pcbs, Slot(j)), j) {
      assert LiveOk(img, PcbAt(s.pcbs, Slot(j)), j);
    }
    forall j {:trigger Slot(j)} | t.total < j ensures AllFree(PcbAt(t.pcbs, Slot(j)).fds) {
      assert AllFree(PcbAt(s.pcbs, Slot(j)).fds);
    }
  }

  lemma FirstFreeOfLive(img: bytes, s: Kernel)
    requires Inv(img, s)
    ensures FdsOk(img, Current(s).fds) && FirstFree(Current(s).fds, 0) >= 2
  {
    assert LiveOk(img, PcbAt(s.pcbs, Slot(s.total)), s.total);
  }

  /** The running process's arguments are a C string that fits argbuf. */
  lemma ArgsOfLive(img: bytes, s: Kernel)
    requires Inv(img, s)
    ensures ArgsOk(Current(s).argbuf)
  {
    assert LiveOk(img, PcbAt(s.pcbs, Slot(s.total)), s.total);
  }

  /** What a successful open writes into the free descriptor. */
  function OpenedFd(img: bytes, name: bytes): Fd
    requires WellFormed(img)
  {
    var ops := OpsFor(name);
    match Lookup(img, name)
    case Some(d) => Fd(ops, if ops == FileOps then d.inode else 0, 0, 1)
    case None => Fd(ops, 0, 0, 1)
  }

  /** open takes the least free descriptor, and changes nothing when it fails. */
  lemma OpenTakesLeastFree(img: bytes, s: Kernel, name: bytes)
    requires WellFormed(img) && Shaped(s)
    ensures var r, i := Open(img, s, name), FirstFree(Current(s).fds, 0);
      && (r.value == -1 <==> i == MAX_FILES_NUMBER || (OpsFor(name) == FileOps && name !in Names(img)))
      && (r.value == -1 ==> r.state == s)
      && (r.value != -1 ==> r.value == i && Touches(s, r.state, i, OpenedFd(img, name)))
  {
    LookupIsLeastIndex(img, name);
  }

  lemma OpenKeepsInv(img: bytes, s: Kernel, name: bytes)
    requires Inv(img, s)
    ensures Inv(img, Open(img, s, name).state)
  {
    FirstFreeOfLive(img, s);
    OpenTakesLeastFree(img, s, name);
    var r := Open(img, s, name);
    if r.value != -1 {
      TouchKeepsInv(img, s, r.state, r.value, OpenedFd(img, name));
    }
  }

  lemma CloseKeepsInv(img: bytes, s: Kernel, fd: int)
    requires Inv(img, s)
    ensures Inv(img, Close(s, fd).state)
  {
    FirstFreeOfLive(img, s);
    if Close(s, fd).value == 0 {
      TouchKeepsInv(img, s, Close(s, fd).state, fd, Cleared(Current(s).fds[fd]));
    }
  }

  /** The descriptors whose reads succeed. */
  predicate Delivers(s: Kernel, fd: int)
    requires Shaped(s)
  {
    IsOpen(s, fd) && Current(s).fds[fd].ops in {FileOps, DirOps, StdinOps, RtcOps}
  }

  /** Advancing a descriptor touches only it, even when the directory cursor has moved as well. */
  lemma AdvanceTouches(s: Kernel, u: Kernel, fd: nat, data: bytes)
    requires Shaped(s) && fd < MAX_FILES_NUMBER
    requires Shaped(u) && u == s.(dirDentry := u.dirDentry, lastDentry := u.lastDentry)
    ensures Touches(s, Advance(u, fd, data).state, fd, Moved(Current(s).fds[fd], |data|))
  {
  }

  /** A read changes at most the position of the descriptor it reads, by as much as it returns. */
  lemma ReadMovesPosition(img: bytes, s: Kernel, fd: int, nbytes: int, device: bytes)
    requires WellFormed(img) && Shaped(s)
    ensures var r := Read(img, s, fd, nbytes, device);
      if Delivers(s, fd) then
        r.count == |r.data| && Touches(s, r.state, fd, Moved(Current(s).fds[fd], |r.data|))
      else r.state == s && r.count == -1 && r.data == []
    ensures IsOpen(s, fd) && Current(s).fds[fd].ops == FileOps ==>
      Read(img, s, fd, nbytes, device).data
        == Clip(Contents(img, Current(s).fds[fd].inode), Current(s).fds[fd].position, nbytes)
  {
    if Delivers(s, fd) {
      var r := Read(img, s, fd, nbytes, device);
      if Current(s).fds[fd].ops == DirOps {
        AdvanceTouches(s, s.(dirDentry := r.state.dirDentry, lastDentry := r.state.lastDentry), fd, r.data);
      } else {
        AdvanceTouches(s, s, fd, r.data);
      }
    }
  }

  function Moved(fd: Fd, count: nat): Fd {
    fd.(position := fd.position + count)
  }

  lemma ReadKeepsInv(img: bytes, s: Kernel, fd: int, nbytes: int, device: bytes)
    requires Inv(img, s)
    ensures Inv(img, Read(img, s, fd, nbytes, device).state)
  {
    FirstFreeOfLive(img, s);
    ReadMovesPosition(img, s, fd, nbytes, device);
    var r := Read(img, s, fd, nbytes, device);
    if Delivers(s, fd) {
      assert FdOk(img, Current(s).fds[fd]);
      TouchKeepsInv(img, s, r.state, fd, Moved(Current(s).fds[fd], |r.data|));
    }
  }

  lemma WriteKeepsInv(img: bytes, s: Kernel, fd: int, data: bytes)
    requires Inv(img, s)
    ensures Inv(img, Write(s, fd, data).state)
  {
    OutputKeepsInv(img, s, Write(s, fd, data).state);
  }

  lemma OutputKeepsInv(img: bytes, s: Kernel, t: Kernel)
    requires Inv(img, s) && t == s.(output := t.output)
    ensures Inv(img, t)
  {
    forall j {:trigger Slot(j)} | 1 <= j <= t.total ensures LiveOk(img, PcbAt(t.pcbs, Slot(j)), j) {
      assert LiveOk(img, PcbAt(s.pcbs, Slot(j)), j);
    }
  }

  // ---------- execute and halt ----------

  /** The descriptor table after opening `fd` in the first free place, if there is one. */
  function Added(fds: seq<Fd>, fd: Fd): (r: seq<Fd>)
    ensures |r| == |fds|
  {
    var i := FirstFree(fds, 0);
    if i == |fds| then fds else fds[i := fd]
  }

  const STDIN_FD := Fd(StdinOps, 0, 0, 1)
  const STDOUT_FD := Fd(StdoutOps, 0, 0, 1)

  function Standard(fds: seq<Fd>): (r: seq<Fd>)
    ensures |r| == |fds|
  {
    Added(Added(fds, STDIN_FD), STDOUT_FD)
  }

  /** Opening stdin and stdout changes nothing but the descriptors of the process being set up. */
  lemma EquippedFds(img: bytes, t: Kernel)
    requires WellFormed(img) && Shaped(t)
    ensures var u, c := Equipped(img, t), Current(t);
      && u == t.(pcbs := u.pcbs, esp0 := KERNEL_STACK - PCB_SIZE * (c.processNum - 1) - 4)
      && PcbAt(u.pcbs, t.current) == c.(fds := Standard(c.fds))
      && forall a {:trigger PcbAt(u.pcbs, a)} :: a != t.current ==> PcbAt(u.pcbs, a) == PcbAt(t.pcbs, a)
  {
    var u := Open(img, t, STDIN).state;
    OpenTakesLeastFree(img, t, STDIN);
    OpenTakesLeastFree(img, u, STDOUT);
  }

  /** On an empty table the two go to descriptors 0 and 1, and nothing else is open. */
  lemma StandardOfFree(fds: seq<Fd>)
    requires |fds| == MAX_FILES_NUMBER && AllFree(fds)
    ensures Standard(fds) == fds[0 := STDIN_FD][1 := STDOUT_FD]
  {
    var one := fds[0 := STDIN_FD];
    assert FirstFree(fds, 0) == 0;
    assert FirstFree(one, 0) == FirstFree(one, 1) == 1;
  }

  /** On the table of a live process they go to further descriptors, or nowhere. */
  lemma StandardOfLive(img: bytes, fds: seq<Fd>)
    requires WellFormed(img) && FdsOk(img, fds)
    ensures FdsOk(img, Standard(fds))
  {
    var one := Added(fds, STDIN_FD);
    assert FirstFree(fds, 0) >= 2;
    assert FdsOk(img, one);
    assert FirstFree(one, 0) >= 2;
  }

  /** The spawned process n: where it is, and what of the old state is left. */
  lemma SpawnedChild(img: bytes, s: Kernel, program: bytes, args: bytes, esp: int, ebp: int)
    requires Inv(img, s) && s.total < MAXIMUM_PROCESS - 1 && LOAD_OFFSET + |program| <= PAGE_SIZE && Mask(esp) == s.current
    ensures var t, n := Spawned(s, program, args, esp, ebp), s.total + 1;
      && t.total == n && t.current == Slot(n) && t.pageDir[USER_ENTRY] == UserPde(n)
      && AllFree(Current(t).fds) && |Current(t).fds| == MAX_FILES_NUMBER
      && Current(t).processNum == n && Current(t).parentNum == n - 1 && Current(t).parent == Slot(n - 1)
      && Current(t).parentEsp == esp && Current(t).parentEbp == ebp && Current(t).argbuf == args
      && forall a {:trigger PcbAt(t.pcbs, a)} :: a != t.current ==> PcbAt(t.pcbs, a) == PcbAt(s.pcbs, a)
  {
    assert LiveOk(img, PcbAt(s.pcbs, Slot(s.total)), s.total);
    assert AllFree(PcbAt(s.pcbs, Slot(s.total + 1)).fds);
  }

  /** The state of a spawned process before its descriptors are opened: all but those is in place. */
  ghost predicate AlmostInv(img: bytes, t: Kernel) {
    && ImageOk(img) && Shaped(t)
    && 1 <= t.total <= MAXIMUM_PROCESS - 1
    && t.current == Slot(t.total) && t.pageDir[USER_ENTRY] == UserPde(t.total)
    && Current(t).processNum == t.total
    && Current(t).parentNum == Max(1, t.total - 1) && Current(t).parent == Slot(Max(1, t.total - 1))
    && (2 <= t.total ==> Mask(Current(t).parentEsp) == Slot(t.total - 1))
    && (AllFree(Current(t).fds) || FdsOk(img, Current(t).fds)) && ArgsOk(Current(t).argbuf)
    && (forall j {:trigger Slot(j)} :: 1 <= j < t.total ==> LiveOk(img, PcbAt(t.pcbs, Slot(j)), j))
    && (forall j {:trigger Slot(j)} :: t.total < j ==> AllFree(PcbAt(t.pcbs, Slot(j)).fds))
  }

  lemma EquippedInv(img: bytes, t: Kernel)
    requires AlmostInv(img, t)
    ensures Inv(img, Equipped(img, t))
  {
    var u := Equipped(img, t);
    EquippedFds(img, t);
    if AllFree(Current(t).fds) {
      StandardOfFree(Current(t).fds);
    } else {
      StandardOfLive(img, Current(t).fds);
    }
    MaskFindsSlot(t.total, u.esp0);
    assert LiveOk(img, PcbAt(u.pcbs, Slot(t.total)), t.total);
    forall j {:trigger Slot(j)} | 1 <= j <= u.total ensures LiveOk(img, PcbAt(u.pcbs, Slot(j)), j) {
      if j < t.total {
        assert LiveOk(img, PcbAt(t.pcbs, Slot(j)), j);
      }
    }
    forall j {:trigger Slot(j)} | u.total < j ensures AllFree(PcbAt(u.pcbs, Slot(j)).fds) {
      assert AllFree(PcbAt(t.pcbs, Slot(j)).fds);
    }
  }

  lemma ChildKeepsInv(img: bytes, s: Kernel, program: bytes, args: bytes, esp: int, ebp: int)
    requires ArgsOk(args)
    requires Inv(img, s) && s.total < MAXIMUM_PROCESS - 1 && LOAD_OFFSET + |program| <= PAGE_SIZE && Mask(esp) == s.current
    ensures Inv(img, Equipped(img, Spawned(s, program, args, esp, ebp)))
  {
    var t := Spawned(s, program, args, esp, ebp);
    SpawnedChild(img, s, program, args, esp, ebp);
    forall j {:trigger Slot(j)} | 1 <= j < t.total ensures LiveOk(img, PcbAt(t.pcbs, Slot(j)), j) {
      assert LiveOk(img, PcbAt(s.pcbs, Slot(j)), j);
    }
    forall j {:trigger Slot(j)} | t.total < j ensures AllFree(PcbAt(t.pcbs, Slot(j)).fds) {
      assert AllFree(PcbAt(s.pcbs, Slot(j)).fds);
    }
    EquippedInv(img, t);
  }

  lemma ExecuteKeepsInv(img: bytes, s: Kernel, command: bytes, esp: int, ebp: int)
    requires CommandOk(command) && Inv(img, s) && Mask(esp) == s.current
    ensures Inv(img, Execute(img, s, command, esp, ebp).0)
  {
    var program := Program(img, Parse(command).name);
    if program.Some? {
      if s.total >= MAXIMUM_PROCESS - 1 {
        OutputKeepsInv(img, s, Execute(img, s, command, esp, ebp).0);
      } else {
        ArgsFit(command);
        ChildKeepsInv(img, s, program.value, Parse(command).args, esp, ebp);
      }
    }
  }

  /** Memory as the kernel finds it before the first process: nothing but shape is known of it. */
  ghost predicate Bare(img: bytes, s: Kernel) {
    && ImageOk(img) && Shaped(s) && s.total == 0
    && forall j {:trigger Slot(j)} :: 1 < j ==> AllFree(PcbAt(s.pcbs, Slot(j)).fds)
  }

  lemma NothingRunIsBare(img: bytes, s: Kernel)
    requires ImageOk(img) && Shaped(s) && s.total == 0 && s.pcbs == map[]
    ensures Bare(img, s)
  {
  }

  /** The first shell, started with whatever its control block holds: an empty table, or a live one. */
  lemma FirstShellInv(img: bytes, s: Kernel, esp: int, ebp: int)
    requires Bare(img, s)
    requires AllFree(PcbAt(s.pcbs, Slot(1)).fds) || FdsOk(img, PcbAt(s.pcbs, Slot(1)).fds)
    ensures Inv(img, Execute(img, s, SHELL, esp, ebp).0)
    ensures Execute(img, s, SHELL, esp, ebp).1.Entered?
  {
    ParseShell();
    var t := Spawned(s, Program(img, SHELL).value, Parse(SHELL).args, esp, ebp);
    assert Current(t).fds == PcbAt(s.pcbs, Slot(1)).fds;
    forall j {:trigger Slot(j)} | t.total < j ensures AllFree(PcbAt(t.pcbs, Slot(j)).fds) {
      assert AllFree(PcbAt(s.pcbs, Slot(j)).fds);
    }
    EquippedInv(img, t);
  }

  lemma ParseShell()
    ensures Parse(SHELL) == Command(SHELL, [])
  {
    assert SHELL[1..] == [104, 101, 108, 108] && [104, 101, 108, 108][1..] == [101, 108, 108];
    assert [101, 108, 108][1..] == [108, 108] && [108, 108][1..] == [108] && [108][1..] == [];
    assert FirstWord([108, 108]) == [108] + FirstWord([108]);
    assert FirstWord([101, 108, 108]) == [101] + FirstWord([108, 108]);
    assert FirstWord([104, 101, 108, 108]) == [104] + FirstWord([101, 108, 108]);
    assert AfterWord([108, 108]) == AfterWord([108]) == [];
    assert AfterWord([101, 108, 108]) == AfterWord([108, 108]);
    assert AfterWord([104, 101, 108, 108]) == AfterWord([101, 108, 108]);
  }

  lemma HaltKeepsInv(img: bytes, s: Kernel, status: int)
    requires Inv(img, s)
    ensures Inv(img, Halt(img, s, status).0)
  {
    assert LiveOk(img, PcbAt(s.pcbs, Slot(s.total)), s.total);
    if s.total == 1 {
      forall j {:trigger Slot(j)} | 1 < j ensures AllFree(PcbAt(s.pcbs, Slot(j)).fds) {
      }
      FirstShellInv(img, s.(total := 0), 0, 0);
    } else {
      var t := Halt(img, s, status).0;
      forall j {:trigger Slot(j)} | 1 <= j <= t.total ensures LiveOk(img, PcbAt(t.pcbs, Slot(j)), j) {
        assert LiveOk(img, PcbAt(s.pcbs, Slot(j)), j);
      }
      forall j {:trigger Slot(j)} | t.total < j ensures AllFree(PcbAt(t.pcbs, Slot(j)).fds) {
        if j != s.total {
          assert AllFree(PcbAt(s.pcbs, Slot(j)).fds);
        }
      }
    }
  }

  lemma StoreKeepsInv(img: bytes, s: Kernel, offset: nat, b: byte)
    requires Inv(img, s) && offset < PAGE_SIZE
    ensures Inv(img, StoreByte(s, offset, b))
  {
    var t := StoreByte(s, offset, b);
    forall j {:trigger Slot(j)} | 1 <= j <= t.total ensures LiveOk(img, PcbAt(t.pcbs, Slot(j)), j) {
      assert LiveOk(img, PcbAt(s.pcbs, Slot(j)), j);
    }
  }

  lemma VidmapKeepsInv(img: bytes, s: Kernel, screenStart: int, table: int)
    requires Inv(img, s)
    ensures Inv(img, Vidmap(s, screenStart, table).state)
  {
    var t := Vidmap(s, screenStart, table).state;
    forall j {:trigger Slot(j)} | 1 <= j <= t.total ensures LiveOk(img, PcbAt(t.pcbs, Slot(j)), j) {
      assert LiveOk(img, PcbAt(s.pcbs, Slot(j)), j);
    }
  }

  lemma StepKeepsInv(img: bytes, s: Kernel, c: Call)
    requires Inv(img, s) && CallOk(s, c)
    ensures Runnable(img, s) && Inv(img, Step(img, s, c).0)
  {
    match c
    case OpenCall(name) => OpenKeepsInv(img, s, name);
    case CloseCall(fd) => CloseKeepsInv(img, s, fd);
    case ReadCall(fd, n, device) => ReadKeepsInv(img, s, fd, n, device);
    case WriteCall(fd, data) => WriteKeepsInv(img, s, fd, data);
    case VidmapCall(p, table) => VidmapKeepsInv(img, s, p, table);
    case ExecuteCall(command, esp, ebp) => ExecuteKeepsInv(img, s, command, esp, ebp);
    case HaltCall(status) => HaltKeepsInv(img, s, status);
    case Store(offset, b) => StoreKeepsInv(img, s, offset, b);
  }
}
