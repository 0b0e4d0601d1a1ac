/** The system calls as they are coded, on an object whose fields they update; each is one step of KernelSpec. */
module KernelCode {
  import opened Bytes
  import opened FileImage
  import opened Directory
  import opened CommandLine
  import opened KernelSpec
  import opened KernelInvariant

  /** A read seen in two steps, as system_read takes it: the directory cursor moves, then the descriptor. */
  lemma ReadAsAdvance(img: bytes, s: Kernel, u: Kernel, fd: nat, nbytes: int, device: bytes)
    requires WellFormed(img) && Shaped(s) && IsOpen(s, fd) && u == s.(dirDentry := u.dirDentry, lastDentry := u.lastDentry)
    requires Current(s).fds[fd].ops == DirOps && s.lastDentry < DentryCount(img) ==>
      u.lastDentry == s.lastDentry + 1
      && u.dirDentry == match LookupIndex(img, u.lastDentry) case None => s.dirDentry case Some(e) => e
    requires !(Current(s).fds[fd].ops == DirOps && s.lastDentry < DentryCount(img)) ==> u == s
    ensures var r := Read(img, s, fd, nbytes, device);
      if r.count == -1 then r.state == u
      else r.count >= 0 && r.state == WithFd(u, fd, KernelInvariant.Moved(Current(s).fds[fd], r.count))
    ensures Read(img, s, fd, nbytes, device).count == match Current(s).fds[fd].ops
      case FileOps => |Clip(Contents(img, Current(s).fds[fd].inode), Current(s).fds[fd].position, nbytes)|
      case DirOps => if s.lastDentry < DentryCount(img) then |s.dirDentry.name| else 0
      case StdinOps => |device|
      case RtcOps => 0
      case _ => -1
  {
    hide Contents, Clip, Lookup, LookupIndex;
  }

  /** The first forty bytes of a file, when it has that many. */
  method ReadHeader(img: bytes, inode: nat) returns (ok: bool, header: bytes)
    requires WellFormed(img)
    ensures ok <==> HEADER_INFO <= |Contents(img, inode)|
    ensures ok ==> header == Contents(img, inode)[..HEADER_INFO]
  {
    var buf := new byte[HEADER_INFO + 1];
    var n := ReadData(img, inode, 0, buf, 0, HEADER_INFO);
    ok, header := n == HEADER_INFO, buf[..HEADER_INFO];
  }

  /** The checks of system_execute before anything changes: the entry, forty header bytes, the magic number. */
  method FindProgram(img: bytes, name: bytes) returns (found: bool, inode: nat, eip: nat)
    requires WellFormed(img)
    ensures found <==> Program(img, name).Some?
    ensures found ==>
      Contents(img, inode) == Program(img, name).value && eip == WordAt(Contents(img, inode), ENTRY_POINT_LOC)
  {
    hide Contents, Lookup, LittleEndian, WellFormed, Program, IsProgram;
    found, inode, eip := false, 0, 0;
    var d := ReadDentryByName(img, name);
    ProgramOf(img, name);
    if d.None? {
      return;
    }
    inode := d.value.inode;
    var ok, header := ReadHeader(img, inode);
    HeaderDecides(Contents(img, inode));
    if !ok {
      return;
    }
    var differs := Strncmp(header, MAGIC, 4);
    if differs != 0 {
      return;
    }
    found := true;
    eip := LittleEndian(header[ENTRY_POINT_LOC..ENTRY_POINT_LOC + 4]);
  }

  lemma ClipAll(c: bytes)
    requires |c| <= PAGE_SIZE
    ensures Clip(c, 0, PAGE_SIZE) == c
  {
  }

  lemma ProgramOf(img: bytes, name: bytes)
    requires WellFormed(img)
    ensures match Lookup(img, name)
      case None => Program(img, name).None?
      case Some(d) =>
        && (Program(img, name).Some? <==> IsProgram(Contents(img, d.inode)))
        && (Program(img, name).Some? ==> Program(img, name).value == Contents(img, d.inode))
  {
  }

  /** The first forty bytes tell whether the file is a program, and where it starts. */
  lemma HeaderDecides(c: bytes)
    ensures |c| < HEADER_INFO ==> !IsProgram(c)
    ensures HEADER_INFO <= |c| ==> (c[..HEADER_INFO][..4] == MAGIC[..4] <==> IsProgram(c))
    ensures HEADER_INFO <= |c| ==>
      c[..HEADER_INFO][ENTRY_POINT_LOC..ENTRY_POINT_LOC + 4] == c[ENTRY_POINT_LOC..ENTRY_POINT_LOC + 4]
  {
    if HEADER_INFO <= |c| {
      SliceSlice(c, 0, HEADER_INFO, 0, 4);
      SliceSlice(c, 0, HEADER_INFO, ENTRY_POINT_LOC, ENTRY_POINT_LOC + 4);
      assert MAGIC[..4] == MAGIC;
    }
  }

  class System {
    const img: bytes
    const frames: seq<array<byte>>
    var total: int
    var current: int
    var pcbs: map<int, Pcb>
    var pageDir: seq<Pde>
    var esp0: int
    var dirDentry: Dentry
    var lastDentry: nat
    var output: bytes

    ghost function Pages(): (p: seq<bytes>)
      reads frames
      ensures |p| == |frames| && forall f :: 0 <= f < |frames| ==> p[f] == frames[f][..]
    {
      PagesFrom(0)
    }

    ghost function PagesFrom(k: nat): (p: seq<bytes>)
      requires k <= |frames|
      reads frames
      ensures |p| == |frames| - k && forall f :: 0 <= f < |frames| - k ==> p[f] == frames[k + f][..]
      decreases |frames| - k
    {
      if k == |frames| then [] else [frames[k][..]] + PagesFrom(k + 1)
    }

    ghost function View(): Kernel
      reads this, frames
    {
      Kernel(total, current, pcbs, pageDir, Pages(), esp0, dirDentry, lastDentry, output)
    }

    /** The frames are distinct blocks of memory. */
    ghost predicate Memory()
      reads frames
    {
      && |frames| == FRAMES
      && (forall f :: 0 <= f < FRAMES ==> frames[f].Length == PAGE_SIZE)
      && forall f, g :: 0 <= f < g < FRAMES ==> frames[f] != frames[g]
    }

    ghost predicate Shape()
      reads this, frames
    {
      ImageOk(img) && Memory() && Shaped(View())
    }

    ghost predicate Valid()
      reads this, frames
    {
      Shape() && Inv(img, View())
    }

    function Pcb(): Pcb
      reads this
    {
      PcbAt(pcbs, current)
    }

    /** Power-on: no process, no control block ever written, frames with anything in them. */
    constructor (img: bytes, pageTable: int)
      requires ImageOk(img)
      ensures this.img == img && Shape() && Bare(img, View()) && pcbs == map[]
      ensures pageDir == InitialDirectory(pageTable) && output == []
      ensures forall f :: 0 <= f < FRAMES ==> fresh(frames[f])
    {
      hide WellFormed, Program;
      var memory := PhysicalMemory();
      this.img, frames := img, memory;
      total, current, pcbs, esp0 := 0, 0, map[], 0;
      dirDentry, lastDentry, output := NO_DENTRY, 0, [];
      pageDir := seq(PAGING_SIZE, i => ABSENT_PDE);
      new;
      InitPaging(pageTable);
      NothingRunIsBare(img, View());
      hide Bare;
    }

    static method PhysicalMemory() returns (memory: seq<array<byte>>)
      ensures |memory| == FRAMES && forall f :: 0 <= f < FRAMES ==> fresh(memory[f]) && memory[f].Length == PAGE_SIZE
      ensures forall f, g :: 0 <= f < g < FRAMES ==> memory[f] != memory[g]
    {
      memory := [];
      while |memory| < FRAMES
        invariant |memory| <= FRAMES
        invariant forall f :: 0 <= f < |memory| ==> fresh(memory[f]) && allocated(memory[f]) && memory[f].Length == PAGE_SIZE
        invariant forall f, g :: 0 <= f < g < |memory| ==> memory[f] != memory[g]
      {
        var frame := new byte[PAGE_SIZE];
        memory := memory + [frame];
      }
    }

    method InitPaging(pageTable: int)
      requires |pageDir| == PAGING_SIZE
      modifies this`pageDir
      ensures pageDir == InitialDirectory(pageTable)
    {
      var i := 0;
      while i < PAGING_SIZE
        invariant 0 <= i <= PAGING_SIZE == |pageDir|
        invariant forall k :: 0 <= k < i ==> pageDir[k] == ABSENT_PDE
      {
        pageDir := pageDir[i := ABSENT_PDE];
        i := i + 1;
      }
      assert pageDir == seq(PAGING_SIZE, i => ABSENT_PDE);
      pageDir := pageDir[1 := Pde(true, true, false, true, KERNEL_FRAME)];
      pageDir := pageDir[0 := Pde(true, true, true, false, pageTable)];
      pageDir := pageDir[SCROLL_ENTRY := Pde(true, true, false, true, 0)];
    }

    /** The boot's last act: the first shell. From here on the object is Valid. */
    method Boot()
      requires Shape() && Bare(img, View()) && AllFree(PcbAt(pcbs, Slot(1)).fds)
      modifies this, frames
      ensures Valid() && View() == Execute(img, old(View()), SHELL, 0, 0).0
    {
      FirstShellInv(img, View(), 0, 0);
      hide Execute, Inv;
      var o := SystemExecute(SHELL, 0, 0);
    }

    /** An assignment to one descriptor of the running process. */
    method SetFd(i: nat, fd: Fd)
      requires Shape() && i < MAX_FILES_NUMBER
      modifies this`pcbs
      ensures View() == WithFd(old(View()), i, fd)
    {
      pcbs := pcbs[current := Pcb().(fds := Pcb().fds[i := fd])];
    }

    method SystemOpen(filename: bytes) returns (index: int)
      requires Shape()
      modifies this`pcbs, this`dirDentry, this`lastDentry
      ensures View() == Open(img, old(View()), filename).state
      ensures index == Open(img, old(View()), filename).value
    {
      hide WellFormed, Program, Lookup;
      index := 0;
      while index < MAX_FILES_NUMBER
        invariant 0 <= index <= MAX_FILES_NUMBER && FirstFree(Pcb().fds, index) == FirstFree(Pcb().fds, 0)
      {
        if Pcb().fds[index].flags == 0 {
          break;
        }
        index := index + 1;
      }
      if index == MAX_FILES_NUMBER {
        return -1;
      }
      if filename == STDIN {
        SetFd(index, Fd(StdinOps, 0, 0, 1));
      } else if filename == STDOUT {
        SetFd(index, Fd(StdoutOps, 0, 0, 1));
      } else if filename == RTC {
        SetFd(index, Fd(RtcOps, 0, 0, 1));
      } else if filename == DOT {
        SetFd(index, Fd(DirOps, 0, 0, 1));
        DirOpen(filename);
      } else {
        var d := ReadDentryByName(img, filename);
        if d.None? {
          return -1;
        }
        SetFd(index, Fd(FileOps, d.value.inode, 0, 1));
      }
    }

    method DirOpen(filename: bytes)
      requires Shape()
      modifies this`dirDentry, this`lastDentry
      ensures lastDentry == 0
      ensures dirDentry == match Lookup(img, filename) case None => old(dirDentry) case Some(d) => d
    {
      lastDentry := 0;
      var d := ReadDentryByName(img, filename);
      if d.Some? {
        dirDentry := d.value;
      }
    }

    method SystemClose(fd: int) returns (r: int)
      requires Shape()
      modifies this`pcbs, this`lastDentry
      ensures View() == Close(old(View()), fd).state && r == Close(old(View()), fd).value
    {
      if !(0 <= fd < MAX_FILES_NUMBER) || Pcb().fds[fd].flags == 0 {
        return -1;
      }
      if fd < 2 {
        return -1;
      }
      if Pcb().fds[fd].ops == DirOps {
        lastDentry := 0;
      }
      SetFd(fd, Cleared(Pcb().fds[fd]));
      r := 0;
    }

    /** What a read writes into the caller's buffer: a directory entry comes with its terminator. */
    ghost function Arriving(d: Fd, nbytes: int, device: bytes): bytes
      requires Shape()
      reads this, frames
    {
      match d.ops
      case FileOps => Clip(Contents(img, d.inode), d.position, nbytes)
      case DirOps => if lastDentry < DentryCount(img) then dirDentry.name + [NUL] else []
      case StdinOps => device
      case _ => []
    }

    ghost function ArrivingOn(fd: int, nbytes: int, device: bytes): bytes
      requires Shape()
      reads this, frames
    {
      if IsOpen(View(), fd) then Arriving(Pcb().fds[fd], nbytes, device) else []
    }

    /** system_read: dispatch to the descriptor's read function, then advance its position. */
    method SystemRead(fd: int, buf: array<byte>, at: nat, nbytes: int, device: bytes) returns (count: int)
      requires Shape() && buf !in frames && at + |ArrivingOn(fd, nbytes, device)| <= buf.Length
      modifies this`pcbs, this`dirDentry, this`lastDentry, buf
      ensures View() == Read(img, old(View()), fd, nbytes, device).state
      ensures count == Read(img, old(View()), fd, nbytes, device).count
      ensures buf[..] == Replaced(old(buf[..]), at, old(ArrivingOn(fd, nbytes, device)))
    {
      if !(0 <= fd < MAX_FILES_NUMBER) || Pcb().fds[fd].flags == 0 {
        return -1;
      }
      hide WellFormed, Program, Contents, Clip, Lookup, Read, Replaced;
      count := ReadOpen(fd, buf, at, nbytes, device);
    }

    method ReadOpen(fd: nat, buf: array<byte>, at: nat, nbytes: int, device: bytes) returns (count: int)
      requires Shape() && IsOpen(View(), fd) && buf !in frames
      requires at + |Arriving(Pcb().fds[fd], nbytes, device)| <= buf.Length
      modifies this`pcbs, this`dirDentry, this`lastDentry, buf
      ensures View() == Read(img, old(View()), fd, nbytes, device).state
      ensures count == Read(img, old(View()), fd, nbytes, device).count
      ensures buf[..] == Replaced(old(buf[..]), at, old(Arriving(Pcb().fds[fd], nbytes, device)))
    {
      hide WellFormed, Program, Contents, Clip, Lookup, Read, Replaced, Arriving;
      var d := Pcb().fds[fd];
      ghost var s := View();
      count := ReadByOps(d, buf, at, nbytes, device);
      ReadAsAdvance(img, s, View(), fd, nbytes, device);
      if count == -1 {
        return -1;
      }
      SetFd(fd, KernelInvariant.Moved(d, count));
    }

    method ReadByOps(d: Fd, buf: array<byte>, at: nat, nbytes: int, device: bytes) returns (count: int)
      requires Shape() && buf !in frames && at + |Arriving(d, nbytes, device)| <= buf.Length
      modifies this`dirDentry, this`lastDentry, buf
      ensures View() == old(View()).(dirDentry := dirDentry, lastDentry := lastDentry)
      ensures buf[..] == Replaced(old(buf[..]), at, old(Arriving(d, nbytes, device)))
      ensures count == match d.ops
        case FileOps => |Clip(Contents(img, d.inode), d.position, nbytes)|
        case DirOps => if old(lastDentry) < DentryCount(img) then |old(dirDentry).name| else 0
        case StdinOps => |device|
        case RtcOps => 0
        case _ => -1
      ensures d.ops != DirOps || old(lastDentry) >= DentryCount(img) ==>
        dirDentry == old(dirDentry) && lastDentry == old(lastDentry)
      ensures d.ops == DirOps && old(lastDentry) < DentryCount(img) ==>
        && lastDentry == old(lastDentry) + 1
        && dirDentry == match LookupIndex(img, lastDentry) case None => old(dirDentry) case Some(e) => e
    {
      match d.ops {
        case FileOps =>
          count := FileRead(img, d.inode, d.position, buf, at, nbytes);
        case DirOps =>
          count := DirRead(buf, at);
        case StdinOps =>
          CopyIn(device, buf, at);
          count := |device|;
        case RtcOps =>
          count := 0;
        case _ =>
          count := -1;
      }
    }

    method DirRead(buf: array<byte>, at: nat) returns (count: nat)
      requires Shape() && buf !in frames && (lastDentry < DentryCount(img) ==> at + |dirDentry.name| + 1 <= buf.Length)
      modifies this`dirDentry, this`lastDentry, buf
      ensures old(lastDentry) >= DentryCount(img) ==>
        count == 0 && buf[..] == old(buf[..]) && dirDentry == old(dirDentry) && lastDentry == old(lastDentry)
      ensures old(lastDentry) < DentryCount(img) ==>
        && count == |old(dirDentry).name| && buf[..] == Replaced(old(buf[..]), at, old(dirDentry).name + [NUL])
        && lastDentry == old(lastDentry) + 1
        && dirDentry == match LookupIndex(img, lastDentry) case None => old(dirDentry) case Some(e) => e
    {
      if lastDentry >= DentryCount(img) {
        return 0;
      }
      CopyIn(dirDentry.name + [NUL], buf, at);
      count := |dirDentry.name|;
      lastDentry := lastDentry + 1;
      var d := ReadDentryByIndex(img, lastDentry);
      if d.Some? {
        dirDentry := d.value;
      }
    }

    method SystemWrite(fd: int, data: bytes) returns (r: int)
      requires Shape()
      modifies this`output
      ensures View() == Write(old(View()), fd, data).state && r == Write(old(View()), fd, data).value
    {
      if !(0 <= fd < MAX_FILES_NUMBER) || Pcb().fds[fd].flags == 0 {
        return -1;
      }
      match Pcb().fds[fd].ops {
        case StdoutOps =>
          output := output + data;
          r := |data|;
        case RtcOps =>
          if |data| != 4 {
            return -1;
          }
          if LittleEndian(data) !in RTC_FREQUENCIES {
            output := output + WRONG_FREQUENCY;
            return -1;
          }
          r := |data|;
        case _ =>
          r := -1;
      }
    }

    /** system_getargs copies the whole argument text and its terminator. */
    method SystemGetargs(buf: array<byte>, at: nat) returns (r: int)
      requires Shape() && buf !in frames && at + |Pcb().argbuf| + 1 <= buf.Length
      modifies buf
      ensures r == 0 && buf[..] == Replaced(old(buf[..]), at, Pcb().argbuf + [NUL])
    {
      CopyIn(Pcb().argbuf + [NUL], buf, at);
      r := 0;
    }

    /** system_vidmap, with the address it stores at the caller's pointer when it succeeds. */
    method SystemVidmap(screenStart: int, table: int) returns (r: int, address: int)
      requires Shape()
      modifies this`pageDir
      ensures View() == Vidmap(old(View()), screenStart, table).state
      ensures r == Vidmap(old(View()), screenStart, table).value && (r == 0 ==> address / PAGE_SIZE == VIDMAP_ENTRY)
    {
      hide WellFormed, Program;
      if screenStart == 0 || screenStart == PAGE_SIZE {
        return -1, 0;
      }
      pageDir := pageDir[VIDMAP_ENTRY := Pde(true, true, true, false, table)];
      return 0, 0x1000_0000;
    }

    method SetProcessPde(virtualAddress: nat, processNum: int)
      requires Shape() && virtualAddress / PAGE_SIZE < PAGING_SIZE
      modifies this`pageDir
      ensures pageDir == old(pageDir)[virtualAddress / PAGE_SIZE := UserPde(processNum)]
    {
      pageDir := pageDir[virtualAddress / PAGE_SIZE := Pde(true, true, true, true, KERNEL_FRAME + processNum)];
    }

    /** The page entry, and then the loader: through it, the whole program goes to its load address. */
    method MapAndLoad(inode: nat)
      requires Shape() && 0 <= total < MAXIMUM_PROCESS - 1 && LOAD_OFFSET + |Contents(img, inode)| <= PAGE_SIZE
      modifies this`pageDir, frames
      ensures View() == Paged(old(View()), Contents(img, inode))
    {
      hide Program, WellFormed, Contents, Loaded;
      SetProcessPde(PROGRAM_VIRTUAL_START, total + 1);
      LoadFrame(pageDir[USER_ENTRY].base, inode);
    }

    /** The loader's loop; no other frame changes. */
    method LoadFrame(f: nat, inode: nat)
      requires WellFormed(img) && Memory() && f < FRAMES && LOAD_OFFSET + |Contents(img, inode)| <= PAGE_SIZE
      modifies frames[f]
      ensures Pages() == old(Pages())[f := Loaded(old(Pages())[f], Contents(img, inode))]
    {
      hide WellFormed, Contents, Clip, Replaced;
      ghost var was, c := Pages(), Contents(img, inode);
      ClipAll(c);
      var count := FileRead(img, inode, 0, frames[f], LOAD_OFFSET, PAGE_SIZE);
      forall g | 0 <= g < FRAMES ensures Pages()[g] == was[f := Loaded(was[f], c)][g] {
        assert g != f ==> frames[g] != frames[f];
      }
    }

    /** The new control block, on the parent's control block found from the stack pointer. */
    method CreatePcb(args: bytes, esp: int, ebp: int)
      requires Shape()
      modifies this`pcbs, this`total, this`current
      ensures View() == Created(old(View()), args, esp, ebp)
    {
      hide WellFormed, Program;
      var child;
      if total == 0 {
        child := KERNEL_STACK - PCB_SIZE;
        pcbs := pcbs[child := PcbAt(pcbs, child).(parentNum := 1, processNum := 1, parent := child)];
      } else {
        var parentPcb := Mask(esp);
        var parent := PcbAt(pcbs, parentPcb);
        child := KERNEL_STACK - (parent.processNum + 1) * PCB_SIZE;
        pcbs := pcbs[child := PcbAt(pcbs, child).(
          parentNum := parent.processNum, processNum := parent.processNum + 1, parent := parentPcb,
          parentEsp := esp, parentEbp := ebp)];
      }
      pcbs := pcbs[child := pcbs[child].(argbuf := args)];
      total := total + 1;
      current := child;
    }

    /** Paging, loading and the control block: everything about the new process but its descriptors. */
    method SpawnProcess(inode: nat, args: bytes, esp: int, ebp: int)
      requires Shape() && 0 <= total < MAXIMUM_PROCESS - 1 && LOAD_OFFSET + |Contents(img, inode)| <= PAGE_SIZE
      modifies this`pcbs, this`total, this`current, this`pageDir, frames
      ensures View() == Spawned(old(View()), Contents(img, inode), args, esp, ebp)
    {
      hide WellFormed, Program, Contents, Paged, Created;
      MapAndLoad(inode);
      CreatePcb(args, esp, ebp);
    }

    /** The standard descriptors and the kernel stack of the new process. */
    method EquipProcess()
      requires Shape()
      modifies this`pcbs, this`dirDentry, this`lastDentry, this`esp0
      ensures View() == Equipped(img, old(View()))
    {
      hide Open;
      var fd := SystemOpen(STDIN);
      fd := SystemOpen(STDOUT);
      esp0 := KERNEL_STACK - PCB_SIZE * (Pcb().processNum - 1) - 4;
    }

    /** system_execute up to the switch to user mode; `esp` and `ebp` are the registers it reads. */
    method SystemExecute(command: bytes, esp: int, ebp: int) returns (o: Outcome)
      requires Shape() && 0 <= total && CommandOk(command)
      modifies this, frames
      ensures View() == Execute(img, old(View()), command, esp, ebp).0
      ensures o == Execute(img, old(View()), command, esp, ebp).1
    {
      hide Parse, Spawned, Equipped;
      var name, args := ParseCommand(command);
      var found, inode, eip := FindProgram(img, name);
      if !found {
        return Returned(-1);
      }
      if total >= MAXIMUM_PROCESS - 1 {
        output := output + NO_MORE_PROCESS;
        return Returned(-1);
      }
      SpawnProcess(inode, args, esp, ebp);
      EquipProcess();
      o := Entered(eip);
    }

    method ClearDescriptors()
      requires Shape()
      modifies this`pcbs
      ensures View() == old(View()).(pcbs := old(pcbs)[current := old(Pcb()).(fds := ClearedFds(old(Pcb()).fds))])
    {
      hide WellFormed, Program;
      ghost var s, was := View(), Pcb();
      ghost var fds := was.fds;
      var i := 0;
      while i < MAX_FILES_NUMBER
        invariant 0 <= i <= MAX_FILES_NUMBER && |Pcb().fds| == |fds| == MAX_FILES_NUMBER
        invariant forall k :: 0 <= k < MAX_FILES_NUMBER ==> Pcb().fds[k] == if k < i then Cleared(fds[k]) else fds[k]
        invariant pcbs == if i == 0 then s.pcbs else s.pcbs[current := was.(fds := Pcb().fds)]
      {
        pcbs := pcbs[current := Pcb().(fds := Pcb().fds[i := Cleared(Pcb().fds[i])])];
        i := i + 1;
      }
      assert Pcb().fds == ClearedFds(fds);
    }

    /** system_halt up to the jump back into the parent; the first shell is started again instead. */
    method SystemHalt(status: int) returns (o: Outcome)
      requires Shape() && 1 <= total
      modifies this, frames
      ensures View() == Halt(img, old(View()), status).0
      ensures o == Halt(img, old(View()), status).1
    {
      hide Execute, WellFormed, Program;
      total := total - 1;
      if total == 0 {
        o := SystemExecute(SHELL, 0, 0);
        return;
      }
      var parentEsp, parentEbp := Pcb().parentEsp, Pcb().parentEbp;
      esp0 := parentEsp;
      SetProcessPde(PROGRAM_VIRTUAL_START, Pcb().parentNum);
      ClearDescriptors();
      current := Pcb().parent;
      o := Resumed(parentEsp, parentEbp, status);
    }
  }
}
