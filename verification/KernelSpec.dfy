/**
 The process, file-descriptor and paging state of the kernel as a value, and its system
 calls as steps on that value. Process control blocks live at fixed addresses below the
 kernel stack base; a process is found by masking a stack pointer.
 */
module KernelSpec {
  import opened Bytes
  import opened FileImage
  import opened Directory
  import opened CommandLine

  const KERNEL_STACK := 0x80_0000
  const PCB_SIZE := 0x2000
  const PAGE_SIZE := 0x40_0000
  const PROGRAM_VIRTUAL_START := 0x800_0000
  const PROGRAM_LOAD_ADDR := 0x804_8000
  const LOAD_OFFSET := PROGRAM_LOAD_ADDR - PROGRAM_VIRTUAL_START
  const HEADER_INFO := 40
  const ENTRY_POINT_LOC := 24
  const MAXIMUM_PROCESS := 6
  const MAX_FILES_NUMBER := 8
  const PAGING_SIZE := 1024
  // PROGRAM_VIRTUAL_START >> 22
  const USER_ENTRY := 32
  // 256MB / 4MB: where a program sees the video memory once it has asked for it
  const VIDMAP_ENTRY := 64
  // KERNAL_MEM_ADDR >> 22: the frame that holds the kernel
  const KERNEL_FRAME := 1
  const FRAMES := KERNEL_FRAME + MAXIMUM_PROCESS

  const MAGIC: bytes := [0x7f, 0x45, 0x4c, 0x46]
  const STDIN: bytes := [115, 116, 100, 105, 110]
  const STDOUT: bytes := [115, 116, 100, 111, 117, 116]
  const RTC: bytes := [114, 116, 99]
  const DOT: bytes := [46]
  const SHELL: bytes := [115, 104, 101, 108, 108]

  // ---------- the state ----------

  datatype Ops = NoOps | StdinOps | StdoutOps | RtcOps | DirOps | FileOps

  datatype Fd = Fd(ops: Ops, inode: nat, position: nat, flags: nat)

  const FREE_FD := Fd(NoOps, 0, 0, 0)

  datatype Pcb = Pcb(
    fds: seq<Fd>, parentEsp: int, parentEbp: int,
    processNum: int, parentNum: int, parent: int, argbuf: bytes)

  /** Memory that has never been written. */
  const ZERO_PCB := Pcb([FREE_FD, FREE_FD, FREE_FD, FREE_FD, FREE_FD, FREE_FD, FREE_FD, FREE_FD], 0, 0, 0, 0, 0, [])

  datatype Pde = Pde(present: bool, writable: bool, user: bool, large: bool, base: int)

  datatype Kernel = Kernel(
    total: int, current: int, pcbs: map<int, Pcb>, pageDir: seq<Pde>, frames: seq<bytes>, esp0: int,
    dirDentry: Dentry, lastDentry: nat, output: bytes)

  function Slot(n: int): int {
    KERNEL_STACK - n * PCB_SIZE
  }

  /** esp & PCB_ADDR_MASK: the low thirteen bits cleared. */
  function Mask(esp: int): int {
    esp - esp % PCB_SIZE
  }

  function PcbAt(pcbs: map<int, Pcb>, address: int): Pcb {
    if address in pcbs then pcbs[address] else ZERO_PCB
  }

  function Current(s: Kernel): Pcb {
    PcbAt(s.pcbs, s.current)
  }

  /** The entry set_process_pde writes. */
  function UserPde(processNum: int): Pde {
    Pde(true, true, true, true, KERNEL_FRAME + processNum)
  }

  const ABSENT_PDE := Pde(false, false, false, false, 0)

  // _160MB / _4MB: where the console's scrollback is mapped, onto frame VIDEO_LARGE >> 22
  const SCROLL_ENTRY := 40

  /** The directory init_paging leaves: the table of low memory, the kernel's frame, the scrollback. */
  function InitialDirectory(pageTable: int): (d: seq<Pde>)
    ensures |d| == PAGING_SIZE
  {
    seq(PAGING_SIZE, i => ABSENT_PDE)[KERNEL_FRAME := Pde(true, true, false, true, KERNEL_FRAME)][
      0 := Pde(true, true, true, false, pageTable)][SCROLL_ENTRY := Pde(true, true, false, true, 0)]
  }

  // ---------- file descriptors ----------

  function FirstFree(fds: seq<Fd>, k: nat): (i: nat)
    requires k <= |fds|
    ensures k <= i <= |fds| && (i < |fds| ==> fds[i].flags == 0)
    ensures forall j :: k <= j < i ==> fds[j].flags != 0
    decreases |fds| - k
  {
    if k == |fds| || fds[k].flags == 0 then k else FirstFree(fds, k + 1)
  }

  /** The open function system_open picks for a name. */
  function OpsFor(name: bytes): Ops {
    if name == STDIN then StdinOps
    else if name == STDOUT then StdoutOps
    else if name == RTC then RtcOps
    else if name == DOT then DirOps
    else FileOps
  }

  predicate Shaped(s: Kernel) {
    && (forall a {:trigger s.pcbs[a]} :: a in s.pcbs ==> |s.pcbs[a].fds| == MAX_FILES_NUMBER)
    && |s.pageDir| == PAGING_SIZE
    && |s.dirDentry.name| <= FILE_NAME_LENGTH
    && |s.frames| == FRAMES && forall f :: 0 <= f < FRAMES ==> |s.frames[f]| == PAGE_SIZE
  }

  function WithFd(s: Kernel, i: nat, fd: Fd): Kernel
    requires Shaped(s) && i < MAX_FILES_NUMBER
  {
    s.(pcbs := s.pcbs[s.current := Current(s).(fds := Current(s).fds[i := fd])])
  }

  /** The state after a call, and the value it returns. */
  datatype Answer = Answer(state: Kernel, value: int)

  function Open(img: bytes, s: Kernel, name: bytes): (r: Answer)
    requires WellFormed(img) && Shaped(s)
    ensures Shaped(r.state)
  {
    var i := FirstFree(Current(s).fds, 0);
    if i == MAX_FILES_NUMBER then Answer(s, -1)
    else
      match OpsFor(name)
      case FileOps =>
        (match Lookup(img, name)
         case None => Answer(s, -1)
         case Some(d) => Answer(WithFd(s, i, Fd(FileOps, d.inode, 0, 1)), i))
      case DirOps =>
        var dentry := match Lookup(img, name) case None => s.dirDentry case Some(d) => d;
        Answer(WithFd(s.(dirDentry := dentry, lastDentry := 0), i, Fd(DirOps, 0, 0, 1)), i)
      case ops => Answer(WithFd(s, i, Fd(ops, 0, 0, 1)), i)
  }

  predicate IsOpen(s: Kernel, fd: int)
    requires Shaped(s)
  {
    0 <= fd < MAX_FILES_NUMBER && Current(s).fds[fd].flags != 0
  }

  function Close(s: Kernel, fd: int): (r: Answer)
    requires Shaped(s)
    ensures Shaped(r.state)
  {
    if !IsOpen(s, fd) || fd < 2 then Answer(s, -1)
    else
      var t := if Current(s).fds[fd].ops == DirOps then s.(lastDentry := 0) else s;
      Answer(WithFd(t, fd, Cleared(Current(s).fds[fd])), 0)
  }

  datatype Transfer = Transfer(state: Kernel, count: int, data: bytes)

  /**
   system_read. `device` stands for what the keyboard driver delivers to a read of stdin.
   The count is added to the descriptor's position whatever kind it is.
   */
  ghost function Read(img: bytes, s: Kernel, fd: int, nbytes: int, device: bytes): (r: Transfer)
    requires WellFormed(img) && Shaped(s)
    ensures Shaped(r.state)
  {
    if !IsOpen(s, fd) then Transfer(s, -1, [])
    else
      var d := Current(s).fds[fd];
      match d.ops
      case FileOps => Advance(s, fd, Clip(Contents(img, d.inode), d.position, nbytes))
      case DirOps =>
        if s.lastDentry >= DentryCount(img) then Advance(s, fd, [])
        else
          var next := match LookupIndex(img, s.lastDentry + 1) case None => s.dirDentry case Some(e) => e;
          Advance(s.(lastDentry := s.lastDentry + 1, dirDentry := next), fd, s.dirDentry.name)
      case StdinOps => Advance(s, fd, device)
      case RtcOps => Advance(s, fd, [])
      case _ => Transfer(s, -1, [])
  }

  function Advance(s: Kernel, fd: nat, data: bytes): (r: Transfer)
    requires Shaped(s) && fd < MAX_FILES_NUMBER
    ensures Shaped(r.state)
  {
    var d := Current(s).fds[fd];
    Transfer(WithFd(s, fd, d.(position := d.position + |data|)), |data|, data)
  }

  /** "Wrong frequency input!!!!!!\n" */
  const WRONG_FREQUENCY: bytes :=
    [87, 114, 111, 110, 103, 32, 102, 114, 101, 113, 117, 101, 110, 99, 121, 32,
     105, 110, 112, 117, 116, 33, 33, 33, 33, 33, 33, 10]

  const RTC_FREQUENCIES: set<nat> := {1024, 512, 256, 128, 64, 32, 16, 8, 4, 2}

  /** system_write: stdout is the console, the clock takes a rate, and everything else refuses. */
  function Write(s: Kernel, fd: int, data: bytes): (r: Answer)
    requires Shaped(s)
    ensures Shaped(r.state)
  {
    if !IsOpen(s, fd) then Answer(s, -1)
    else
      match Current(s).fds[fd].ops
      case StdoutOps => Answer(s.(output := s.output + data), |data|)
      case RtcOps =>
        if |data| != 4 then Answer(s, -1)
        else if LittleEndian(data) in RTC_FREQUENCIES then Answer(s, 4)
        else Answer(s.(output := s.output + WRONG_FREQUENCY), -1)
      case _ => Answer(s, -1)
  }

  /** The entry system_vidmap writes: a table whose first page is the video memory. */
  function VideoPde(table: int): Pde {
    Pde(true, true, true, false, table)
  }

  /** system_vidmap refuses two addresses for its result, 0 and 4MB; `table` is where its page table lies. */
  function Vidmap(s: Kernel, screenStart: int, table: int): (r: Answer)
    requires Shaped(s)
    ensures Shaped(r.state)
  {
    if screenStart == 0 || screenStart == PAGE_SIZE then Answer(s, -1)
    else Answer(s.(pageDir := s.pageDir[VIDMAP_ENTRY := VideoPde(table)]), 0)
  }

  // ---------- execute and halt ----------

  /** "No more process allowed!\n" */
  const NO_MORE_PROCESS: bytes :=
    [78, 111, 32, 109, 111, 114, 101, 32, 112, 114, 111, 99, 101, 115, 115, 32, 97, 108, 108, 111, 119, 101, 100, 33, 10]

  /** The file starts with forty bytes, and those with the executable's magic number. */
  ghost predicate IsProgram(c: bytes) {
    HEADER_INFO <= |c| && MAGIC <= c
  }

  /** The program a name stands for, when there is one. */
  ghost function Program(img: bytes, name: bytes): Option<bytes>
    requires WellFormed(img)
  {
    match Lookup(img, name)
    case None => None
    case Some(d) => if IsProgram(Contents(img, d.inode)) then Some(Contents(img, d.inode)) else None
  }

  /** What the image must offer: programs that fit in their page, and the shell among them. */
  ghost predicate ImageOk(img: bytes) {
    && WellFormed(img)
    && (forall name {:trigger Program(img, name)} :: Program(img, name).Some? ==>
          LOAD_OFFSET + |Program(img, name).value| <= PAGE_SIZE)
    && Program(img, SHELL).Some?
  }

  datatype Outcome = Returned(value: int) | Entered(eip: int) | Resumed(esp: int, ebp: int, status: int)

  /** Frame f of the program's page after the program has been written at its load address. */
  ghost function Loaded(page: bytes, program: bytes): bytes
    requires LOAD_OFFSET + |program| <= |page|
  {
    Replaced(page, LOAD_OFFSET, program)
  }

  /** The new process's page mapped and its program in it. */
  ghost function Paged(s: Kernel, program: bytes): (t: Kernel)
    requires Shaped(s) && 0 <= s.total < MAXIMUM_PROCESS - 1 && LOAD_OFFSET + |program| <= PAGE_SIZE
    ensures Shaped(t)
  {
    var frame := KERNEL_FRAME + s.total + 1;
    s.(pageDir := s.pageDir[USER_ENTRY := UserPde(s.total + 1)],
       frames := s.frames[frame := Loaded(s.frames[frame], program)])
  }

  /** The new control block: the first one, or the one below the parent's, which the stack pointer gives. */
  function Created(s: Kernel, args: bytes, esp: int, ebp: int): (t: Kernel)
    requires Shaped(s)
    ensures Shaped(t)
  {
    if s.total == 0 then
      var child := PcbAt(s.pcbs, Slot(1)).(parentNum := 1, processNum := 1, parent := Slot(1), argbuf := args);
      s.(pcbs := s.pcbs[Slot(1) := child], current := Slot(1), total := s.total + 1)
    else
      var parent := PcbAt(s.pcbs, Mask(esp));
      var address := Slot(parent.processNum + 1);
      var child := PcbAt(s.pcbs, address).(
        parentNum := parent.processNum, processNum := parent.processNum + 1, parent := Mask(esp),
        parentEsp := esp, parentEbp := ebp, argbuf := args);
      s.(pcbs := s.pcbs[address := child], current := address, total := s.total + 1)
  }

  /** The new process before its descriptors are opened. */
  ghost function Spawned(s: Kernel, program: bytes, args: bytes, esp: int, ebp: int): (t: Kernel)
    requires Shaped(s) && 0 <= s.total < MAXIMUM_PROCESS - 1 && LOAD_OFFSET + |program| <= PAGE_SIZE
    ensures Shaped(t)
  {
    Created(Paged(s, program), args, esp, ebp)
  }

  /** stdin and stdout opened, and the kernel stack of the new process installed. */
  function Equipped(img: bytes, t: Kernel): (u: Kernel)
    requires WellFormed(img) && Shaped(t)
    ensures Shaped(u)
  {
    var v := Open(img, Open(img, t, STDIN).state, STDOUT).state;
    v.(esp0 := KERNEL_STACK - PCB_SIZE * (Current(v).processNum - 1) - 4)
  }

  /**
   system_execute. `esp` and `ebp` are the caller's kernel stack registers when the child
   is set up; they are where the call returns when the child halts.
   */
  ghost function Execute(img: bytes, s: Kernel, command: bytes, esp: int, ebp: int): (r: (Kernel, Outcome))
    requires ImageOk(img) && Shaped(s) && 0 <= s.total
    ensures Shaped(r.0)
  {
    var program := Program(img, Parse(command).name);
    if program.None? then (s, Returned(-1))
    else if s.total >= MAXIMUM_PROCESS - 1 then (s.(output := s.output + NO_MORE_PROCESS), Returned(-1))
    else
      (Equipped(img, Spawned(s, program.value, Parse(command).args, esp, ebp)),
       Entered(WordAt(program.value, ENTRY_POINT_LOC)))
  }

  function Cleared(fd: Fd): Fd {
    fd.(flags := 0)
  }

  function ClearedFds(fds: seq<Fd>): (r: seq<Fd>)
    ensures |r| == |fds|
  {
    seq(|fds|, i requires 0 <= i < |fds| => Cleared(fds[i]))
  }

  /** system_halt: back into the parent's system_execute, or, for the first process, a new shell. */
  ghost function Halt(img: bytes, s: Kernel, status: int): (r: (Kernel, Outcome))
    requires ImageOk(img) && Shaped(s) && 1 <= s.total
    ensures Shaped(r.0)
  {
    if s.total == 1 then Execute(img, s.(total := 0), SHELL, 0, 0)
    else
      var c := Current(s);
      (s.(total := s.total - 1,
          esp0 := c.parentEsp,
          pageDir := s.pageDir[USER_ENTRY := UserPde(c.parentNum)],
          pcbs := s.pcbs[s.current := c.(fds := ClearedFds(c.fds))],
          current := c.parent),
       Resumed(c.parentEsp, c.parentEbp, status))
  }

  // ---------- runs ----------

  datatype Call =
    | OpenCall(name: bytes)
    | CloseCall(fd: int)
    | ReadCall(fd: int, nbytes: int, device: bytes)
    | WriteCall(fd: int, data: bytes)
    | VidmapCall(screenStart: int, table: int)
    | ExecuteCall(command: bytes, esp: int, ebp: int)
    | HaltCall(status: int)
    | Store(offset: nat, b: byte) // the running program writes to its own page

  /**
   The kernel runs a call on the caller's own kernel stack, a command fits its buffers, and a program stores
   inside its page.
   */
  predicate CallOk(s: Kernel, c: Call) {
    match c
    case ExecuteCall(command, esp, _) => CommandOk(command) && Mask(esp) == s.current
    case Store(offset, _) => offset < PAGE_SIZE
    case _ => true
  }

  function Stored(page: bytes, offset: nat, b: byte): bytes
    requires offset < |page|
  {
    page[offset := b]
  }

  function StoreByte(s: Kernel, offset: nat, b: byte): (t: Kernel)
    requires Shaped(s) && 0 <= s.pageDir[USER_ENTRY].base < FRAMES && offset < PAGE_SIZE
    ensures Shaped(t)
  {
    var f := s.pageDir[USER_ENTRY].base;
    s.(frames := s.frames[f := Stored(s.frames[f], offset, b)])
  }

  ghost predicate Runnable(img: bytes, s: Kernel) {
    ImageOk(img) && Shaped(s) && 1 <= s.total && 0 <= s.pageDir[USER_ENTRY].base < FRAMES
  }

  ghost function Step(img: bytes, s: Kernel, c: Call): (r: (Kernel, Outcome))
    requires Runnable(img, s) && CallOk(s, c)
    ensures Shaped(r.0)
  {
    match c
    case OpenCall(name) => (Open(img, s, name).state, Returned(Open(img, s, name).value))
    case CloseCall(fd) => (Close(s, fd).state, Returned(Close(s, fd).value))
    case ReadCall(fd, n, device) => (Read(img, s, fd, n, device).state, Returned(Read(img, s, fd, n, device).count))
    case WriteCall(fd, data) => (Write(s, fd, data).state, Returned(Write(s, fd, data).value))
    case VidmapCall(p, table) => (Vidmap(s, p, table).state, Returned(Vidmap(s, p, table).value))
    case ExecuteCall(command, esp, ebp) => Execute(img, s, command, esp, ebp)
    case HaltCall(status) => Halt(img, s, status)
    case Store(offset, b) => (StoreByte(s, offset, b), Returned(0))
  }
}
