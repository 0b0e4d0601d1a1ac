/** Theorems over whole runs of system calls. */
module KernelRuns {
  import opened Bytes
  import opened FileImage
  import opened Directory
  import opened CommandLine
  import opened KernelSpec
  import opened KernelInvariant

  // ---------- runs ----------

  /** The state after one call. */
  ghost function Next(img: bytes, s: Kernel, c: Call): (t: Kernel)
    requires Inv(img, s) && CallOk(s, c)
    ensures Inv(img, t)
  {
    StepKeepsInv(img, s, c);
    Step(img, s, c).0
  }

  /** Every call of the run is made on the caller's own kernel stack. */
  ghost predicate RunOk(img: bytes, s: Kernel, cs: seq<Call>)
    requires Inv(img, s)
    decreases |cs|
  {
    cs == [] || (CallOk(s, cs[0]) && RunOk(img, Next(img, s, cs[0]), cs[1..]))
  }

  ghost function Run(img: bytes, s: Kernel, cs: seq<Call>): (t: Kernel)
    requires Inv(img, s) && RunOk(img, s, cs)
    ensures Inv(img, t)
    decreases |cs|
  {
    if cs == [] then s else Run(img, Next(img, s, cs[0]), cs[1..])
  }

  /** The state of the first shell, booted into memory where nothing is open. */
  ghost function Booted(img: bytes, s: Kernel): (t: Kernel)
    requires Bare(img, s) && AllFree(PcbAt(s.pcbs, Slot(1)).fds)
    ensures Inv(img, t)
  {
    FirstShellInv(img, s, 0, 0);
    Execute(img, s, SHELL, 0, 0).0
  }

  /** The facts about a state that follow from its process count alone. */
  ghost predicate Consistent(t: Kernel) {
    && Shaped(t) && 1 <= t.total <= 5
    && t.current == Slot(t.total) && Mask(t.esp0) == t.current && Current(t).processNum == t.total
    && t.pageDir[USER_ENTRY].present && t.pageDir[USER_ENTRY].base == t.total + 1
    && (forall j {:trigger Slot(j)} :: 1 <= j <= t.total ==> ConsistentPcb(PcbAt(t.pcbs, Slot(j)), j))
    && (forall j {:trigger Slot(j)} :: t.total < j ==> AllFree(PcbAt(t.pcbs, Slot(j)).fds))
  }

  predicate ConsistentPcb(p: Pcb, j: int) {
    && p.processNum == j && p.parentNum == Max(1, j - 1) && p.parent == Slot(p.parentNum)
    && |p.fds| == MAX_FILES_NUMBER
    && p.fds[0].flags == 1 && p.fds[0].ops == StdinOps
    && p.fds[1].flags == 1 && p.fds[1].ops == StdoutOps
  }

  /**
   In every state reached from boot: the running process's number is the process count,
   between 1 and 5, and the user page entry maps its own frame; the parent links count down
   to 1 and stay there; every live process has stdin and stdout at descriptors 0 and 1,
   and every other control block has nothing open.
   */
  lemma ReachableStates(img: bytes, s: Kernel, cs: seq<Call>)
    requires Bare(img, s) && AllFree(PcbAt(s.pcbs, Slot(1)).fds) && RunOk(img, Booted(img, s), cs)
    ensures Consistent(Run(img, Booted(img, s), cs))
  {
    InvIsConsistent(img, Run(img, Booted(img, s), cs));
  }

  lemma InvIsConsistent(img: bytes, t: Kernel)
    requires Inv(img, t)
    ensures Consistent(t)
  {
    assert LiveOk(img, PcbAt(t.pcbs, Slot(t.total)), t.total);
    forall j {:trigger Slot(j)} | 1 <= j <= t.total ensures ConsistentPcb(PcbAt(t.pcbs, Slot(j)), j) {
      assert LiveOk(img, PcbAt(t.pcbs, Slot(j)), j);
    }
  }

  // ---------- failing and succeeding ----------

  predicate AtLimit(s: Kernel) {
    s.total == MAXIMUM_PROCESS - 1
  }

  /** execute fails exactly when the name is no program or five processes live, and then changes nothing but the console. */
  lemma FailedExecuteChangesNothing(img: bytes, s: Kernel, command: bytes, esp: int, ebp: int)
    requires Inv(img, s) && Mask(esp) == s.current
    ensures var (t, o) := Execute(img, s, command, esp, ebp);
      var fails := Program(img, Parse(command).name).None? || AtLimit(s);
      && (fails <==> o == Returned(-1)) && (fails <==> t.total == s.total)
      && (fails ==> t == s.(output := s.output + if Program(img, Parse(command).name).None? then [] else NO_MORE_PROCESS))
  {
    if Program(img, Parse(command).name).Some? && !AtLimit(s) {
      ExecutedChild(img, s, command, esp, ebp);
    }
  }

  /** t is s with a new process on top, in its own control block and its own page. */
  ghost predicate Extends(s: Kernel, t: Kernel)
    requires Shaped(s) && Shaped(t)
  {
    && t.total == s.total + 1 && t.current == Slot(t.total)
    && (forall a {:trigger PcbAt(t.pcbs, a)} :: a != t.current ==> PcbAt(t.pcbs, a) == PcbAt(s.pcbs, a))
    && (forall f {:trigger t.frames[f]} :: 0 <= f < FRAMES && f != t.total + 1 ==> t.frames[f] == s.frames[f])
  }

  /** A program is entered at the address that bytes 24 to 27 of its file hold. */
  ghost predicate EntersAtHeader(o: Outcome, c: bytes) {
    && 40 <= |c|
    && o == Entered(c[24] as int + 0x100 * (c[25] as int) + 0x1_0000 * (c[26] as int) + 0x100_0000 * (c[27] as int))
  }

  lemma HeaderEntry(c: bytes)
    requires IsProgram(c)
    ensures EntersAtHeader(Entered(WordAt(c, ENTRY_POINT_LOC)), c)
  {
    hide WordAt;
    WordIsSum(c, ENTRY_POINT_LOC);
  }

  /**
   A new process starts on top of its parent with exactly stdin and stdout open, its arguments,
   the place to return to, the whole program at the load address of its page and its own kernel stack empty,
   and it is entered where the program's header says.
   */
  lemma ExecutedChild(img: bytes, s: Kernel, command: bytes, esp: int, ebp: int)
    requires Inv(img, s) && Mask(esp) == s.current
    requires Program(img, Parse(command).name).Some? && !AtLimit(s)
    ensures var (t, o) := Execute(img, s, command, esp, ebp);
      var program, c := Program(img, Parse(command).name).value, Current(t);
      && Extends(s, t) && EntersAtHeader(o, program) && t.esp0 == 0x80_0000 - 0x2000 * s.total - 4
      && c.fds[0] == STDIN_FD && c.fds[1] == STDOUT_FD && AllFree(c.fds[2..])
      && c.argbuf == Parse(command).args && c.parentEsp == esp && c.parentEbp == ebp
      && t.frames[t.total + 1][0x4_8000..0x4_8000 + |program|] == program
  {
    ProgramIs(img, Parse(command).name);
    ExecuteIs(img, s, command, esp, ebp);
    hide Parse, WellFormed, Program, Loaded, LiveOk, IsProgram, EntersAtHeader, WordAt, Execute, Spawned, Equipped;
    var program, args := Program(img, Parse(command).name).value, Parse(command).args;
    HeaderEntry(program);
    var t := Spawned(s, program, args, esp, ebp);
    SpawnedChild(img, s, program, args, esp, ebp);
    SpawnedFrames(s, program, args, esp, ebp);
    EquippedFds(img, t);
    StandardOfFree(Current(t).fds);
    LoadedHolds(s.frames[s.total + 2], program);
  }

  lemma ExecuteIs(img: bytes, s: Kernel, command: bytes, esp: int, ebp: int)
    requires ImageOk(img) && Shaped(s) && 0 <= s.total < MAXIMUM_PROCESS - 1 && Program(img, Parse(command).name).Some?
    ensures var program := Program(img, Parse(command).name).value;
      && LOAD_OFFSET + |program| <= PAGE_SIZE && 40 <= |program|
      && Execute(img, s, command, esp, ebp)
        == (Equipped(img, Spawned(s, program, Parse(command).args, esp, ebp)), Entered(WordAt(program, ENTRY_POINT_LOC)))
  {
    hide Parse, WellFormed, Contents, Lookup, Spawned, Equipped, WordAt;
  }

  lemma SpawnedFrames(s: Kernel, program: bytes, args: bytes, esp: int, ebp: int)
    requires Shaped(s) && 0 <= s.total < MAXIMUM_PROCESS - 1 && LOAD_OFFSET + |program| <= PAGE_SIZE
    ensures Spawned(s, program, args, esp, ebp).frames
      == s.frames[s.total + 2 := Loaded(s.frames[s.total + 2], program)]
  {
    hide Loaded;
  }

  lemma ProgramIs(img: bytes, name: bytes)
    requires WellFormed(img)
    ensures Program(img, name).Some? ==> IsProgram(Program(img, name).value)
  {
  }

  lemma LoadedHolds(page: bytes, program: bytes)
    requires |page| == PAGE_SIZE && LOAD_OFFSET + |program| <= PAGE_SIZE
    ensures Loaded(page, program)[LOAD_OFFSET..LOAD_OFFSET + |program|] == program
  {
  }

  /** How many descriptors of a table are open. */
  function OpenCount(fds: seq<Fd>): (n: nat)
    ensures n <= |fds|
  {
    if fds == [] then 0 else OpenCount(fds[1..]) + if fds[0].flags != 0 then 1 else 0
  }

  lemma {:induction false} AddedCounts(fds: seq<Fd>, fd: Fd, k: nat)
    requires k <= |fds| && fd.flags != 0
    ensures var i := FirstFree(fds, k);
      OpenCount((if i == |fds| then fds else fds[i := fd])[k..]) == if i == |fds| then |fds| - k else OpenCount(fds[k..]) + 1
    decreases |fds| - k
  {
    var i := FirstFree(fds, k);
    var r := if i == |fds| then fds else fds[i := fd];
    if k < |fds| {
      assert fds[k..][1..] == fds[k + 1..] && r[k..][1..] == r[k + 1..];
      if i == k {
        assert r[k + 1..] == fds[k + 1..];
      } else {
        AddedCounts(fds, fd, k + 1);
      }
    }
  }

  lemma {:induction false} FullCounts(fds: seq<Fd>, k: nat)
    requires k <= |fds|
    ensures FirstFree(fds, k) == |fds| <==> OpenCount(fds[k..]) == |fds| - k
    decreases |fds| - k
  {
    if k < |fds| {
      assert fds[k..][1..] == fds[k + 1..];
      FullCounts(fds, k + 1);
    }
  }

  /**
   The first shell never really halts: it is started again in its own control block, keeping every
   descriptor it had open and opening stdin and stdout once more while there is room.
   */
  lemma RestartedShellKeepsDescriptors(img: bytes, s: Kernel, status: int)
    requires Inv(img, s) && s.total == 1
    ensures EntersAtHeader(Halt(img, s, status).1, Program(img, SHELL).value) && Restarted(s, Halt(img, s, status).0)
  {
    ShellFds(img, s.(total := 0));
  }

  ghost predicate Restarted(s: Kernel, t: Kernel)
    requires Shaped(s) && Shaped(t)
  {
    && t.total == 1 && t.current == s.current
    && OpenCount(Current(t).fds) == Min(MAX_FILES_NUMBER, OpenCount(Current(s).fds) + 2)
    && forall i {:trigger Current(s).fds[i]} :: 0 <= i < MAX_FILES_NUMBER && Current(s).fds[i].flags != 0 ==>
         Current(t).fds[i] == Current(s).fds[i]
  }

  lemma ShellFds(img: bytes, s: Kernel)
    requires ImageOk(img) && Shaped(s) && s.total == 0 && s.current == Slot(1)
    ensures Restarted(s, Execute(img, s, SHELL, 0, 0).0)
    ensures EntersAtHeader(Execute(img, s, SHELL, 0, 0).1, Program(img, SHELL).value)
  {
    ParseShell();
    HeaderEntry(Program(img, SHELL).value);
    EquippedShell(img, s, Program(img, SHELL).value, Parse(SHELL).args);
  }

  lemma EquippedShell(img: bytes, s: Kernel, program: bytes, args: bytes)
    requires WellFormed(img) && Shaped(s) && s.total == 0 && s.current == Slot(1) && LOAD_OFFSET + |program| <= PAGE_SIZE
    ensures Restarted(s, Equipped(img, Spawned(s, program, args, 0, 0)))
  {
    hide OpenCount, Open, WellFormed;
    EquippedFds(img, Spawned(s, program, args, 0, 0));
    StandardCounts(Current(s).fds);
  }

  lemma {:induction false} StandardCounts(fds: seq<Fd>)
    ensures OpenCount(Standard(fds)) == Min(|fds|, OpenCount(fds) + 2)
    ensures forall i {:trigger Standard(fds)[i]} :: 0 <= i < |fds| && fds[i].flags != 0 ==> Standard(fds)[i] == fds[i]
  {
    var one := Added(fds, STDIN_FD);
    assert fds[0..] == fds && one[0..] == one && Standard(fds)[0..] == Standard(fds);
    FullCounts(fds, 0);
    FullCounts(one, 0);
    AddedCounts(fds, STDIN_FD, 0);
    AddedCounts(one, STDOUT_FD, 0);
  }

  // ---------- execute and halt as a bracket ----------

  /** From s to t, processes up to p and their pages are untouched, and process p + 1 keeps its links. */
  ghost predicate Undisturbed(s: Kernel, t: Kernel, p: int)
    requires Shaped(s) && Shaped(t) && 1 <= p < MAXIMUM_PROCESS
  {
    && (forall j {:trigger Slot(j)} :: 1 <= j <= p ==> PcbAt(t.pcbs, Slot(j)) == PcbAt(s.pcbs, Slot(j)))
    && (forall f {:trigger t.frames[f]} :: 0 <= f <= p + 1 && f < FRAMES ==> t.frames[f] == s.frames[f])
    && PcbAt(t.pcbs, Slot(p + 1)) == PcbAt(s.pcbs, Slot(p + 1)).(fds := PcbAt(t.pcbs, Slot(p + 1)).fds)
  }

  lemma TouchAbove(s: Kernel, t: Kernel, i: nat, fd: Fd, p: int)
    requires Shaped(s) && Shaped(t) && s.current == Slot(s.total) && i < MAX_FILES_NUMBER && Touches(s, t, i, fd)
    requires 1 <= p < s.total && p < MAXIMUM_PROCESS
    ensures Undisturbed(s, t, p)
  {
  }

  lemma HaltAbove(img: bytes, s: Kernel, status: int, p: int)
    requires Inv(img, s) && 1 <= p < s.total
    ensures Undisturbed(s, Halt(img, s, status).0, p)
  {
  }

  lemma ExecuteAbove(img: bytes, s: Kernel, command: bytes, esp: int, ebp: int, p: int)
    requires Inv(img, s) && Mask(esp) == s.current && 1 <= p < s.total
    ensures Undisturbed(s, Execute(img, s, command, esp, ebp).0, p)
  {
    hide Parse, WellFormed, Program, Equipped, Spawned, LiveOk;
    if Program(img, Parse(command).name).Some? && !AtLimit(s) {
      ExecutedChild(img, s, command, esp, ebp);
    }
  }

  lemma OpenAbove(img: bytes, s: Kernel, name: bytes, p: int)
    requires Inv(img, s) && 1 <= p < s.total
    ensures Undisturbed(s, Open(img, s, name).state, p)
  {
    OpenTakesLeastFree(img, s, name);
    var r := Open(img, s, name);
    if r.value != -1 {
      TouchAbove(s, r.state, r.value, OpenedFd(img, name), p);
    }
  }

  lemma CloseAbove(img: bytes, s: Kernel, fd: int, p: int)
    requires Inv(img, s) && 1 <= p < s.total
    ensures Undisturbed(s, Close(s, fd).state, p)
  {
    if Close(s, fd).value != -1 {
      TouchAbove(s, Close(s, fd).state, fd, Cleared(Current(s).fds[fd]), p);
    }
  }

  lemma ReadAbove(img: bytes, s: Kernel, fd: int, nbytes: int, device: bytes, p: int)
    requires Inv(img, s) && 1 <= p < s.total
    ensures Undisturbed(s, Read(img, s, fd, nbytes, device).state, p)
  {
    ReadMovesPosition(img, s, fd, nbytes, device);
    if Delivers(s, fd) {
      var r := Read(img, s, fd, nbytes, device);
      TouchAbove(s, r.state, fd, Moved(Current(s).fds[fd], |r.data|), p);
    }
  }

  lemma StoreAbove(img: bytes, s: Kernel, offset: nat, b: byte, p: int)
    requires Inv(img, s) && 1 <= p < s.total && offset < PAGE_SIZE
    ensures Undisturbed(s, StoreByte(s, offset, b), p)
  {
  }

  lemma WriteAbove(img: bytes, s: Kernel, fd: int, data: bytes, p: int)
    requires Inv(img, s) && 1 <= p < s.total
    ensures Undisturbed(s, Write(s, fd, data).state, p)
  {
    var t := Write(s, fd, data).state;
    assert t == s.(output := t.output);
  }

  lemma VidmapAbove(img: bytes, s: Kernel, screenStart: int, table: int, p: int)
    requires Inv(img, s) && 1 <= p < s.total
    ensures Undisturbed(s, Vidmap(s, screenStart, table).state, p)
  {
  }

  lemma StepAbove(img: bytes, s: Kernel, c: Call, p: int)
    requires Inv(img, s) && CallOk(s, c) && 1 <= p < s.total
    ensures Undisturbed(s, Next(img, s, c), p)
  {
    match c
    case OpenCall(name) => OpenAbove(img, s, name, p);
    case CloseCall(fd) => CloseAbove(img, s, fd, p);
    case ReadCall(fd, n, device) => ReadAbove(img, s, fd, n, device, p);
    case WriteCall(fd, data) => WriteAbove(img, s, fd, data, p);
    case VidmapCall(target, table) => VidmapAbove(img, s, target, table, p);
    case ExecuteCall(command, esp, ebp) => ExecuteAbove(img, s, command, esp, ebp, p);
    case HaltCall(status) => HaltAbove(img, s, status, p);
    case Store(offset, b) => StoreAbove(img, s, offset, b, p);
  }

  /** More than p processes live in every state of the run. */
  ghost predicate StaysAbove(img: bytes, s: Kernel, cs: seq<Call>, p: int)
    requires Inv(img, s) && RunOk(img, s, cs)
    decreases |cs|
  {
    p < s.total && (cs != [] ==> StaysAbove(img, Next(img, s, cs[0]), cs[1..], p))
  }

  lemma {:induction false} RunAbove(img: bytes, s: Kernel, cs: seq<Call>, p: int)
    requires Inv(img, s) && RunOk(img, s, cs) && 1 <= p < MAXIMUM_PROCESS && StaysAbove(img, s, cs, p)
    ensures Undisturbed(s, Run(img, s, cs), p) && p < Run(img, s, cs).total
    decreases |cs|
  {
    if cs != [] {
      StepAbove(img, s, cs[0], p);
      RunAbove(img, Next(img, s, cs[0]), cs[1..], p);
    }
  }

  /** In v, everything about s's processes is as it was in s, s's process is running again, and nothing runs above it. */
  ghost predicate Restored(s: Kernel, v: Kernel)
    requires Shaped(s) && Shaped(v) && 1 <= s.total < MAXIMUM_PROCESS - 1
  {
    && v.total == s.total && v.current == s.current && v.pageDir[USER_ENTRY] == s.pageDir[USER_ENTRY]
    && (forall j {:trigger Slot(j)} :: 1 <= j <= s.total ==> PcbAt(v.pcbs, Slot(j)) == PcbAt(s.pcbs, Slot(j)))
    && (forall f {:trigger v.frames[f]} :: 0 <= f <= s.total + 1 ==> v.frames[f] == s.frames[f])
    && AllFree(PcbAt(v.pcbs, Slot(s.total + 1)).fds)
  }

  /**
   Execute and halt bracket a run. Whatever the child and its descendants do in between, when the
   child halts the parent is back: its descriptors, arguments and links, its whole page and those
   of its ancestors, the process count, the current process and the page entry are as they were,
   and the call returns where it was made with the status the child gave. The kernel stack restarts there as well.
   */
  lemma ExecuteReturns(img: bytes, s: Kernel, command: bytes, esp: int, ebp: int, cs: seq<Call>, status: int)
    requires Inv(img, s) && CommandOk(command) && Mask(esp) == s.current && !AtLimit(s)
    requires Execute(img, s, command, esp, ebp).1.Entered?
    requires var t := Next(img, s, ExecuteCall(command, esp, ebp));
      RunOk(img, t, cs) && StaysAbove(img, t, cs, s.total) && Run(img, t, cs).total == s.total + 1
    ensures var u := Run(img, Next(img, s, ExecuteCall(command, esp, ebp)), cs);
      Halt(img, u, status).1 == Resumed(esp, ebp, status) && Restored(s, Halt(img, u, status).0)
      && Halt(img, u, status).0.esp0 == esp
  {
    ExecutedChild(img, s, command, esp, ebp);
    var t := Next(img, s, ExecuteCall(command, esp, ebp));
    RunAbove(img, t, cs, s.total);
    HaltReturns(img, s, t, Run(img, t, cs), status);
  }

  lemma HaltReturns(img: bytes, s: Kernel, t: Kernel, u: Kernel, status: int)
    requires Inv(img, s) && Inv(img, t) && Inv(img, u) && !AtLimit(s)
    requires Extends(s, t) && u.total == t.total && Undisturbed(t, u, s.total)
    ensures var (v, o) := Halt(img, u, status);
      o == Resumed(Current(t).parentEsp, Current(t).parentEbp, status) && Restored(s, v) && v.esp0 == Current(t).parentEsp
  {
    hide WellFormed, Program, Contents, FdsOk;
    assert LiveOk(img, PcbAt(u.pcbs, Slot(u.total)), u.total);
    var v := Halt(img, u, status).0;
    forall j {:trigger Slot(j)} | 1 <= j <= s.total ensures PcbAt(v.pcbs, Slot(j)) == PcbAt(s.pcbs, Slot(j)) {
      assert PcbAt(u.pcbs, Slot(j)) == PcbAt(t.pcbs, Slot(j));
    }
    forall f {:trigger v.frames[f]} | 0 <= f <= s.total + 1 ensures v.frames[f] == s.frames[f] {
      assert u.frames[f] == t.frames[f];
    }
  }

  // ---------- the page directory ----------

  /** Between two states only the user entry of the page directory may differ, and the one for the video memory. */
  predicate SameMap(s: Kernel, t: Kernel) {
    && |s.pageDir| == |t.pageDir| == PAGING_SIZE
    && forall e {:trigger t.pageDir[e]} :: 0 <= e < PAGING_SIZE && e != USER_ENTRY && e != VIDMAP_ENTRY ==>
         t.pageDir[e] == s.pageDir[e]
  }

  /** The call maps the video memory for programs. */
  predicate MapsVideo(c: Call) {
    c.VidmapCall? && c.screenStart != 0 && c.screenStart != PAGE_SIZE
  }

  predicate VideoMapped(pde: Pde) {
    pde == VideoPde(pde.base)
  }

  lemma OpenKeepsMap(img: bytes, s: Kernel, name: bytes)
    requires Inv(img, s)
    ensures Open(img, s, name).state.pageDir == s.pageDir
  {
  }

  lemma ExecuteKeepsMap(img: bytes, s: Kernel, command: bytes, esp: int, ebp: int)
    requires ImageOk(img) && Shaped(s) && 0 <= s.total
    ensures var t := Execute(img, s, command, esp, ebp).0; t.pageDir == s.pageDir[USER_ENTRY := t.pageDir[USER_ENTRY]]
  {
    if Program(img, Parse(command).name).Some? && s.total < MAXIMUM_PROCESS - 1 {
      EquippedFds(img, Spawned(s, Program(img, Parse(command).name).value, Parse(command).args, esp, ebp));
    }
  }

  lemma StepKeepsMap(img: bytes, s: Kernel, c: Call)
    requires Inv(img, s) && CallOk(s, c)
    ensures SameMap(s, Next(img, s, c))
    ensures if MapsVideo(c) then Next(img, s, c).pageDir[VIDMAP_ENTRY] == VideoPde(c.table)
      else Next(img, s, c).pageDir[VIDMAP_ENTRY] == s.pageDir[VIDMAP_ENTRY]
  {
    hide Open, Read, Execute, LiveOk;
    match c
    case OpenCall(name) => OpenKeepsMap(img, s, name);
    case ReadCall(fd, n, device) => ReadMovesPosition(img, s, fd, n, device);
    case ExecuteCall(command, esp, ebp) => ExecuteKeepsMap(img, s, command, esp, ebp);
    case HaltCall(status) =>
      if s.total == 1 {
        ExecuteKeepsMap(img, s.(total := 0), SHELL, 0, 0);
      }
    case _ =>
  }

  /**
   No run ever changes a page directory entry but the user program's and the video memory's: the kernel stays
   mapped where it was. From a state without it, programs can reach the video memory exactly when some process
   has asked for it; that process's halt does not take it away again.
   */
  lemma {:induction false} RunKeepsMap(img: bytes, s: Kernel, cs: seq<Call>)
    requires Inv(img, s) && RunOk(img, s, cs)
    ensures SameMap(s, Run(img, s, cs))
    ensures VideoMapped(Run(img, s, cs).pageDir[VIDMAP_ENTRY])
      <==> VideoMapped(s.pageDir[VIDMAP_ENTRY]) || exists i {:trigger cs[i]} :: 0 <= i < |cs| && MapsVideo(cs[i])
    decreases |cs|
  {
    hide Next, LiveOk;
    if cs != [] {
      StepKeepsMap(img, s, cs[0]);
      RunKeepsMap(img, Next(img, s, cs[0]), cs[1..]);
      SomeLater(cs);
    }
  }

  lemma SomeLater(cs: seq<Call>)
    requires cs != []
    ensures (exists i {:trigger cs[i]} :: 0 <= i < |cs| && MapsVideo(cs[i]))
      <==> MapsVideo(cs[0]) || exists i {:trigger cs[1..][i]} :: 0 <= i < |cs[1..]| && MapsVideo(cs[1..][i])
  {
    var rest := cs[1..];
    if i :| 0 <= i < |rest| && MapsVideo(rest[i]) {
      assert MapsVideo(cs[i + 1]);
    }
    if i :| 0 <= i < |cs| && MapsVideo(cs[i]) {
      assert i > 0 ==> MapsVideo(rest[i - 1]);
    }
  }
}
