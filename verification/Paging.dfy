/** The page directory as the processor walks it: which memory programs and the kernel reach in a run from boot. */
module Paging {
  import opened Bytes
  import opened FileImage
  import opened Directory
  import opened KernelSpec
  import opened KernelInvariant
  import opened KernelRuns

  /** An entry of a page table, for a page of 4 KB. */
  datatype Pte = Pte(present: bool, writable: bool, user: bool, base: nat)

  const ABSENT_PTE := Pte(false, false, false, 0)

  /** The table init_paging leaves for low memory: the page of the video memory and nothing else. */
  function LowTable(): (t: seq<Pte>)
    ensures |t| == 1024
  {
    seq(1024, i => ABSENT_PTE)[0xB8 := Pte(true, true, true, 0xB8)]
  }

  /** The table vidmap leaves: the same page, as its first. */
  function VideoTable(): (t: seq<Pte>)
    ensures |t| == 1024
  {
    seq(1024, i => ABSENT_PTE)[0 := Pte(true, true, true, 0xB8)]
  }

  /** An access that the flags allow: programs need the user flag, and the write flag to write. */
  predicate Allowed(present: bool, writable: bool, userFlag: bool, user: bool, write: bool) {
    present && (user ==> userFlag && (write ==> writable))
  }

  /** Where the processor finds an address, through a page of 4 MB or through a table and a page of 4 KB. */
  function Walk(dir: seq<Pde>, tables: map<int, seq<Pte>>, address: nat, user: bool, write: bool): Option<int>
    requires |dir| == 1024 && address < 0x1_0000_0000
    requires forall t :: t in tables ==> |tables[t]| == 1024
  {
    var e := dir[address / 0x40_0000];
    if !Allowed(e.present, e.writable, e.user, user, write) then None
    else if e.large then Some(0x40_0000 * e.base + address % 0x40_0000)
    else if e.base !in tables then None
    else
      var p := tables[e.base][address % 0x40_0000 / 0x1000];
      if !Allowed(p.present, p.writable, p.user, user, write) then None else Some(0x1000 * p.base + address % 0x1000)
  }

  /** Every successful vidmap of the run leaves the same table. */
  predicate OneVideoTable(cs: seq<Call>, table: int) {
    forall i {:trigger cs[i]} :: 0 <= i < |cs| && MapsVideo(cs[i]) ==> cs[i].table == table
  }

  /** Some process of the run has asked for the video memory. */
  predicate Asked(cs: seq<Call>) {
    exists i {:trigger cs[i]} :: 0 <= i < |cs| && MapsVideo(cs[i])
  }

  lemma {:induction false} VideoEntry(img: bytes, s: Kernel, cs: seq<Call>, table: int)
    requires Inv(img, s) && RunOk(img, s, cs) && OneVideoTable(cs, table)
    ensures Run(img, s, cs).pageDir[VIDMAP_ENTRY] == if Asked(cs) then VideoPde(table) else s.pageDir[VIDMAP_ENTRY]
    decreases |cs|
  {
    hide Next, LiveOk;
    if cs != [] {
      StepKeepsMap(img, s, cs[0]);
      VideoEntry(img, Next(img, s, cs[0]), cs[1..], table);
      SomeLater(cs);
    }
  }

  /** The directory in a run from boot. */
  function Reached(low: int, video: int, asked: bool, n: int): (d: seq<Pde>)
    ensures |d| == PAGING_SIZE
  {
    InitialDirectory(low)[USER_ENTRY := UserPde(n)][VIDMAP_ENTRY := if asked then VideoPde(video) else ABSENT_PDE]
  }

  lemma ReachedByChanges(low: int, video: int, asked: bool, n: int, booted: seq<Pde>, d: seq<Pde>)
    requires |booted| == |d| == PAGING_SIZE && booted == InitialDirectory(low)[USER_ENTRY := booted[USER_ENTRY]]
    requires forall e {:trigger d[e]} :: 0 <= e < PAGING_SIZE && e != USER_ENTRY && e != VIDMAP_ENTRY ==> d[e] == booted[e]
    requires d[USER_ENTRY] == UserPde(n)
    requires d[VIDMAP_ENTRY] == if asked then VideoPde(video) else booted[VIDMAP_ENTRY]
    ensures d == Reached(low, video, asked, n)
  {
    var r := Reached(low, video, asked, n);
    forall e | 0 <= e < PAGING_SIZE ensures d[e] == r[e] {
    }
  }

  lemma UserEntry(img: bytes, t: Kernel)
    requires Inv(img, t)
    ensures |t.pageDir| == PAGING_SIZE && t.pageDir[USER_ENTRY] == UserPde(t.total)
  {
  }

  lemma BootedEntry(img: bytes, s: Kernel)
    requires Bare(img, s) && AllFree(PcbAt(s.pcbs, Slot(1)).fds)
    ensures |Booted(img, s).pageDir| == |s.pageDir| == PAGING_SIZE
    ensures Booted(img, s).pageDir == s.pageDir[USER_ENTRY := Booted(img, s).pageDir[USER_ENTRY]]
  {
    ExecuteKeepsMap(img, s, SHELL, 0, 0);
    hide Execute;
  }

  lemma ReachedDirectory(img: bytes, s: Kernel, cs: seq<Call>, low: int, video: int)
    requires Bare(img, s) && AllFree(PcbAt(s.pcbs, Slot(1)).fds) && RunOk(img, Booted(img, s), cs)
    requires s.pageDir == InitialDirectory(low) && OneVideoTable(cs, video)
    ensures var t := Run(img, Booted(img, s), cs); t.pageDir == Reached(low, video, Asked(cs), t.total)
  {
    hide Run, RunOk, Booted, Inv, Bare, Reached, InitialDirectory, OneVideoTable, Asked, UserPde;
    var b, t := Booted(img, s), Run(img, Booted(img, s), cs);
    BootedEntry(img, s);
    UserEntry(img, t);
    RunKeepsMap(img, b, cs);
    VideoEntry(img, b, cs, video);
    ReachedByChanges(low, video, Asked(cs), t.total, b.pageDir, t.pageDir);
  }

  /** What a program can read or write: its own page, the video memory, and the video memory where vidmap puts it. */
  function ProgramView(address: nat, n: int, asked: bool): Option<int> {
    if 0x800_0000 <= address < 0x840_0000 then Some(0x40_0000 * (1 + n) + address - 0x800_0000)
    else if 0xB_8000 <= address < 0xB_9000 then Some(address)
    else if asked && 0x1000_0000 <= address < 0x1000_1000 then Some(address - 0x1000_0000 + 0xB_8000)
    else None
  }

  /** What the kernel can, besides: its own page where it lies, and the scrollback's 4 MB at 160 MB. */
  function KernelView(address: nat, n: int, asked: bool): Option<int> {
    if 0x40_0000 <= address < 0x80_0000 then Some(address)
    else if 0xA00_0000 <= address < 0xA40_0000 then Some(address - 0xA00_0000)
    else ProgramView(address, n, asked)
  }

  lemma WalkReached(low: int, video: int, asked: bool, n: int, address: nat, user: bool, write: bool)
    requires low != video && address < 0x1_0000_0000
    ensures Walk(Reached(low, video, asked, n), map[low := LowTable(), video := VideoTable()], address, user, write)
      == if user then ProgramView(address, n, asked) else KernelView(address, n, asked)
  {
  }

  /**
   In every state of every run from boot, a program reaches exactly its own 4 MB page, the video memory at its
   physical address, whether or not it has asked, and, once some process has, at 256 MB as well; it can write
   whatever it can read. The kernel reaches its own page and the scrollback besides.
   */
  lemma MemoryInReach(
      img: bytes, s: Kernel, cs: seq<Call>, low: int, video: int, address: nat, user: bool, write: bool)
    requires Bare(img, s) && AllFree(PcbAt(s.pcbs, Slot(1)).fds) && RunOk(img, Booted(img, s), cs)
    requires s.pageDir == InitialDirectory(low) && OneVideoTable(cs, video) && low != video && address < 0x1_0000_0000
    ensures var t := Run(img, Booted(img, s), cs);
      && |t.pageDir| == 1024
      && Walk(t.pageDir, map[low := LowTable(), video := VideoTable()], address, user, write)
        == if user then ProgramView(address, t.total, Asked(cs)) else KernelView(address, t.total, Asked(cs))
  {
    var t := Run(img, Booted(img, s), cs);
    ReachedDirectory(img, s, cs, low, video);
    hide Run, RunOk, Booted, Walk, Reached, ProgramView, KernelView, LowTable, VideoTable;
    WalkReached(low, video, Asked(cs), t.total, address, user, write);
  }
}
