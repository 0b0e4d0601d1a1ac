/** A small image the kernel boots, so that the theorems about runs speak of runs there are. */
module KernelExample {
  import opened Bytes
  import opened FileImage
  import opened Directory
  import opened CommandLine
  import opened KernelSpec
  import opened KernelInvariant
  import opened KernelRuns
  import opened KernelReads

  const IMAGE_SIZE := 3 * BLOCK_SIZE

  /**
   Two entries: "shell", a regular file of forty bytes in inode 0, whose only block starts with the magic number,
   and the directory itself.
   */
  function ImageByte(i: nat): byte {
    if i == 0 then 2
    else if i == 4 then 1
    else if DENTRY_SIZE <= i < DENTRY_SIZE + 5 then SHELL[i - DENTRY_SIZE]
    else if i == DENTRY_SIZE + FILE_NAME_LENGTH then 2
    else if i == 2 * DENTRY_SIZE then DOT[0]
    else if i == 2 * DENTRY_SIZE + FILE_NAME_LENGTH then 1
    else if i == BLOCK_SIZE then HEADER_INFO
    else if 2 * BLOCK_SIZE <= i < 2 * BLOCK_SIZE + 4 then MAGIC[i - 2 * BLOCK_SIZE]
    else 0
  }

  function Image(): (img: bytes)
    ensures |img| == IMAGE_SIZE && forall i {:trigger img[i]} :: 0 <= i < IMAGE_SIZE ==> img[i] == ImageByte(i)
  {
    seq(IMAGE_SIZE, i requires 0 <= i < IMAGE_SIZE => ImageByte(i))
  }

  lemma LowByteWord(img: bytes, at: nat)
    requires at + 4 <= |img| && img[at + 1] == 0 && img[at + 2] == 0 && img[at + 3] == 0
    ensures WordAt(img, at) == img[at]
  {
    var w := img[at..at + 4];
    assert w[1] == 0 && w[2] == 0 && w[3] == 0;
    ZeroTail(w[1..]);
  }

  lemma ImageWords()
    ensures DentryCount(Image()) == 2 && InodeCount(Image()) == 1 && FileLength(Image(), 0) == HEADER_INFO
    ensures BlockAt(Image(), 0, 0) == 2 * BLOCK_SIZE
  {
    hide LittleEndian;
    var img := Image();
    LowByteWord(img, 0);
    LowByteWord(img, 4);
    LowByteWord(img, BLOCK_SIZE);
    LowByteWord(img, BLOCK_SIZE + 4);
  }

  lemma ImageIsWellFormed()
    ensures WellFormed(Image())
  {
    ImageWords();
    hide WordAt;
    var img := Image();
    assert FileOf(img, 0).blocks[0] == BlockAt(img, 0, 0);
    assert InodeOk(img, 0);
  }

  lemma FirstName()
    requires WellFormed(Image())
    ensures NameAt(Image(), 0) == SHELL
  {
    hide WordAt, WellFormed;
    var img := Image();
    var field := img[DENTRY_SIZE..DENTRY_SIZE + FILE_NAME_LENGTH];
    forall i | 0 <= i < 5 ensures field[i] == SHELL[i] {
      assert field[i] == img[DENTRY_SIZE + i];
    }
    assert field[..5] == SHELL && field[5] == img[DENTRY_SIZE + 5] == NUL;
    CStringEnds(field, 5);
  }

  lemma SecondName()
    requires WellFormed(Image())
    ensures NameAt(Image(), 1) == DOT
  {
    hide WordAt, WellFormed;
    var img := Image();
    var field := img[2 * DENTRY_SIZE..2 * DENTRY_SIZE + FILE_NAME_LENGTH];
    assert field[0] == img[2 * DENTRY_SIZE] == DOT[0] && field[1] == img[2 * DENTRY_SIZE + 1] == NUL;
    assert field[..1] == DOT;
    CStringEnds(field, 1);
  }

  lemma ImageNames()
    requires WellFormed(Image())
    ensures Names(Image()) == [SHELL, DOT]
  {
    ImageWords();
    FirstName();
    SecondName();
    NamesOfTwo(Image());
  }

  /** The directory of this image is "shell" and ".", and what ls prints of it is "." twice. */
  lemma LsMissesTheShell()
    ensures WellFormed(Image()) && Names(Image()) == [SHELL, DOT]
    ensures NameLines(Names(Image())) == SHELL + [NEWLINE] + DOT + [NEWLINE]
    ensures NameLines(Listing(Image(), DOT)) == DOT + [NEWLINE] + DOT + [NEWLINE]
  {
    ImageIsWellFormed();
    ImageNames();
    hide WellFormed;
    var names, listing := Names(Image()), Listing(Image(), DOT);
    assert names[1..] == listing[1..] == [DOT] && [DOT][1..] == [];
    assert NameLines([DOT]) == DOT + [NEWLINE] + [];
  }

  lemma FirstInodeIsOk()
    requires WellFormed(Image())
    ensures 0 < InodeCount(Image()) && InodeOk(Image(), 0)
  {
    ImageWords();
  }

  lemma ImageMagic()
    ensures Image()[2 * BLOCK_SIZE..2 * BLOCK_SIZE + 4] == MAGIC
  {
  }

  lemma StartsWithMagic(c: bytes)
    requires HEADER_INFO <= |c| && c[0..4] == MAGIC
    ensures IsProgram(c)
  {
    assert c[..4] == c[0..4];
  }

  lemma ImageContents()
    requires WellFormed(Image())
    ensures IsProgram(Contents(Image(), 0)) && |Contents(Image(), 0)| == HEADER_INFO
  {
    hide Image, WordAt, WellFormed, InodeOk, Contents, BlockAt, FileLength, IsProgram;
    ImageWords();
    ImageMagic();
    FirstInodeIsOk();
    OffsetSlice(Image(), 0, 0, 4);
    StartsWithMagic(Contents(Image(), 0));
  }

  lemma ImageLookup(name: bytes)
    requires WellFormed(Image())
    ensures Lookup(Image(), name).Some? <==> name in [SHELL, DOT]
    ensures Lookup(Image(), name).Some? ==> Lookup(Image(), name).value.inode == 0
  {
    ImageNames();
    ImageInodes();
    LookupIsLeastIndex(Image(), name);
    hide WellFormed, Image, Names, DentryAt, WordAt;
    assert IndexOf(Names(Image()), name, 0) <= 2;
  }

  lemma ImageInodes()
    ensures DentryAt(Image(), 0).inode == 0 && DentryAt(Image(), 1).inode == 0
  {
    hide NameAt;
  }

  /** Both names lead to the program, and no other name leads anywhere. */
  lemma ImagePrograms(name: bytes)
    requires WellFormed(Image())
    ensures Program(Image(), name).Some? <==> name in [SHELL, DOT]
    ensures Program(Image(), name).Some? ==> |Program(Image(), name).value| == HEADER_INFO
  {
    hide WellFormed, Contents, IsProgram, Lookup, Image;
    ImageContents();
    ImageLookup(name);
  }

  /** The image meets everything the kernel relies on. */
  lemma ImageIsOk()
    ensures ImageOk(Image())
  {
    hide WellFormed, Program, Image;
    ImageIsWellFormed();
    ImagePrograms(SHELL);
    forall name {:trigger Program(Image(), name)} | Program(Image(), name).Some?
      ensures LOAD_OFFSET + |Program(Image(), name).value| <= PAGE_SIZE
    {
      ImagePrograms(name);
    }
  }

  /** Memory at power-on: every byte zero. */
  function PowerOn(): Kernel {
    Kernel(0, 0, map[], InitialDirectory(0), seq(FRAMES, f => Repeat(0, PAGE_SIZE)), 0, NO_DENTRY, 0, [])
  }

  lemma PowerOnIsBare(img: bytes)
    requires ImageOk(img)
    ensures Bare(img, PowerOn()) && AllFree(PcbAt(PowerOn().pcbs, Slot(1)).fds)
  {
  }

  /** From every image that is in order the first shell starts, runs another, and gets its status back when that halts. */
  lemma NestedShellReturns(img: bytes, status: int)
    requires ImageOk(img)
    ensures Bare(img, PowerOn()) && AllFree(PcbAt(PowerOn().pcbs, Slot(1)).fds)
    ensures var s := Booted(img, PowerOn());
      var t := Execute(img, s, SHELL, s.current, 0).0;
      s.total == 1 && t.total == 2 && Inv(img, t)
      && Halt(img, t, status).1 == Resumed(s.current, 0, status) && Restored(s, Halt(img, t, status).0)
  {
    PowerOnIsBare(img);
    var s := Booted(img, PowerOn());
    ReachableStates(img, PowerOn(), []);
    ShellCommand();
    hide Execute, Inv, Program;
    BootedIsFirst(img);
    MaskFindsSlot(1, s.current);
    ShellRuns(img, s);
    ExecuteReturns(img, s, SHELL, s.current, 0, [], status);
  }

  lemma ShellCommand()
    ensures CommandOk(SHELL)
  {
    ShortCommandsFit(SHELL);
  }

  lemma BootedIsFirst(img: bytes)
    requires ImageOk(img) && Bare(img, PowerOn()) && AllFree(PcbAt(PowerOn().pcbs, Slot(1)).fds)
    ensures Booted(img, PowerOn()).total == 1 && Booted(img, PowerOn()).current == Slot(1)
  {
    FirstShellInv(img, PowerOn(), 0, 0);
    ParseShell();
    EquippedFds(img, Spawned(PowerOn(), Program(img, SHELL).value, [], 0, 0));
  }

  lemma ShellRuns(img: bytes, s: Kernel)
    requires Inv(img, s) && s.total == 1
    ensures Execute(img, s, SHELL, s.current, 0).1.Entered?
    ensures CallOk(s, ExecuteCall(SHELL, s.current, 0)) && Execute(img, s, SHELL, s.current, 0).0.total == 2
  {
    ParseShell();
    MaskFindsSlot(1, s.current);
    ExecutedChild(img, s, SHELL, s.current, 0);
  }
}
