/** An image of two files, one of them over two blocks that do not lie in order, and what each name leads to. */
module FileExample {
  import opened Bytes
  import opened FileImage
  import opened Directory

  const CAT: bytes := [99, 97, 116]
  const DOG: bytes := [100, 111, 103]

  /**
   Three inodes, so the data blocks start at block 4. "cat" is in inode 2: 5000 bytes, the first 4096 in data
   block 1 and the rest in data block 0. "dog" is in inode 1: three bytes in data block 2.
   */
  function ImageByte(i: nat): byte {
    if i < 64 then (if i == 0 then 2 else if i == 4 then 3 else 0)
    else if i < 128 then (if i < 67 then CAT[i - 64] else if i == 96 then 2 else if i == 100 then 2 else 0)
    else if i < 192 then (if i < 131 then DOG[i - 128] else if i == 160 then 2 else if i == 164 then 1 else 0)
    else if i < 8192 then 0
    else if i < 12288 then (if i == 8192 then 3 else if i == 8196 then 2 else 0)
    else if i < 16384 then (if i == 12288 then 136 else if i == 12289 then 19 else if i == 12292 then 1 else 0)
    else if i < 20480 then 7
    else if i < 24576 then 5
    else 9
  }

  function Image(): (img: bytes)
    ensures |img| == 28672 && forall i {:trigger img[i]} :: 0 <= i < 28672 ==> img[i] == ImageByte(i)
  {
    seq(28672, i requires 0 <= i < 28672 => ImageByte(i))
  }

  lemma ImageWord(at: nat)
    requires at + 4 <= 28672
    ensures WordAt(Image(), at) == Number(ImageByte(at), ImageByte(at + 1), ImageByte(at + 2), ImageByte(at + 3))
  {
    hide WordAt, ImageByte;
    WordIsSum(Image(), at);
  }

  lemma Counts()
    ensures DentryCount(Image()) == 2 && InodeCount(Image()) == 3
  {
    hide WordAt, Image;
    ImageWord(0);
    ImageWord(4);
  }

  lemma CatLength()
    ensures FileLength(Image(), 2) == 5000
  {
    hide WordAt, Image;
    ImageWord(12288);
  }

  lemma DogLength()
    ensures FileLength(Image(), 1) == 3
  {
    hide WordAt, Image;
    ImageWord(8192);
  }

  lemma EmptyLength()
    ensures FileLength(Image(), 0) == 0
  {
    hide WordAt, Image;
    ImageWord(4096);
  }

  lemma Blocks()
    ensures BlockAt(Image(), 1, 0) == 24576 && BlockAt(Image(), 2, 0) == 20480 && BlockAt(Image(), 2, 1) == 16384
  {
    Counts();
    hide WordAt, Image;
    ImageWord(8196);
    ImageWord(12292);
    ImageWord(12296);
  }

  lemma ImageWords()
    ensures DentryCount(Image()) == 2 && InodeCount(Image()) == 3
    ensures FileLength(Image(), 0) == 0 && FileLength(Image(), 1) == 3 && FileLength(Image(), 2) == 5000
    ensures BlockAt(Image(), 1, 0) == 24576 && BlockAt(Image(), 2, 0) == 20480 && BlockAt(Image(), 2, 1) == 16384
  {
    hide WordAt, Image, DentryCount, InodeCount, FileLength, BlockAt;
    Counts();
    CatLength();
    DogLength();
    EmptyLength();
    Blocks();
  }

  lemma ImageIsWellFormed()
    ensures WellFormed(Image())
  {
    ImageWords();
    hide WordAt, ImageByte, BlockAt;
    var img := Image();
    assert FileOf(img, 1).blocks[0] == BlockAt(img, 1, 0);
    assert FileOf(img, 2).blocks[0] == BlockAt(img, 2, 0) && FileOf(img, 2).blocks[1] == BlockAt(img, 2, 1);
    assert InodeOk(img, 0) && InodeOk(img, 1) && InodeOk(img, 2);
  }

  lemma EntryIs(k: nat, name: bytes, inode: byte)
    requires WellFormed(Image()) && (if k == 0 then name == CAT && inode == 2 else k == 1 && name == DOG && inode == 1)
    ensures k < DentryCount(Image()) && DentryAt(Image(), k) == Dentry(name, 2, inode)
  {
    ImageWords();
    hide WordAt, WellFormed;
    var img, at := Image(), DentryPos(k);
    var field := img[at..at + FILE_NAME_LENGTH];
    assert field[0] == img[at] && field[1] == img[at + 1] && field[2] == img[at + 2] && field[3] == img[at + 3];
    assert field[..3] == name && field[3] == NUL;
    CStringEnds(field, 3);
  }

  lemma ContentsOfCat(i: nat)
    requires WellFormed(Image()) && |Contents(Image(), 2)| == 5000 && i < 5000
    ensures Contents(Image(), 2)[i] == if i < 4096 then 5 else 7
  {
    ImageWords();
    hide WordAt, WellFormed, Contents;
    ByteInBlock(Image(), 2, i / 4096, i % 4096);
  }

  lemma ContentsOfDog(i: nat)
    requires WellFormed(Image()) && |Contents(Image(), 1)| == 3 && i < 3
    ensures Contents(Image(), 1)[i] == 9
  {
    ImageWords();
    hide WordAt, WellFormed, Contents;
    ByteInBlock(Image(), 1, 0, i);
  }

  lemma FileSizes()
    requires WellFormed(Image())
    ensures |Contents(Image(), 2)| == 5000 && |Contents(Image(), 1)| == 3
  {
    hide WordAt, Image, Contents, WellFormed, DentryCount, InodeCount, FileLength, BlockAt;
    ImageWords();
    LengthIs(Image(), 2);
    LengthIs(Image(), 1);
  }

  lemma ImageNames()
    requires WellFormed(Image())
    ensures Names(Image()) == [CAT, DOG]
    ensures Lookup(Image(), CAT) == Some(Dentry(CAT, 2, 2)) && Lookup(Image(), DOG) == Some(Dentry(DOG, 2, 1))
  {
    hide WordAt, Image, WellFormed, DentryAt, DentryCount;
    Counts();
    EntryIs(0, CAT, 2);
    EntryIs(1, DOG, 1);
    NamesOfTwo(Image());
    assert IndexOf([CAT, DOG], CAT, 0) == 0 && IndexOf([CAT, DOG], DOG, 0) == 1;
  }

  lemma CatIs()
    requires WellFormed(Image())
    ensures Contents(Image(), 2) == Repeat(5, 4096) + Repeat(7, 904)
  {
    FileSizes();
    hide WellFormed, Contents, Image;
    var cat := Contents(Image(), 2);
    forall i | 0 <= i < 5000 ensures cat[i] == (Repeat(5, 4096) + Repeat(7, 904))[i] {
      ContentsOfCat(i);
    }
  }

  lemma DogIs()
    requires WellFormed(Image())
    ensures Contents(Image(), 1) == [9, 9, 9]
  {
    hide WellFormed, Contents, Image;
    FileSizes();
    ContentsOfDog(0);
    ContentsOfDog(1);
    ContentsOfDog(2);
  }

  /** Each name leads to its own file, whose blocks come in the order of its inode block. */
  lemma NamesLeadToTheirFiles()
    ensures WellFormed(Image()) && Names(Image()) == [CAT, DOG]
    ensures Lookup(Image(), CAT).Some? && Lookup(Image(), DOG).Some?
    ensures Contents(Image(), Lookup(Image(), CAT).value.inode) == Repeat(5, 4096) + Repeat(7, 904)
    ensures Contents(Image(), Lookup(Image(), DOG).value.inode) == [9, 9, 9]
  {
    hide WellFormed, Contents, Image, Lookup, Names;
    ImageIsWellFormed();
    ImageNames();
    CatIs();
    DogIs();
  }
}
