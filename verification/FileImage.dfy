/**
 The read-only file system image that filesyshelper.c reads: a boot block with
 64-byte directory entries, one 4 KB block per inode, then the data blocks.
 All fields are 32-bit little-endian words inside one block of bytes.
 */
module FileImage {
  import opened Bytes

  const BLOCK_SIZE := 4096
  const DENTRY_SIZE := 64
  const FILE_NAME_LENGTH := 32
  // what fits behind the length word of an inode block, and beside the statistics in the boot block
  const MAX_BLOCKS := 1023
  const MAX_DENTRIES := 63

  /** The number that little-endian bytes stand for. */
  function LittleEndian(b: bytes): nat {
    if b == [] then 0 else b[0] + 0x100 * LittleEndian(b[1..])
  }

  lemma {:induction false} ZeroTail(w: bytes)
    requires forall i :: 0 <= i < |w| ==> w[i] == 0
    ensures LittleEndian(w) == 0
  {
    if w != [] {
      ZeroTail(w[1..]);
    }
  }

  function WordAt(img: bytes, at: nat): nat
    requires at + 4 <= |img|
  {
    LittleEndian(img[at..at + 4])
  }

  function DentryCount(img: bytes): nat
    requires 8 <= |img|
  {
    WordAt(img, 0)
  }

  function InodeCount(img: bytes): nat
    requires 8 <= |img|
  {
    WordAt(img, 4)
  }

  function InodeAt(inode: nat): nat {
    (inode + 1) * BLOCK_SIZE
  }

  /** A file as its inode describes it: its length, and where its blocks start in the image. */
  datatype File = File(length: nat, blocks: seq<nat>)

  function FileLength(img: bytes, inode: nat): nat
    requires InodeAt(inode) + 4 <= |img|
  {
    WordAt(img, InodeAt(inode))
  }

  function BlockAt(img: bytes, inode: nat, k: nat): nat
    requires 8 <= |img| && k < MAX_BLOCKS && InodeAt(inode) + BLOCK_SIZE <= |img|
  {
    (InodeCount(img) + 1 + WordAt(img, InodeAt(inode) + 4 + 4 * k)) * BLOCK_SIZE
  }

  ghost function FileOf(img: bytes, inode: nat): File
    requires 8 <= |img| && InodeAt(inode) + BLOCK_SIZE <= |img|
  {
    File(FileLength(img, inode), seq(MAX_BLOCKS, k requires 0 <= k < MAX_BLOCKS => BlockAt(img, inode, k)))
  }

  /** The file's blocks are there and inside the image. */
  ghost predicate FileOk(img: bytes, f: File) {
    && |f.blocks| == MAX_BLOCKS && f.length <= MAX_BLOCKS * BLOCK_SIZE
    && forall k {:trigger f.blocks[k]} :: 0 <= k < MAX_BLOCKS && k * BLOCK_SIZE < f.length ==>
         f.blocks[k] + BLOCK_SIZE <= |img|
  }

  ghost predicate InodeOk(img: bytes, inode: nat)
    requires 8 <= |img|
  {
    InodeAt(inode) + BLOCK_SIZE <= |img| && FileOk(img, FileOf(img, inode))
  }

  /** The format the code relies on without checking it. */
  ghost predicate WellFormed(img: bytes) {
    && BLOCK_SIZE <= |img|
    && DentryCount(img) <= MAX_DENTRIES
    && forall inode {:trigger InodeOk(img, inode)} :: 0 <= inode < InodeCount(img) ==> InodeOk(img, inode)
  }

  // ---------- file contents ----------

  /** The file from its k-th block on: block after block, the last one cut at the file's length. */
  ghost function BlocksFrom(img: bytes, f: File, k: nat): (b: bytes)
    requires FileOk(img, f)
    ensures |b| == Max(0, f.length - k * BLOCK_SIZE)
    decreases f.length - k * BLOCK_SIZE
  {
    var left := f.length - k * BLOCK_SIZE;
    if left <= 0 then [] else img[f.blocks[k]..f.blocks[k] + Min(BLOCK_SIZE, left)] + BlocksFrom(img, f, k + 1)
  }

  /** What the file contains; an inode out of range contains nothing. */
  ghost function Contents(img: bytes, inode: nat): bytes
    requires WellFormed(img)
  {
    if inode < InodeCount(img) then
      assert InodeOk(img, inode);
      BlocksFrom(img, FileOf(img, inode), 0)
    else []
  }

  lemma FirstBlock(img: bytes, f: File, k: nat)
    requires FileOk(img, f) && k * BLOCK_SIZE < f.length
    ensures var n := Min(BLOCK_SIZE, f.length - k * BLOCK_SIZE);
      && BlocksFrom(img, f, k)[..n] == img[f.blocks[k]..f.blocks[k] + n]
      && BlocksFrom(img, f, k)[n..] == BlocksFrom(img, f, k + 1)
  {
  }

  /** Skipping whole blocks of a file leaves the later blocks. */
  lemma {:induction false} SkipBlocks(img: bytes, f: File, j: nat, k: nat)
    requires FileOk(img, f) && j <= k && k * BLOCK_SIZE <= f.length
    ensures BlocksFrom(img, f, j)[(k - j) * BLOCK_SIZE..] == BlocksFrom(img, f, k)
    decreases k - j
  {
    if j < k {
      SkipBlocks(img, f, j + 1, k);
      FirstBlock(img, f, j);
      DropDrop(BlocksFrom(img, f, j), BLOCK_SIZE, (k - j - 1) * BLOCK_SIZE);
    }
  }

  /** A stretch of a file inside its k-th block is that block's bytes. */
  lemma BlockSlice(img: bytes, f: File, k: nat, r: nat, count: nat)
    requires FileOk(img, f) && r + count <= BLOCK_SIZE
    requires k * BLOCK_SIZE < f.length && k * BLOCK_SIZE + r + count <= f.length
    ensures BlocksFrom(img, f, 0)[k * BLOCK_SIZE + r..k * BLOCK_SIZE + r + count]
      == img[f.blocks[k] + r..f.blocks[k] + r + count]
  {
    var c, b := BlocksFrom(img, f, 0), BlocksFrom(img, f, k);
    SkipBlocks(img, f, 0, k);
    FirstBlock(img, f, k);
    var n := Min(BLOCK_SIZE, |b|);
    DropSlice(c, k * BLOCK_SIZE, r, r + count);
    SliceSlice(b, 0, n, r, r + count);
    SliceSlice(img, f.blocks[k], f.blocks[k] + n, r, r + count);
  }

  /** The same by file offset. */
  lemma OffsetSlice(img: bytes, inode: nat, offset: nat, count: nat)
    requires WellFormed(img) && inode < InodeCount(img) && InodeOk(img, inode)
    requires offset < FileLength(img, inode) && offset + count <= FileLength(img, inode)
    requires offset % BLOCK_SIZE + count <= BLOCK_SIZE
    ensures |Contents(img, inode)| == FileLength(img, inode) && offset / BLOCK_SIZE < MAX_BLOCKS
    ensures var from := BlockAt(img, inode, offset / BLOCK_SIZE) + offset % BLOCK_SIZE;
      from + count <= |img| && Contents(img, inode)[offset..offset + count] == img[from..from + count]
  {
    var f := FileOf(img, inode);
    var k, r := offset / BLOCK_SIZE, offset % BLOCK_SIZE;
    assert offset == k * BLOCK_SIZE + r;
    assert f.blocks[k] + BLOCK_SIZE <= |img|;
    BlockSlice(img, f, k, r, count);
  }

  lemma WordIsSum(img: bytes, at: nat)
    requires at + 4 <= |img|
    ensures WordAt(img, at) == Number(img[at], img[at + 1], img[at + 2], img[at + 3])
  {
    var w := img[at..at + 4];
    assert LittleEndian(w[3..]) == w[3] + 0x100 * LittleEndian(w[3..][1..]);
    assert LittleEndian(w[2..]) == w[2] + 0x100 * LittleEndian(w[2..][1..]) && w[2..][1..] == w[3..];
    assert LittleEndian(w[1..]) == w[1] + 0x100 * LittleEndian(w[1..][1..]) && w[1..][1..] == w[2..];
  }

  lemma NoContents(img: bytes, inode: nat)
    requires WellFormed(img)
    ensures InodeCount(img) <= inode ==> Contents(img, inode) == []
  {
  }

  lemma LengthIs(img: bytes, inode: nat)
    requires WellFormed(img) && inode < InodeCount(img)
    ensures InodeAt(inode) + BLOCK_SIZE <= |img| && |Contents(img, inode)| == FileLength(img, inode)
  {
    assert InodeOk(img, inode);
    hide WordAt;
  }

  /** The image read as the format lays it out: the length of a file is the first word of its inode block. */
  lemma ContentsLength(img: bytes, inode: nat)
    requires WellFormed(img)
    ensures 8 <= |img|
    ensures var n := Number(img[4], img[5], img[6], img[7]);
      if inode >= n then Contents(img, inode) == []
      else
        var at := 4096 * (inode + 1);
        && at + 4096 <= |img|
        && |Contents(img, inode)| == Number(img[at], img[at + 1], img[at + 2], img[at + 3])
  {
    hide WordAt, Number, Contents;
    WordIsSum(img, 4);
    NoContents(img, inode);
    if inode < InodeCount(img) {
      LengthIs(img, inode);
      WordIsSum(img, InodeAt(inode));
    }
  }

  lemma BlockIs(img: bytes, inode: nat, k: nat)
    requires 8 <= |img| && k < MAX_BLOCKS && InodeAt(inode) + BLOCK_SIZE <= |img|
    ensures var at := 4096 * (inode + 1) + 4 + 4 * k;
      && at + 4 <= |img|
      && BlockAt(img, inode, k)
        == (Number(img[4], img[5], img[6], img[7]) + 1 + Number(img[at], img[at + 1], img[at + 2], img[at + 3])) * 4096
  {
    hide WordAt, Number;
    WordIsSum(img, 4);
    WordIsSum(img, 4096 * (inode + 1) + 4 + 4 * k);
  }

  lemma ByteInBlock(img: bytes, inode: nat, k: nat, r: nat)
    requires WellFormed(img) && r < 4096 && 4096 * k + r < |Contents(img, inode)|
    ensures 8 <= |img| && k < MAX_BLOCKS && InodeAt(inode) + BLOCK_SIZE <= |img|
    ensures BlockAt(img, inode, k) + r < |img| && Contents(img, inode)[4096 * k + r] == img[BlockAt(img, inode, k) + r]
  {
    hide WordAt;
    var p := 4096 * k + r;
    assert p / BLOCK_SIZE == k && p % BLOCK_SIZE == r;
    assert InodeOk(img, inode);
    OffsetSlice(img, inode, p, 1);
    var from := BlockAt(img, inode, k) + r;
    assert Contents(img, inode)[p..p + 1][0] == img[from..from + 1][0];
  }

  /**
   Byte 4096 k + r of a file is byte r of the data block whose number w is the k-th word behind the length in the
   file's inode block; the data blocks follow the boot block and the n inode blocks.
   */
  lemma ContentsByte(img: bytes, inode: nat, k: nat, r: nat, n: nat, w: nat)
    requires WellFormed(img) && r < 4096 && 4096 * k + r < |Contents(img, inode)|
    requires n == Number(img[4], img[5], img[6], img[7])
    requires var at := 4096 * (inode + 1) + 4 + 4 * k;
      at + 4 <= |img| && w == Number(img[at], img[at + 1], img[at + 2], img[at + 3])
    ensures var from := (n + 1 + w) * 4096 + r; from < |img| && Contents(img, inode)[4096 * k + r] == img[from]
  {
    hide Number, WordAt, Contents, WellFormed, BlockAt;
    ByteInBlock(img, inode, k, r);
    BlockIs(img, inode, k);
  }

  /** The part of a file that one read at `offset` for at most `length` bytes can return. */
  ghost function Clip(c: bytes, offset: nat, length: int): bytes {
    if offset >= |c| || length <= 0 then [] else c[offset..Min(offset + length, |c|)]
  }

  /** How many bytes one read_data call delivers: clipped to the block, then to the end of the file. */
  function ReadCount(c: bytes, offset: nat, length: nat): (n: int)
    ensures n == -1 <==> offset >= |c|
    ensures n != -1 ==> 0 <= n <= length && offset + n <= |c| && (length > 0 ==> n > 0)
  {
    if offset >= |c| then -1
    else Min(Min(length, BLOCK_SIZE - offset % BLOCK_SIZE), |c| - offset)
  }

  /** It is the rest of the request, of the block or of the file, whichever is least. */
  lemma ReadCountIsLeast(c: bytes, offset: nat, length: nat)
    requires offset < |c|
    ensures var n, inBlock := ReadCount(c, offset, length), 4096 * (offset / 4096 + 1) - offset;
      && n <= length && n <= inBlock && n <= |c| - offset
      && (n == length || n == inBlock || n == |c| - offset)
  {
  }

  /** A buffer with `data` written over it from `at` on. */
  ghost function Replaced(was: bytes, at: nat, data: bytes): bytes
    requires at + |data| <= |was|
  {
    was[..at] + data + was[at + |data|..]
  }

  lemma ReplacedTwice(was: bytes, at: nat, d: bytes, e: bytes)
    requires at + |d| + |e| <= |was|
    ensures Replaced(Replaced(was, at, d), at + |d|, e) == Replaced(was, at, d + e)
  {
  }

  lemma ClipMore(was: bytes, at: nat, c: bytes, position: nat, done: nat, more: nat)
    requires position + done + more <= |c| && at + done + more <= |was|
    ensures |Clip(c, position, done)| == done && |Clip(c, position, done + more)| == done + more
    ensures Replaced(Replaced(was, at, Clip(c, position, done)), at + done, c[position + done..position + done + more])
      == Replaced(was, at, Clip(c, position, done + more))
  {
    var d, e := c[position..position + done], c[position + done..position + done + more];
    assert Clip(c, position, done) == d && Clip(c, position, done + more) == d + e;
    hide Clip;
    ReplacedTwice(was, at, d, e);
  }

  /** Buffer contents after a read that returned `count` for this offset. */
  ghost function Delivered(was: bytes, at: nat, c: bytes, offset: nat, count: int): bytes
    requires count == -1 || (0 <= count && offset + count <= |c| && at + count <= |was|)
  {
    if count == -1 then was else Replaced(was, at, c[offset..offset + count])
  }

  /**
   read_data. The result is -1 exactly when the inode or the offset is out of range;
   otherwise the bytes delivered into buf at `at` are the file's own from `offset` on.
   */
  method ReadData(img: bytes, inode: nat, offset: nat, buf: array<byte>, at: nat, length: nat) returns (count: int)
    requires WellFormed(img) && at + Max(0, ReadCount(Contents(img, inode), offset, length)) <= buf.Length
    modifies buf
    ensures count == ReadCount(Contents(img, inode), offset, length)
    ensures buf[..] == Delivered(old(buf[..]), at, Contents(img, inode), offset, count)
  {
    if inode >= InodeCount(img) {
      return -1;
    }
    assert InodeOk(img, inode);
    var fileLength := FileLength(img, inode);
    if offset >= fileLength {
      return -1;
    }
    var n := ClipLength(offset, length, fileLength);
    CopyFromBlock(img, inode, offset, n, buf, at);
    count := n;
  }

  /**
   file_read, and the loader's loop in system_execute, which is the same loop from offset 0:
   block after block until enough bytes are there or read_data reports -1. Each turn makes progress.
   */
  method FileRead(img: bytes, inode: nat, position: nat, buf: array<byte>, at: nat, nbytes: int) returns (count: nat)
    requires WellFormed(img) && at + |Clip(Contents(img, inode), position, nbytes)| <= buf.Length
    modifies buf
    ensures count == |Clip(Contents(img, inode), position, nbytes)|
    ensures buf[..] == Replaced(old(buf[..]), at, Clip(Contents(img, inode), position, nbytes))
  {
    hide Contents, WellFormed, Clip, Replaced;
    ghost var was, c := buf[..], Contents(img, inode);
    count := 0;
    ClipNone(was, at, c, position, nbytes);
    while nbytes - count > 0
      invariant 0 <= count <= Max(0, nbytes) && count == |Clip(c, position, count)|
      invariant at + |Clip(c, position, nbytes)| <= |was| == buf.Length && at + |Clip(c, position, count)| <= |was|
      invariant buf[..] == Replaced(was, at, Clip(c, position, count))
    {
      var cnt := ReadTurn(img, inode, position, buf, at, nbytes, count, was);
      if cnt == -1 {
        return;
      }
      count := count + cnt;
      ClipFits(c, position, count, nbytes);
    }
  }

  lemma ClipNone(was: bytes, at: nat, c: bytes, position: nat, nbytes: int)
    requires at + |Clip(c, position, nbytes)| <= |was|
    ensures Clip(c, position, 0) == [] && Replaced(was, at, []) == was && (nbytes <= 0 ==> Clip(c, position, nbytes) == [])
  {
  }

  lemma ClipFits(c: bytes, position: nat, count: nat, nbytes: int)
    requires count <= nbytes
    ensures |Clip(c, position, count)| <= |Clip(c, position, nbytes)|
    ensures nbytes <= count ==> Clip(c, position, count) == Clip(c, position, nbytes)
  {
  }

  /** What one more read_data can add to what has been read so far. */
  lemma TurnFits(c: bytes, position: nat, count: nat, nbytes: int)
    requires count < nbytes && count == |Clip(c, position, count)|
    ensures var n := ReadCount(c, position + count, nbytes - count);
      if n == -1 then Clip(c, position, nbytes) == Clip(c, position, count)
      else 0 < n <= nbytes - count && position + count + n <= |c| && count + n <= |Clip(c, position, nbytes)|
    ensures count <= |Clip(c, position, nbytes)|
  {
  }

  /** One turn of that loop. */
  method ReadTurn(
      img: bytes, inode: nat, position: nat, buf: array<byte>, at: nat, nbytes: int, count: nat, ghost was: bytes)
    returns (cnt: int)
    requires WellFormed(img) && count < nbytes && count == |Clip(Contents(img, inode), position, count)|
    requires at + |Clip(Contents(img, inode), position, nbytes)| <= |was| == buf.Length
    requires buf[..] == Replaced(was, at, Clip(Contents(img, inode), position, count))
    modifies buf
    ensures cnt == -1 ==>
      && buf[..] == Replaced(was, at, Clip(Contents(img, inode), position, count))
      && Clip(Contents(img, inode), position, nbytes) == Clip(Contents(img, inode), position, count)
    ensures cnt != -1 ==>
      && 0 < cnt <= nbytes - count
      && count + cnt == |Clip(Contents(img, inode), position, count + cnt)|
      && buf[..] == Replaced(was, at, Clip(Contents(img, inode), position, count + cnt))
  {
    hide Contents, WellFormed, Clip, Replaced, ReadCount;
    ghost var c := Contents(img, inode);
    TurnFits(c, position, count, nbytes);
    cnt := ReadData(img, inode, position + count, buf, at + count, nbytes - count);
    if cnt != -1 {
      ClipMore(was, at, c, position, count, cnt);
    }
  }

  /** Finds the block an offset is in and copies from there. */
  method CopyFromBlock(img: bytes, inode: nat, offset: nat, n: nat, buf: array<byte>, at: nat)
    requires WellFormed(img) && inode < InodeCount(img) && InodeOk(img, inode) && at + n <= buf.Length
    requires offset < FileLength(img, inode) && offset + n <= FileLength(img, inode) && offset % BLOCK_SIZE + n <= BLOCK_SIZE
    modifies buf
    ensures |Contents(img, inode)| == FileLength(img, inode)
    ensures buf[..] == Delivered(old(buf[..]), at, Contents(img, inode), offset, n)
  {
    OffsetSlice(img, inode, offset, n);
    var from := BlockAt(img, inode, offset / BLOCK_SIZE) + offset % BLOCK_SIZE;
    CopyIn(img[from..from + n], buf, at);
  }

  /** The length as read_data cuts it: to what is left of the block, then to what is left of the file. */
  method ClipLength(offset: nat, length: nat, fileLength: nat) returns (n: nat)
    requires offset < fileLength
    ensures n == Min(Min(length, BLOCK_SIZE - offset % BLOCK_SIZE), fileLength - offset)
  {
    n := length;
    if BLOCK_SIZE - offset % BLOCK_SIZE < n {
      n := BLOCK_SIZE - offset % BLOCK_SIZE;
    }
    if offset + n > fileLength {
      n := n - (offset + n - fileLength);
    }
  }

  /** The memcpy from the image into the caller's buffer. */
  method CopyIn(data: bytes, buf: array<byte>, at: nat)
    requires at + |data| <= buf.Length
    modifies buf
    ensures buf[..] == old(buf[..])[..at] + data + old(buf[..])[at + |data|..]
  {
    var i := 0;
    while i < |data|
      invariant 0 <= i <= |data|
      invariant forall k {:trigger buf[k]} :: 0 <= k < buf.Length ==>
        buf[k] == if at <= k < at + i then data[k - at] else old(buf[k])
    {
      buf[at + i] := data[i];
      i := i + 1;
    }
  }
}
