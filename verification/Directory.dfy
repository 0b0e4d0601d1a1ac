/** Directory entries and the two lookups of filesyshelper.c. */
module Directory {
  import opened Bytes
  import opened FileImage

  datatype Option<+T> = None | Some(value: T)

  /** The code fetches one byte of the type field and one byte of the inode field. */
  datatype Dentry = Dentry(name: bytes, fileType: byte, inode: byte)

  const NO_DENTRY := Dentry([], 0, 0)

  /** The C string at the start of b; without a terminator it is all of b. */
  function CString(b: bytes): (s: bytes)
    ensures |s| <= |b| && s == b[..|s|] && NulFree(s)
    ensures |s| < |b| ==> b[|s|] == NUL
  {
    if b == [] || b[0] == NUL then [] else [b[0]] + CString(b[1..])
  }

  function DentryPos(k: nat): nat {
    (k + 1) * DENTRY_SIZE
  }

  function NameAt(img: bytes, k: nat): bytes
    requires DentryPos(k) + DENTRY_SIZE <= |img|
  {
    CString(img[DentryPos(k)..DentryPos(k) + FILE_NAME_LENGTH])
  }

  function DentryAt(img: bytes, k: nat): (d: Dentry)
    requires DentryPos(k) + DENTRY_SIZE <= |img|
    ensures |d.name| <= FILE_NAME_LENGTH
  {
    Dentry(NameAt(img, k), img[DentryPos(k) + FILE_NAME_LENGTH], img[DentryPos(k) + FILE_NAME_LENGTH + 4])
  }

  /** All the names of the directory, in table order. */
  function Names(img: bytes): (names: seq<bytes>)
    requires WellFormed(img)
    ensures |names| == DentryCount(img)
  {
    seq(DentryCount(img), k requires 0 <= k < DentryCount(img) => NameAt(img, k))
  }

  /** The names of a directory of two entries. */
  lemma NamesOfTwo(img: bytes)
    requires WellFormed(img) && DentryCount(img) == 2
    ensures Names(img) == [DentryAt(img, 0).name, DentryAt(img, 1).name]
  {
    hide WellFormed, WordAt, NameAt;
  }

  /** The first index from k on at which the name stands, or the number of names. */
  function IndexOf(names: seq<bytes>, name: bytes, k: nat): (i: nat)
    requires k <= |names|
    ensures k <= i <= |names| && (i < |names| ==> names[i] == name)
    ensures forall j :: k <= j < i ==> names[j] != name
    decreases |names| - k
  {
    if k == |names| || names[k] == name then k else IndexOf(names, name, k + 1)
  }

  function Lookup(img: bytes, name: bytes): (d: Option<Dentry>)
    requires WellFormed(img)
    ensures d.Some? ==> |d.value.name| <= FILE_NAME_LENGTH
  {
    var i := IndexOf(Names(img), name, 0);
    if i < |Names(img)| then Some(DentryAt(img, i)) else None
  }

  function LookupIndex(img: bytes, index: nat): (d: Option<Dentry>)
    requires WellFormed(img)
    ensures d.Some? ==> |d.value.name| <= FILE_NAME_LENGTH
  {
    if index < |Names(img)| then Some(DentryAt(img, index)) else None
  }

  /**
   Looking a name up succeeds exactly when some entry carries it, and then gives
   what looking up the lowest such index gives.
   */
  lemma LookupIsLeastIndex(img: bytes, name: bytes)
    requires WellFormed(img)
    ensures Lookup(img, name).None? <==> name !in Names(img)
    ensures forall k :: 0 <= k < |Names(img)| && Names(img)[k] == name && name !in Names(img)[..k] ==>
      Lookup(img, name) == LookupIndex(img, k) && LookupIndex(img, k).value.name == name
  {
    var names := Names(img);
    var i := IndexOf(names, name, 0);
    forall k | 0 <= k < |names| && names[k] == name && name !in names[..k]
      ensures k == i
    {
      assert forall j :: 0 <= j < k ==> names[..k][j] == names[j];
    }
  }

  /**
   What index lookup gives is found again by its name exactly when no earlier entry has that name: then the two
   lookups agree, and otherwise the name leads to an earlier entry.
   */
  lemma IndexThenName(img: bytes, index: nat)
    requires WellFormed(img)
    ensures LookupIndex(img, index).Some? <==> index < DentryCount(img)
    ensures index < DentryCount(img) ==>
      var name, found := LookupIndex(img, index).value.name, IndexOf(Names(img), LookupIndex(img, index).value.name, 0);
      && name == Names(img)[index] && found <= index && Lookup(img, name) == LookupIndex(img, found)
      && (found == index <==> name !in Names(img)[..index])
  {
    if index < DentryCount(img) {
      var names := Names(img);
      var found := IndexOf(names, names[index], 0);
      assert found < index ==> names[..index][found] == names[index];
      if j: nat :| j < index && names[..index][j] == names[index] {
        assert names[j] == names[index];
      }
    }
  }

  lemma NameIs(img: bytes, k: nat)
    requires DentryPos(k) + DENTRY_SIZE <= |img|
    ensures var at, name := 64 * (k + 1), NameAt(img, k);
      |name| <= 32 && name == img[at..at + |name|] && NulFree(name) && (|name| < 32 ==> img[at + |name|] == 0)
  {
    var at, name := DentryPos(k), NameAt(img, k);
    var field := img[at..at + FILE_NAME_LENGTH];
    SliceSlice(img, at, at + FILE_NAME_LENGTH, 0, |name|);
    assert field[0..|name|] == field[..|name|] == name;
    assert |name| < 32 ==> field[|name|] == img[at + |name|];
  }

  /**
   Entry k of the directory as the format lays it out: 64 bytes from 64 (k + 1) on, of which the first 32 hold the
   name, the next four the type and the next four the inode number. Type and inode come out right exactly below 256.
   */
  lemma EntryFields(img: bytes, k: nat)
    requires WellFormed(img)
    ensures 4 <= |img|
    ensures LookupIndex(img, k).Some? <==> k < Number(img[0], img[1], img[2], img[3])
    ensures LookupIndex(img, k).Some? ==>
      var d, at := LookupIndex(img, k).value, 64 * (k + 1);
      && at + 64 <= |img| && |d.name| <= 32 && d.name == img[at..at + |d.name|] && NulFree(d.name)
      && (|d.name| < 32 ==> img[at + |d.name|] == 0)
      && var fileType := Number(img[at + 32], img[at + 33], img[at + 34], img[at + 35]);
      var inode := Number(img[at + 36], img[at + 37], img[at + 38], img[at + 39]);
      && (d.fileType == fileType <==> fileType < 0x100) && (d.inode == inode <==> inode < 0x100)
  {
    hide WordAt, Number, NameAt;
    WordIsSum(img, 0);
    if k < DentryCount(img) {
      var at := DentryPos(k);
      NameIs(img, k);
      WordIsSum(img, at + 32);
      WordIsSum(img, at + 36);
      OneByteField(img, at + 32);
      OneByteField(img, at + 36);
    }
  }

  /** The byte the code reads is the whole 32-bit field exactly when the field is below 256. */
  lemma OneByteField(img: bytes, at: nat)
    requires at + 4 <= |img|
    ensures img[at] == WordAt(img, at) <==> WordAt(img, at) < 0x100
  {
    var b := img[at..at + 4];
    assert LittleEndian(b) == b[0] + 0x100 * LittleEndian(b[1..]);
  }

  /** An inode field of 256 is read as 0. */
  lemma InodeFieldIsCut()
    ensures var field: bytes := [0, 1, 0, 0]; WordAt(field, 0) == 0x100 && field[0] == 0
  {
    var field: bytes := [0, 1, 0, 0];
    assert field[0..4] == field && field[1..] == [1, 0, 0];
    assert LittleEndian([1, 0, 0]) == 1 + 0x100 * LittleEndian([1, 0, 0][1..]);
    ZeroTail([1, 0, 0][1..]);
  }

  /** strlen on a name field, cut at 32 as read_dentry_by_name cuts it. */
  method NameLength(img: bytes, at: nat) returns (n: nat)
    requires at + FILE_NAME_LENGTH <= |img|
    ensures n == |CString(img[at..at + FILE_NAME_LENGTH])|
  {
    ghost var field := img[at..at + FILE_NAME_LENGTH];
    n := 0;
    while n < FILE_NAME_LENGTH && img[at + n] != NUL
      invariant 0 <= n <= FILE_NAME_LENGTH && NulFree(field[..n])
    {
      n := n + 1;
    }
    CStringEnds(field, n);
  }

  lemma {:induction false} CStringEnds(b: bytes, n: nat)
    requires n <= |b| && NulFree(b[..n]) && (n == |b| || b[n] == NUL)
    ensures CString(b) == b[..n]
  {
    if n > 0 {
      assert b[0] == b[..n][0] && b[1..][..n - 1] == b[..n][1..];
      CStringEnds(b[1..], n - 1);
    }
  }

  /** strncmp over the first n characters: zero exactly when they agree. */
  method Strncmp(s1: bytes, s2: bytes, n: nat) returns (r: int)
    requires n <= |s1| && n <= |s2| && (NulFree(s1[..n]) || NulFree(s2[..n]))
    ensures r == 0 <==> s1[..n] == s2[..n]
  {
    var i := 0;
    while i < n
      invariant 0 <= i <= n && s1[..i] == s2[..i]
    {
      assert s1[i] == s1[..n][i] && s2[i] == s2[..n][i];
      if s1[i] != s2[i] || s1[i] == NUL {
        return (s1[i] as int) - s2[i];
      }
      i := i + 1;
    }
    r := 0;
  }

  /** The test in the loop of read_dentry_by_name: lengths first, then the characters. */
  method NameMatches(img: bytes, k: nat, fname: bytes) returns (same: bool)
    requires DentryPos(k) + DENTRY_SIZE <= |img|
    ensures same <==> NameAt(img, k) == fname
  {
    var at := DentryPos(k);
    var field := img[at..at + FILE_NAME_LENGTH];
    var size := |fname|;
    var sizef := NameLength(img, at);
    if size != sizef {
      return false;
    }
    var differs := Strncmp(field, fname, size);
    assert fname[..size] == fname && field[..size] == CString(field);
    same := differs == 0;
  }

  method ReadDentryByName(img: bytes, fname: bytes) returns (r: Option<Dentry>)
    requires WellFormed(img)
    ensures r == Lookup(img, fname)
  {
    ghost var names := Names(img);
    var count := DentryCount(img);
    assert count == |names| && DentryPos(count) <= |img|;
    var k := 0;
    while k < count
      invariant 0 <= k <= count && IndexOf(names, fname, k) == IndexOf(names, fname, 0)
    {
      assert names[k] == NameAt(img, k);
      var same := NameMatches(img, k, fname);
      if same {
        r := Some(DentryAt(img, k));
        return;
      }
      k := k + 1;
    }
    r := None;
  }

  method ReadDentryByIndex(img: bytes, index: nat) returns (r: Option<Dentry>)
    requires WellFormed(img)
    ensures r == LookupIndex(img, index)
  {
    if index >= DentryCount(img) {
      return None;
    }
    r := Some(DentryAt(img, index));
  }
}
