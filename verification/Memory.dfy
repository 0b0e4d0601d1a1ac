/**
 The hand-written block operations of lib.c. One array stands for the address
 space, so an index is an address and overlap and alignment mean what they mean
 in the original. Each method follows the assembly: an alignment head, a
 four-byte body and a byte tail, or one of two copying directions.
 */
module Memory {
  import opened Bytes

  /** The memory after n bytes at s have been set to c. */
  function Filled(m: bytes, s: nat, c: byte, n: nat): bytes
    requires s + n <= |m|
  {
    m[..s] + Repeat(c, n) + m[s + n..]
  }

  /** The memory after n bytes have been copied from src to dst all at once. */
  function Moved(m: bytes, dst: nat, src: nat, n: nat): bytes
    requires dst + n <= |m| && src + n <= |m|
  {
    m[..dst] + m[src..src + n] + m[dst + n..]
  }

  lemma FilledAt(m: bytes, s: nat, c: byte, n: nat, i: nat)
    requires s + n <= |m| && i < |m|
    ensures |Filled(m, s, c, n)| == |m| && Filled(m, s, c, n)[i] == if s <= i < s + n then c else m[i]
  {
  }

  lemma MovedAt(m: bytes, dst: nat, src: nat, n: nat, i: nat)
    requires dst + n <= |m| && src + n <= |m| && i < |m|
    ensures |Moved(m, dst, src, n)| == |m|
    ensures Moved(m, dst, src, n)[i] == if dst <= i < dst + n then m[src + i - dst] else m[i]
  {
  }

  /** The low byte of c, four times over, as the 32-bit register that `stosl` stores. */
  function Spread(c: byte): int {
    ((c * 0x100 + c) * 0x100 + c) * 0x100 + c
  }

  /** The four bytes of the register, lowest first. */
  method RegisterBytes(eax: int, ghost c: byte) returns (b0: byte, b1: byte, b2: byte, b3: byte)
    requires eax == Spread(c)
    ensures b0 == c && b1 == c && b2 == c && b3 == c
  {
    b0 := eax % 0x100;
    var rest := eax / 0x100;
    assert rest == (c * 0x100 + c) * 0x100 + c;
    b1 := rest % 0x100;
    rest := rest / 0x100;
    assert rest == c * 0x100 + c;
    b2, b3 := rest % 0x100, rest / 0x100;
  }

  /** One `stosl`. */
  method StoreDword(mem: array<byte>, at: nat, eax: int, ghost c: byte)
    requires at + 4 <= mem.Length && eax == Spread(c)
    modifies mem
    ensures forall i {:trigger mem[i]} :: 0 <= i < mem.Length ==> mem[i] == if at <= i < at + 4 then c else old(mem[i])
  {
    var b0, b1, b2, b3 := RegisterBytes(eax, c);
    mem[at], mem[at + 1], mem[at + 2], mem[at + 3] := b0, b1, b2, b3;
  }

  method Memset(mem: array<byte>, s: nat, value: int, n: nat)
    requires s + n <= mem.Length
    modifies mem
    ensures mem[..] == Filled(old(mem[..]), s, value % 0x100, n)
  {
    var c: byte := value % 0x100;
    var eax := Spread(c);
    var edi, ecx := s, n;
    while ecx != 0 && edi % 4 != 0
      invariant 0 <= ecx && edi + ecx == s + n && s <= edi
      invariant forall i :: 0 <= i < mem.Length ==> mem[i] == if s <= i < edi then c else old(mem[i])
    {
      mem[edi] := c;
      edi, ecx := edi + 1, ecx - 1;
    }
    if ecx != 0 {
      var edx := ecx % 4;
      ecx := ecx / 4;
      while ecx != 0
        invariant 0 <= ecx && 0 <= edx && edi + 4 * ecx + edx == s + n && s <= edi
        invariant forall i :: 0 <= i < mem.Length ==> mem[i] == if s <= i < edi then c else old(mem[i])
      {
        StoreDword(mem, edi, eax, c);
        edi, ecx := edi + 4, ecx - 1;
      }
      while edx != 0
        invariant edi + edx == s + n && s <= edi && 0 <= edx
        invariant forall i :: 0 <= i < mem.Length ==> mem[i] == if s <= i < edi then c else old(mem[i])
      {
        mem[edi] := c;
        edi, edx := edi + 1, edx - 1;
      }
    }
    assert mem[..] == Filled(old(mem[..]), s, c, n);
  }

  /** Bytes lo..hi have been replaced by those `delta` further on in `was`; nothing else has changed. */
  ghost predicate Copied(mem: array<byte>, was: bytes, lo: int, hi: int, delta: int)
    requires |was| == mem.Length && lo <= hi && 0 <= lo + delta && hi + delta <= mem.Length
    reads mem
  {
    forall i {:trigger mem[i]} :: 0 <= i < mem.Length ==> mem[i] == if lo <= i < hi then was[i + delta] else was[i]
  }

  lemma CopiedIsMoved(mem: array<byte>, was: bytes, dst: nat, src: nat, n: nat)
    requires |was| == mem.Length && dst + n <= mem.Length && src + n <= mem.Length
    requires Copied(mem, was, dst, dst + n, src - dst)
    ensures mem[..] == Moved(was, dst, src, n)
  {
    forall i | 0 <= i < mem.Length ensures mem[i] == Moved(was, dst, src, n)[i] {
    }
  }

  /** One byte of an upward copy that began at lo: the source is not yet overwritten, or never will be. */
  method MoveByte(mem: array<byte>, dst: nat, src: nat, ghost was: bytes, ghost lo: nat)
    requires dst < mem.Length == |was| && src < mem.Length
    requires lo <= dst && lo + src >= dst && (dst <= src || src < lo)
    requires Copied(mem, was, lo, dst, src - dst)
    modifies mem
    ensures Copied(mem, was, lo, dst + 1, src - dst)
  {
    mem[dst] := mem[src];
  }

  /** One `movsl` of an upward copy: all four bytes are read before any is written. */
  method MoveDword(mem: array<byte>, dst: nat, src: nat, ghost was: bytes, ghost lo: nat)
    requires dst + 4 <= mem.Length == |was| && src + 4 <= mem.Length
    requires lo <= dst && lo + src >= dst && (dst <= src || src + 4 <= lo)
    requires Copied(mem, was, lo, dst, src - dst)
    modifies mem
    ensures Copied(mem, was, lo, dst + 4, src - dst)
  {
    mem[dst], mem[dst + 1], mem[dst + 2], mem[dst + 3] := mem[src], mem[src + 1], mem[src + 2], mem[src + 3];
  }

  /** The byte-by-byte head of memcpy: until the destination is aligned or nothing is left. */
  method CopyHead(mem: array<byte>, dst: nat, src: nat, n: nat, ghost was: bytes) returns (k: nat)
    requires |was| == mem.Length && dst + n <= mem.Length && src + n <= mem.Length
    requires dst <= src || src + n <= dst
    requires Copied(mem, was, dst, dst, src - dst)
    modifies mem
    ensures k <= n && Copied(mem, was, dst, dst + k, src - dst)
  {
    k := 0;
    while k != n && (dst + k) % 4 != 0
      invariant 0 <= k <= n
      invariant Copied(mem, was, dst, dst + k, src - dst)
    {
      MoveByte(mem, dst + k, src + k, was, dst);
      k := k + 1;
    }
  }

  /** `rep movsl`. */
  method CopyDwords(mem: array<byte>, dst: nat, src: nat, done: nat, count: nat, ghost was: bytes) returns (k: nat)
    requires |was| == mem.Length
    requires dst + done + 4 * count <= mem.Length && src + done + 4 * count <= mem.Length
    requires dst <= src || src + done + 4 * count <= dst
    requires Copied(mem, was, dst, dst + done, src - dst)
    modifies mem
    ensures k == done + 4 * count && Copied(mem, was, dst, dst + k, src - dst)
  {
    k := done;
    var ecx := count;
    while ecx != 0
      invariant 0 <= ecx && k + 4 * ecx == done + 4 * count
      invariant Copied(mem, was, dst, dst + k, src - dst)
    {
      MoveDword(mem, dst + k, src + k, was, dst);
      k, ecx := k + 4, ecx - 1;
    }
  }

  /** The byte-by-byte tail of memcpy. */
  method CopyTail(mem: array<byte>, dst: nat, src: nat, done: nat, n: nat, ghost was: bytes)
    requires |was| == mem.Length && dst + n <= mem.Length && src + n <= mem.Length && done <= n
    requires dst <= src || src + n <= dst
    requires Copied(mem, was, dst, dst + done, src - dst)
    modifies mem
    ensures Copied(mem, was, dst, dst + n, src - dst)
  {
    var k := done;
    while k != n
      invariant 0 <= k <= n
      invariant Copied(mem, was, dst, dst + k, src - dst)
    {
      MoveByte(mem, dst + k, src + k, was, dst);
      k := k + 1;
    }
  }

  /** `memcpy` copies upwards, so a source at or above the destination may overlap it. */
  method Memcpy(mem: array<byte>, dst: nat, src: nat, n: nat)
    requires dst + n <= mem.Length && src + n <= mem.Length
    requires dst <= src || src + n <= dst
    modifies mem
    ensures mem[..] == Moved(old(mem[..]), dst, src, n)
  {
    ghost var was := mem[..];
    var k := CopyHead(mem, dst, src, n, was);
    if k != n {
      var ecx := (n - k) / 4;
      k := CopyDwords(mem, dst, src, k, ecx, was);
      CopyTail(mem, dst, src, k, n, was);
    }
    CopiedIsMoved(mem, was, dst, src, n);
  }

  /** `memmove` picks its direction by comparing the addresses, so every overlap is allowed. */
  method Memmove(mem: array<byte>, dst: nat, src: nat, n: nat)
    requires dst + n <= mem.Length && src + n <= mem.Length
    modifies mem
    ensures mem[..] == Moved(old(mem[..]), dst, src, n)
  {
    ghost var was := mem[..];
    var edi, esi, ecx, step := dst, src, n, 1;
    if esi < edi {
      esi, edi, step := esi + ecx - 1, edi + ecx - 1, -1;
    }
    while ecx != 0
      invariant 0 <= ecx <= n && esi - edi == src - dst
      invariant if src < dst then step == -1 && edi == dst + ecx - 1 else step == 1 && edi == dst + n - ecx
      invariant src < dst ==> Copied(mem, was, dst + ecx, dst + n, src - dst)
      invariant src >= dst ==> Copied(mem, was, dst, dst + n - ecx, src - dst)
    {
      mem[edi] := mem[esi];
      edi, esi, ecx := edi + step, esi + step, ecx - 1;
    }
    CopiedIsMoved(mem, was, dst, src, n);
  }
}
