/** itoa and strrev of lib.c (and ece391support.c), and the number formats of printf that use them. */
module Numerals {
  import opened Bytes

  const U32 := 0x1_0000_0000
  const ZERO: byte := 48
  const MINUS: byte := 45

  /** The lookup table "0123456789ABCDEFGHIJKLMNOPQRSTUVWXYZ". */
  function Digit(d: nat): byte
    requires d < 36
  {
    if d < 10 then ZERO + d else 55 + d
  }

  predicate IsDigit(c: byte, radix: nat) {
    exists d: nat :: d < radix && d < 36 && Digit(d) == c
  }

  function DigitValue(c: byte): nat {
    if ZERO <= c < ZERO + 10 then c - ZERO else if 65 <= c < 91 then c - 55 else 0
  }

  lemma DigitsAreDistinct(d: nat)
    requires d < 36
    ensures DigitValue(Digit(d)) == d && (Digit(d) == ZERO <==> d == 0) && Digit(d) != NUL && Digit(d) != MINUS
  {
  }

  /** A number moved one place to the left. */
  function Shift(q: nat, radix: nat): nat {
    q * radix
  }

  /** The number written with the given digits, highest first. */
  function ValueOf(s: bytes, radix: nat): nat {
    if s == [] then 0 else Shift(ValueOf(s[..|s| - 1], radix), radix) + DigitValue(s[|s| - 1])
  }

  predicate Radix(radix: int) {
    2 <= radix <= 36
  }

  lemma {:induction false} MulMonotone(a: nat, b: nat, c: nat)
    requires a <= b
    ensures a * c <= b * c && c * a <= c * b
  {
    if a < b {
      MulMonotone(a, b - 1, c);
      assert b * c == (b - 1) * c + c;
    }
    assert a * c == c * a && b * c == c * b;
  }

  lemma DivMod(v: nat, radix: nat)
    requires radix > 0
    ensures 0 <= v / radix && v == Shift(v / radix, radix) + v % radix && v % radix < radix
  {
  }

  lemma QuotientIsSmaller(v: nat, radix: nat)
    requires Radix(radix) && v >= radix
    ensures 0 < v / radix < v
  {
    var q := v / radix;
    DivMod(v, radix);
    MulMonotone(2, radix, q);
    assert q != 0 by {
      assert Shift(0, radix) == 0;
    }
  }

  /** The numeral of v, highest digit first. */
  function Numeral(v: nat, radix: nat): (s: bytes)
    requires Radix(radix)
    ensures s != []
  {
    if v < radix then [Digit(v)]
    else
      QuotientIsSmaller(v, radix);
      Numeral(v / radix, radix) + [Digit(v % radix)]
  }

  predicate IsNumeral(s: bytes, radix: nat) {
    s != [] && (forall i {:trigger s[i]} :: 0 <= i < |s| ==> IsDigit(s[i], radix)) && (|s| > 1 ==> s[0] != ZERO)
  }

  /** Reading a numeral back gives the number. */
  lemma {:induction false} NumeralReadsBack(v: nat, radix: nat)
    requires Radix(radix)
    ensures ValueOf(Numeral(v, radix), radix) == v
    decreases v
  {
    hide Digit, DigitValue, ValueOf, Shift, Numeral;
    if v < radix {
      SmallNumeral(v, radix);
      DigitsAreDistinct(v);
      OneDigit(Digit(v), radix);
    } else {
      QuotientIsSmaller(v, radix);
      DivMod(v, radix);
      NumeralMore(v, radix);
      DigitsAreDistinct(v % radix);
      NumeralReadsBack(v / radix, radix);
      ValueOfMore(Numeral(v / radix, radix), Digit(v % radix), radix);
    }
  }

  lemma OneDigit(c: byte, radix: nat)
    ensures ValueOf([c], radix) == DigitValue(c)
  {
    assert [c][..0] == [] && ValueOf([], radix) == 0;
  }

  lemma ValueOfMore(s: bytes, c: byte, radix: nat)
    ensures ValueOf(s + [c], radix) == Shift(ValueOf(s, radix), radix) + DigitValue(c)
  {
    assert (s + [c])[..|s|] == s;
  }

  /** A numeral has digits of the radix only, and no leading zero unless it is "0". */
  lemma {:induction false} NumeralIsProper(v: nat, radix: nat)
    requires Radix(radix)
    ensures IsNumeral(Numeral(v, radix), radix) && (Numeral(v, radix)[0] == ZERO <==> v == 0)
    decreases v
  {
    if v < radix {
      DigitsAreDistinct(v);
    } else {
      QuotientIsSmaller(v, radix);
      NumeralIsProper(v / radix, radix);
      assert IsDigit(Digit(v % radix), radix);
    }
  }


  lemma DivideBack(q: nat, d: nat, radix: nat)
    requires d < radix
    ensures (Shift(q, radix) + d) / radix == q && (Shift(q, radix) + d) % radix == d
    ensures q > 0 ==> Shift(q, radix) >= radix
  {
    var v := q * radix + d;
    DivMod(v, radix);
    if v / radix < q {
      MulMonotone(v / radix + 1, q, radix);
    } else if v / radix > q {
      MulMonotone(q + 1, v / radix, radix);
    }
    if q > 0 {
      MulMonotone(1, q, radix);
    }
  }

  lemma SmallNumeral(d: nat, radix: nat)
    requires Radix(radix) && d < radix
    ensures Numeral(d, radix) == [Digit(d)]
  {
  }

  lemma NumeralMore(v: nat, radix: nat)
    requires Radix(radix) && v >= radix
    ensures 0 <= v / radix && Numeral(v, radix) == Numeral(v / radix, radix) + [Digit(v % radix)]
  {
    QuotientIsSmaller(v, radix);
  }

  lemma NumeralParts(s: bytes, radix: nat)
    requires IsNumeral(s, radix)
    ensures |s| > 1 ==> IsNumeral(s[..|s| - 1], radix) && s[..|s| - 1][0] == s[0] != ZERO
  {
    var init := s[..|s| - 1];
    assert forall i {:trigger init[i]} :: 0 <= i < |init| ==> init[i] == s[i];
    hide IsDigit;
  }

  /** Two ways of writing a number do not exist: any string of digits without a leading zero is the numeral of its value. */
  lemma {:induction false} NumeralIsUnique(s: bytes, radix: nat)
    requires Radix(radix) && IsNumeral(s, radix)
    ensures Numeral(ValueOf(s, radix), radix) == s && (s[0] != ZERO ==> ValueOf(s, radix) > 0)
    decreases |s|
  {
    var init, c := s[..|s| - 1], s[|s| - 1];
    assert IsDigit(c, radix);
    var d: nat :| d < radix && d < 36 && Digit(d) == c;
    DigitsAreDistinct(d);
    assert s == init + [c];
    hide Digit, DigitValue, ValueOf, Numeral, Shift, IsDigit, IsNumeral;
    NumeralParts(s, radix);
    if init == [] {
      OneDigit(c, radix);
      SmallNumeral(d, radix);
    } else {
      ValueOfMore(init, c, radix);
      NumeralIsUnique(init, radix);
      var q := ValueOf(init, radix);
      DivideBack(q, d, radix);
      NumeralMore(Shift(q, radix) + d, radix);
    }
  }

  // ---------- lengths ----------

  function Power(radix: nat, k: nat): nat {
    if k == 0 then 1 else Power(radix, k - 1) * radix
  }

  lemma {:induction false} NumeralLength(v: nat, radix: nat, k: nat)
    requires Radix(radix) && k > 0 && v < Power(radix, k)
    ensures |Numeral(v, radix)| <= k
    decreases k
  {
    if k == 1 {
      assert Power(radix, 0) == 1;
    } else if v >= radix {
      QuotientIsSmaller(v, radix);
      assert v == v / radix * radix + v % radix;
      if v / radix >= Power(radix, k - 1) {
        MulMonotone(Power(radix, k - 1), v / radix, radix);
      }
      NumeralLength(v / radix, radix, k - 1);
    }
  }

  lemma {:induction false} PowerGrows(radix: nat, k: nat)
    requires radix >= 2
    ensures Power(2, k) <= Power(radix, k)
  {
    if k > 0 {
      PowerGrows(radix, k - 1);
      MulMonotone(Power(2, k - 1), Power(radix, k - 1), 2);
      MulMonotone(2, radix, Power(radix, k - 1));
    }
  }

  lemma FourMore(k: nat)
    ensures Power(2, k + 4) == Power(2, k) * 16
  {
    assert Power(2, k + 2) == Power(2, k) * 4 && Power(2, k + 4) == Power(2, k + 2) * 4;
  }

  lemma TwoToTheThirtyTwo()
    ensures Power(2, 32) == U32
  {
    assert Power(2, 0) == 1;
    FourMore(0);
    FourMore(4);
    FourMore(8);
    FourMore(12);
    FourMore(16);
    FourMore(20);
    FourMore(24);
    FourMore(28);
  }

  /** No 32-bit value has more than 32 digits in any radix. */
  lemma {:induction false} NoMoreThan32Digits(v: nat, radix: nat)
    requires Radix(radix) && v < U32
    ensures |Numeral(v, radix)| <= 32
  {
    TwoToTheThirtyTwo();
    PowerGrows(radix, 32);
    NumeralLength(v, radix, 32);
  }

  lemma HexHasEightDigits()
    ensures Power(16, 8) == U32
  {
    assert Power(16, 4) == 0x1_0000;
  }

  lemma {:induction false} LeadingZeros(k: nat, s: bytes, radix: nat)
    ensures ValueOf(Repeat(ZERO, k) + s, radix) == ValueOf(s, radix)
    decreases |s| + k
  {
    var t := Repeat(ZERO, k) + s;
    if s != [] {
      assert t[..|t| - 1] == Repeat(ZERO, k) + s[..|s| - 1];
      LeadingZeros(k, s[..|s| - 1], radix);
    } else if k > 0 {
      assert t[..|t| - 1] == Repeat(ZERO, k - 1) + [];
      LeadingZeros(k - 1, [], radix);
    } else {
      assert t == [];
    }
  }

  // ---------- reversal ----------

  function Reversed(s: bytes): (r: bytes)
    ensures |r| == |s| && forall i {:trigger r[i]} :: 0 <= i < |s| ==> r[i] == s[|s| - 1 - i]
  {
    seq(|s|, i requires 0 <= i < |s| => s[|s| - 1 - i])
  }

  /** The digits in the order in which they are found: lowest first. */
  function LowFirst(v: nat, radix: nat): bytes
    requires Radix(radix)
  {
    if v == 0 then []
    else if v < radix then [Digit(v)]
    else
      QuotientIsSmaller(v, radix);
      [Digit(v % radix)] + LowFirst(v / radix, radix)
  }

  lemma {:induction false} LowFirstIsReversed(v: nat, radix: nat)
    requires Radix(radix) && v > 0
    ensures Reversed(LowFirst(v, radix)) == Numeral(v, radix)
    decreases v
  {
    if v >= radix {
      QuotientIsSmaller(v, radix);
      LowFirstIsReversed(v / radix, radix);
      var rest := LowFirst(v / radix, radix);
      assert Reversed([Digit(v % radix)] + rest) == Reversed(rest) + [Digit(v % radix)];
    }
  }

  lemma DigitStep(v: nat, radix: nat)
    requires Radix(radix) && v > 0
    ensures 0 <= v / radix < v
    ensures LowFirst(v, radix) == [DigitChar(v, radix)] + LowFirst(v / radix, radix)
  {
    if v >= radix {
      QuotientIsSmaller(v, radix);
    } else {
      DivideBack(0, v, radix);
    }
  }

  lemma {:induction false} LowFirstIsNulFree(v: nat, radix: nat)
    requires Radix(radix)
    ensures NulFree(LowFirst(v, radix))
    decreases v
  {
    if v >= radix {
      QuotientIsSmaller(v, radix);
      LowFirstIsNulFree(v / radix, radix);
    }
  }

  // ---------- the code ----------

  /** A string stands at `at` in the buffer, and the rest is as it was. */
  ghost predicate Put(b: bytes, was: bytes, at: nat, s: bytes) {
    at + |s| < |was| == |b| && b == was[..at] + (s + [NUL]) + was[at + |s| + 1..] && NulFree(s)
  }

  method Strlen(buf: array<byte>, at: nat, ghost s: bytes) returns (n: nat)
    requires at + |s| < buf.Length && buf[at..at + |s|] == s && buf[at + |s|] == NUL && NulFree(s)
    ensures n == |s|
  {
    n := 0;
    assert 0 < |s| ==> buf[at] == buf[at..at + |s|][0] && s[0] in s;
    while buf[at + n] != NUL
      invariant n <= |s| && (n < |s| ==> buf[at + n] != NUL)
      decreases |s| - n
    {
      n := n + 1;
      assert n < |s| ==> buf[at + n] == buf[at..at + |s|][n] && s[n] in s;
    }
  }

  method Store(buf: array<byte>, i: nat, c: byte)
    requires i < buf.Length
    modifies buf
    ensures buf[..] == old(buf[..])[i := c]
  {
    buf[i] := c;
  }

  /** The first and the last `beg` of the n bytes at `at` have been exchanged. */
  ghost predicate Exchanged(b: bytes, was: bytes, at: nat, n: nat, beg: nat) {
    && |b| == |was| && at + n <= |was| && beg <= n
    && forall i {:trigger b[i]} :: 0 <= i < |b| ==>
      b[i] == if at <= i < at + beg || at + n - beg <= i < at + n then was[2 * at + n - 1 - i] else was[i]
  }

  lemma ExchangeOne(b: bytes, was: bytes, at: nat, n: nat, beg: nat)
    requires Exchanged(b, was, at, n, beg) && 2 * beg + 1 < n
    ensures var end := n - 1 - beg;
      Exchanged(b[at + end := b[at + beg]][at + beg := b[at + end]], was, at, n, beg + 1)
  {
  }

  lemma ExchangedAll(b: bytes, was: bytes, at: nat, n: nat, beg: nat)
    requires Exchanged(b, was, at, n, beg) && n <= 2 * beg + 1 && 2 * beg <= n + 1
    ensures b == was[..at] + Reversed(was[at..at + n]) + was[at + n..]
  {
    var s := was[at..at + n];
    forall i | 0 <= i < |b| ensures b[i] == (was[..at] + Reversed(s) + was[at + n..])[i] {
      if at <= i < at + n {
        assert Reversed(s)[i - at] == s[n - 1 - (i - at)] == was[2 * at + n - 1 - i];
      }
    }
  }

  /** strrev: the string is reversed where it stands. */
  method Strrev(buf: array<byte>, at: nat, ghost s: bytes)
    requires at + |s| < buf.Length && buf[at..at + |s|] == s && buf[at + |s|] == NUL && NulFree(s)
    modifies buf
    ensures buf[..] == old(buf[..])[..at] + Reversed(s) + old(buf[..])[at + |s|..]
  {
    ghost var was := buf[..];
    var n := Strlen(buf, at, s);
    var beg: int, end: int := 0, n - 1;
    assert Exchanged(was, was, at, n, 0);
    hide Exchanged;
    while beg < end
      invariant 0 <= beg && end == n - 1 - beg && 2 * beg <= n + 1 && Exchanged(buf[..], was, at, n, beg)
    {
      ExchangeOne(buf[..], was, at, n, beg);
      var tmp := buf[at + end];
      Store(buf, at + end, buf[at + beg]);
      Store(buf, at + beg, tmp);
      beg, end := beg + 1, end - 1;
    }
    ExchangedAll(buf[..], was, at, n, beg);
    assert was[at..at + n] == s;
  }

  /** itoa: the numeral of the value and a NUL. */
  method Itoa(value: nat, buf: array<byte>, at: nat, radix: nat)
    requires value < U32 && Radix(radix) && at + |Numeral(value, radix)| < buf.Length
    modifies buf
    ensures Put(buf[..], old(buf[..]), at, Numeral(value, radix))
  {
    ghost var was := buf[..];
    if value == 0 {
      Store(buf, at, ZERO);
      Store(buf, at + 1, NUL);
      assert Put(buf[..], was, at, [ZERO]);
      return;
    }
    ghost var low := LowFirst(value, radix);
    LowFirstIsReversed(value, radix);
    LowFirstIsNulFree(value, radix);
    hide LowFirst, Numeral, Put, Digit;
    var newbuf := WriteDigits(value, buf, at, radix);
    AppendOne(was, at, low, NUL);
    Store(buf, newbuf, NUL);
    ghost var b := buf[..];
    StringIsThere(b, was, at, low);
    Strrev(buf, at, low);
    ReversedIsPut(b, was, at, low);
  }

  /** The loop of itoa: the digits from the lowest place to the highest. */
  method WriteDigits(value: nat, buf: array<byte>, at: nat, radix: nat) returns (newbuf: nat)
    requires Radix(radix) && at + |LowFirst(value, radix)| < buf.Length
    modifies buf
    ensures newbuf == at + |LowFirst(value, radix)|
    ensures buf[..] == old(buf[..])[..at] + LowFirst(value, radix) + old(buf[..])[newbuf..]
  {
    hide LowFirst, DigitChar;
    ghost var was := buf[..];
    ghost var low := LowFirst(value, radix);
    var newval: nat := value;
    newbuf := at;
    ghost var done: bytes := [];
    assert [] + low == low && Written(was, was, at, []);
    hide Written, Radix;
    while newval > 0
      invariant newbuf == at + |done| && done + LowFirst(newval, radix) == low && radix != 0
      invariant Written(buf[..], was, at, done)
      decreases newval
    {
      var c, quotient := DigitChar(newval, radix), newval / radix;
      DigitStep(newval, radix);
      Reassociate(done, c, LowFirst(quotient, radix));
      WriteOne(buf, newbuf, c, was, at, done);
      newbuf, done, newval := newbuf + 1, done + [c], quotient;
    }
    NoMoreDigits(radix);
    assert done == low;
    WrittenMeans(buf[..], was, at, low);
  }

  /** The text written from `at` on so far. */
  ghost predicate Written(b: bytes, was: bytes, at: nat, text: bytes) {
    at + |text| <= |was| == |b| && b == was[..at] + text + was[at + |text|..]
  }

  lemma WrittenMeans(b: bytes, was: bytes, at: nat, text: bytes)
    requires Written(b, was, at, text)
    ensures at + |text| <= |was| && b == was[..at] + text + was[at + |text|..]
  {
  }

  method WriteOne(buf: array<byte>, newbuf: nat, c: byte, ghost was: bytes, ghost at: nat, ghost text: bytes)
    requires newbuf == at + |text| && newbuf < buf.Length && Written(buf[..], was, at, text)
    modifies buf
    ensures Written(buf[..], was, at, text + [c])
  {
    AppendOne(was, at, text, c);
    Store(buf, newbuf, c);
  }

  lemma Reassociate(done: bytes, c: byte, rest: bytes)
    ensures done + ([c] + rest) == (done + [c]) + rest && |done + ([c] + rest)| == |done| + 1 + |rest|
  {
  }

  function DigitChar(v: nat, radix: nat): (c: byte)
    requires Radix(radix)
  {
    Digit(v % radix)
  }

  lemma NoMoreDigits(radix: nat)
    requires Radix(radix)
    ensures LowFirst(0, radix) == []
  {
  }

  lemma AppendOne(was: bytes, at: nat, done: bytes, c: byte)
    requires at + |done| < |was|
    ensures (was[..at] + done + was[at + |done|..])[at + |done| := c] == was[..at] + (done + [c]) + was[at + |done| + 1..]
  {
  }

  lemma StringIsThere(b: bytes, was: bytes, at: nat, s: bytes)
    requires at + |s| < |was| && b == was[..at] + (s + [NUL]) + was[at + |s| + 1..]
    ensures |b| == |was| && b[at..at + |s|] == s && b[at + |s|] == NUL
  {
  }

  lemma ReversedIsPut(b: bytes, was: bytes, at: nat, s: bytes)
    requires at + |s| < |was| && b == was[..at] + (s + [NUL]) + was[at + |s| + 1..] && NulFree(s)
    ensures at + |s| <= |b| && Put(b[..at] + Reversed(s) + b[at + |s|..], was, at, Reversed(s))
  {
    var r := Reversed(s);
    assert b[..at] == was[..at] && b[at + |s|..] == [NUL] + was[at + |s| + 1..];
    forall i | 0 <= i < |r| ensures r[i] != NUL {
      assert s[|s| - 1 - i] in s;
    }
  }

  // ---------- the number formats of printf ----------

  /** puts from `at` on: the characters before the first NUL. */
  method StringFrom(buf: array<byte>, at: nat, ghost s: bytes) returns (out: bytes)
    requires at + |s| < buf.Length && buf[at..at + |s|] == s && buf[at + |s|] == NUL && NulFree(s)
    ensures out == s
  {
    var n := Strlen(buf, at, s);
    out := buf[at..at + n];
  }

  method PutNumeral(buf: array<byte>, at: nat, value: nat, radix: nat, ghost k: nat)
    requires value < U32 && Radix(radix) && k > 0 && U32 <= Power(radix, k) && at + k < buf.Length
    modifies buf
    ensures var s := Numeral(value, radix);
      && |s| <= k && NulFree(s) && buf[at..at + |s|] == s && buf[at + |s|] == NUL
      && buf[..at] == old(buf[..at])
  {
    NumeralLength(value, radix, k);
    ghost var was := buf[..];
    Itoa(value, buf, at, radix);
    hide Numeral;
    StringIsThere(buf[..], was, at, Numeral(value, radix));
  }

  /** `%x`: the numeral; `%#x`: always eight digits, padded with zeros, of the same value. */
  method FormatHex(value: nat, alternate: bool) returns (out: bytes)
    requires value < U32
    ensures ValueOf(out, 16) == value && |Numeral(value, 16)| <= 8
    ensures !alternate ==> out == Numeral(value, 16)
    ensures alternate ==> |out| == 8 && out == Repeat(ZERO, 8 - |Numeral(value, 16)|) + Numeral(value, 16)
  {
    hide Numeral, ValueOf, Power;
    HexHasEightDigits();
    NumeralReadsBack(value, 16);
    ghost var s := Numeral(value, 16);
    var buf := new byte[64];
    if !alternate {
      PutNumeral(buf, 0, value, 16, 8);
      out := StringFrom(buf, 0, s);
    } else {
      PutNumeral(buf, 8, value, 16, 8);
      var startingIndex := Strlen(buf, 8, s);
      ghost var b := buf[..];
      PadZeros(buf, startingIndex);
      LeadingZeros(8 - |s|, s, 16);
      PaddedString(b, s);
      out := StringFrom(buf, startingIndex, Repeat(ZERO, 8 - |s|) + s);
    }
  }

  /** The padding loop of `%#x`. */
  method PadZeros(buf: array<byte>, start: nat)
    requires start <= 8 < buf.Length
    modifies buf
    ensures buf[..] == old(buf[..])[..start] + Repeat(ZERO, 8 - start) + old(buf[..])[8..]
  {
    var i := start;
    while i < 8
      invariant start <= i <= 8
      invariant forall k {:trigger buf[k]} :: 0 <= k < buf.Length ==> buf[k] == if start <= k < i then ZERO else old(buf[k])
    {
      buf[i] := ZERO;
      i := i + 1;
    }
  }

  lemma PaddedString(b: bytes, s: bytes)
    requires |s| <= 8 && 8 + |s| < |b| && b[8..8 + |s|] == s && b[8 + |s|] == NUL && NulFree(s)
    ensures var c, t := b[..|s|] + Repeat(ZERO, 8 - |s|) + b[8..], Repeat(ZERO, 8 - |s|) + s;
      |s| + |t| < |c| && c[|s|..|s| + |t|] == t && c[|s| + |t|] == NUL && NulFree(t)
  {
    var t := Repeat(ZERO, 8 - |s|) + s;
    forall i | 0 <= i < |t| ensures t[i] != NUL {
      if i >= 8 - |s| {
        assert t[i] in s;
      }
    }
  }

  /** What a signed numeral says. */
  function SignedValue(s: bytes): int {
    if s != [] && s[0] == MINUS then 0 - ValueOf(s[1..], 10) else ValueOf(s, 10)
  }

  lemma DecimalHasTenDigits()
    ensures U32 <= Power(10, 10)
  {
    assert Power(10, 5) == 10_0000;
  }

  /** The text that `%d` puts out for a value. */
  function Signed(value: int): bytes {
    if value < 0 then [MINUS] + Numeral(-value, 10) else Numeral(value, 10)
  }

  /** A signed numeral reads back as its value. */
  lemma SignedReadsBack(value: int)
    ensures SignedValue(Signed(value)) == value
  {
    var magnitude := if value < 0 then -value else value;
    NumeralReadsBack(magnitude, 10);
    NumeralIsProper(magnitude, 10);
    hide Numeral, ValueOf;
    var s := Numeral(magnitude, 10);
    if value < 0 {
      assert ([MINUS] + s)[1..] == s;
    } else {
      NotMinus(s[0], 10);
    }
  }

  /** It is a minus sign, for negative values only, and a numeral without a leading zero. */
  lemma SignedIsProper(value: int)
    ensures var s := Signed(value);
      if value < 0 then s[0] == 45 && IsNumeral(s[1..], 10) && s[1] != 48 else IsNumeral(s, 10)
  {
    var magnitude := if value < 0 then -value else value;
    NumeralIsProper(magnitude, 10);
    NumeralReadsBack(magnitude, 10);
    var s := Numeral(magnitude, 10);
    hide Numeral;
    assert ([MINUS] + s)[1..] == s;
    if value < 0 && |s| == 1 {
      assert ValueOf(s, 10) == Shift(ValueOf(s[..0], 10), 10) + DigitValue(s[0]);
      assert s[..0] == [] && ValueOf([], 10) == 0;
    }
  }

  /** 0xCAFE, for the digits above nine. */
  lemma HexExample()
    ensures Numeral(0xCAFE, 16) == [67, 65, 70, 69]
  {
    assert Numeral(0xC, 16) == [67] && Numeral(0xCA, 16) == [67] + [65] && Numeral(0xCAF, 16) == [67, 65] + [70];
  }

  lemma NotMinus(c: byte, radix: nat)
    requires IsDigit(c, radix)
    ensures c != MINUS
  {
  }

  /** `%d`: the lowest value wraps to itself when it is negated, and is still printed right. */
  method FormatSigned(value: int) returns (out: bytes)
    requires -0x8000_0000 <= value < 0x8000_0000
    ensures out == Signed(value)
  {
    hide Numeral, Power;
    DecimalHasTenDigits();
    var buf := new byte[36];
    if value < 0 {
      var magnitude := -value % U32;
      ghost var s := Numeral(magnitude, 10);
      buf[0] := MINUS;
      PutNumeral(buf, 1, magnitude, 10, 10);
      assert buf[..1] == [MINUS] && buf[0..1 + |s|] == buf[..1] + buf[1..1 + |s|];
      out := StringFrom(buf, 0, [MINUS] + s);
    } else {
      PutNumeral(buf, 0, value, 10, 10);
      out := StringFrom(buf, 0, Numeral(value, 10));
    }
  }
}
