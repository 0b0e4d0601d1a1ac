/** ece391_execute's tokenizer, which cuts its buffer in place, and ece391_getargs, which joins the arguments again. */
module Emulator {
  import opened Bytes
  import opened EmulatorSpec

  const COMMAND_MAX := 1023
  const BUFFER_SIZE := 1026
  const ARGS_SIZE := 1024

  /** "./" */
  const HERE: bytes := [46, 47]

  /** The C string w stands at p. */
  ghost predicate StringAt(b: bytes, p: int, w: bytes) {
    0 <= p && p + |w| < |b| && b[p..p + |w|] == w && b[p + |w|] == NUL && NulFree(w)
  }

  /** The text not yet scanned: s, up to its terminator. */
  ghost predicate Unscanned(b: bytes, scan: nat, s: bytes) {
    scan + |s| < |b| && b[scan..scan + |s|] == s && b[scan + |s|] == NUL && NulFree(s)
  }

  /** Each of the pointers leads to its word, all before `limit`. */
  ghost predicate Cut(b: bytes, pointers: seq<int>, ws: seq<bytes>, limit: nat) {
    && |pointers| == |ws|
    && forall i {:trigger pointers[i]} :: 0 <= i < |ws| ==> StringAt(b, pointers[i], ws[i]) && pointers[i] + |ws[i]| < limit
  }

  lemma CutSurvives(b: bytes, c: bytes, pointers: seq<int>, ws: seq<bytes>, limit: nat)
    requires Cut(b, pointers, ws, limit) && limit <= |b| == |c| && b[..limit] == c[..limit]
    ensures Cut(c, pointers, ws, limit)
  {
    forall i {:trigger pointers[i]} | 0 <= i < |ws| ensures StringAt(c, pointers[i], ws[i]) {
      SamePrefix(b, c, limit, pointers[i], |ws[i]|);
    }
  }

  lemma SamePrefix(b: bytes, c: bytes, limit: nat, p: nat, n: nat)
    requires limit <= |b| == |c| && b[..limit] == c[..limit] && p + n < limit
    ensures b[p..p + n] == c[p..p + n] && b[p + n] == c[p + n]
  {
    assert forall k {:trigger b[k]} {:trigger c[k]} :: 0 <= k < limit ==> b[..limit][k] == b[k] && c[..limit][k] == c[k];
  }

  lemma CutMore(b: bytes, pointers: seq<int>, ws: seq<bytes>, limit: nat, more: nat)
    requires Cut(b, pointers, ws, limit) && limit <= more
    ensures Cut(b, pointers, ws, more)
  {
  }

  lemma CutOne(b: bytes, pointers: seq<int>, ws: seq<bytes>, limit: nat, p: int, w: bytes, more: nat)
    requires Cut(b, pointers, ws, limit) && limit <= more && StringAt(b, p, w) && p + |w| < more
    ensures Cut(b, pointers + [p], ws + [w], more)
  {
  }

  /** Up to a terminator, a space or a newline. */
  method ScanWord(buf: array<byte>, start: nat, ghost s: bytes) returns (scan: nat)
    requires Unscanned(buf[..], start, s)
    ensures scan == start + WordLength(s)
  {
    scan := start;
    ghost var n := 0;
    assert s[0..] == s;
    TextAt(buf[..], start, s, 0);
    while buf[scan] != NUL && buf[scan] != SPACE && buf[scan] != NEWLINE
      invariant n <= |s| && scan == start + n < buf.Length && WordLength(s) == n + WordLength(s[n..])
      invariant buf[scan] == if n < |s| then s[n] else NUL
      invariant n < |s| ==> s[n] != NUL
      decreases |s| - n
    {
      assert s[n..][1..] == s[n + 1..] && s[n..][0] == s[n];
      TextAt(buf[..], start, s, n + 1);
      scan, n := scan + 1, n + 1;
    }
  }

  method ScanSpaces(buf: array<byte>, start: nat, ghost s: bytes) returns (scan: nat)
    requires Unscanned(buf[..], start, s)
    ensures scan == start + SpaceCount(s)
  {
    hide SpaceCount;
    scan := start;
    ghost var b, n := buf[..], 0;
    assert s[0..] == s;
    TextAt(b, start, s, 0);
    SpaceCountFrom(s, 0);
    while buf[scan] == SPACE
      invariant n <= |s| && scan == start + n < buf.Length && SpaceCount(s) == n + SpaceCount(s[n..])
      invariant buf[scan] == if n < |s| then s[n] else NUL
      invariant SpaceCount(s[n..]) == if n < |s| && s[n] == SPACE then 1 + SpaceCount(s[n + 1..]) else 0
      decreases |s| - n
    {
      TextAt(b, start, s, n + 1);
      SpaceCountFrom(s, n + 1);
      scan, n := scan + 1, n + 1;
    }
  }

  lemma SpaceCountFrom(s: bytes, n: nat)
    requires n <= |s|
    ensures SpaceCount(s[n..]) == if n < |s| && s[n] == SPACE then 1 + SpaceCount(s[n + 1..]) else 0
  {
    if n < |s| {
      assert s[n..][1..] == s[n + 1..];
    }
  }

  /** The n-th character of the unscanned text, or its terminator. */
  lemma TextAt(b: bytes, scan: nat, s: bytes, n: nat)
    requires Unscanned(b, scan, s) && n <= |s|
    ensures b[scan + n] == if n < |s| then s[n] else NUL
    ensures n < |s| ==> s[n] != NUL
    ensures Unscanned(b, scan + n, s[n..])
  {
    if n < |s| {
      assert b[scan..scan + |s|][n] == s[n] && s[n] in s;
    }
    assert b[scan..scan + |s|][n..] == b[scan + n..scan + |s|];
    assert forall c :: c in s[n..] ==> c in s;
  }

  method Cutoff(buf: array<byte>, at: nat)
    requires at < buf.Length
    modifies buf
    ensures buf[..] == old(buf[..])[at := NUL]
  {
    buf[at] := NUL;
  }

  method Point(args: array<int>, n: nat, p: int)
    requires n < args.Length
    modifies args
    ensures args[..] == old(args[..])[n := p] && args[..n + 1] == old(args[..n]) + [p]
  {
    args[n] := p;
  }

  /** Cutting after a word: the word becomes a string, and what follows is still to be scanned. */
  lemma CutAfterWord(b: bytes, start: nat, s: bytes, n: nat)
    requires Unscanned(b, start, s) && n <= |s|
    ensures start + n < |b| && StringAt(b[start + n := NUL], start, s[..n])
    ensures n < |s| ==> Unscanned(b[start + n := NUL], start + n + 1, s[n + 1..])
  {
    var c := b[start + n := NUL];
    assert b[start..start + |s|][..n] == b[start..start + n] == c[start..start + n];
    assert forall x :: x in s[..n] ==> x in s;
    if n < |s| {
      TextAt(b, start, s, n + 1);
      assert c[start + n + 1..start + |s|] == b[start + n + 1..start + |s|];
    }
  }

  /** Strings already cut off end before this; the last may end where scanning stopped. */
  function Limit(scan: nat, s: bytes): nat {
    if s == [] then scan + 1 else scan
  }

  /** The words found so far and those still to find make up all of them. */
  ghost predicate Progress(b: bytes, pointers: seq<int>, all: seq<bytes>, scan: nat, s: bytes) {
    && Unscanned(b, scan, s) && |pointers| <= |all|
    && all == all[..|pointers|] + Args(s)
    && Cut(b, pointers, all[..|pointers|], Limit(scan, s))
  }

  /** One turn of the argument loop that finds a word. */
  method TakeWord(buf: array<byte>, args: array<int>, n: nat, start: nat, ghost all: seq<bytes>, ghost s: bytes)
    returns (scan: nat, ghost rest: bytes)
    requires buf.Length == BUFFER_SIZE && args.Length == ARGS_SIZE && n < ARGS_SIZE
    requires Progress(buf[..], args[..n], all, start, s)
    requires s != [] && s[0] != SPACE && s[0] != NEWLINE
    modifies buf, args
    ensures Progress(buf[..], args[..n + 1], all, scan, rest) && |rest| < |s|
  {
    hide Args, WordLength, Cut, StringAt;
    ghost var b := buf[..];
    Point(args, n, start);
    scan := ScanWord(buf, start, s);
    ghost var len := WordLength(s);
    TextAt(b, start, s, len);
    CutAfterWord(b, start, s, len);
    if buf[scan] != NUL {
      Cutoff(buf, scan);
      scan := scan + 1;
      rest := s[len + 1..];
    } else {
      rest := [];
      assert b[scan := NUL] == b;
    }
    assert Progress(buf[..], args[..n + 1], all, scan, rest) by {
      WordTaken(b, args[..n], all, start, s, buf[..], scan, rest);
    }
  }

  lemma WordTaken(b: bytes, pointers: seq<int>, all: seq<bytes>, start: nat, s: bytes, c: bytes, scan: nat, rest: bytes)
    requires Progress(b, pointers, all, start, s) && s != [] && s[0] != SPACE && s[0] != NEWLINE
    requires var n := WordLength(s);
      && start + n < |b| && c == b[start + n := NUL] && StringAt(c, start, s[..n]) && Unscanned(c, scan, rest)
      && (if n < |s| then scan == start + n + 1 && rest == s[n + 1..] else scan == start + n && rest == [])
    ensures Progress(c, pointers + [start], all, scan, rest) && |rest| < |s|
  {
    var n, m := WordLength(s), |pointers|;
    var w := s[..n];
    ArgsHead(s);
    assert b[..start] == c[..start];
    hide Args, WordLength, Cut, StringAt, Unscanned;
    MoveSplit(all, m, w, Args(rest));
    CutSurvives(b, c, pointers, all[..m], start);
    CutOne(c, pointers, all[..m], start, start, w, Limit(scan, rest));
  }

  lemma MoveSplit<T>(all: seq<T>, m: nat, w: T, rest: seq<T>)
    requires m <= |all| && all == all[..m] + ([w] + rest)
    ensures m < |all| && all[..m + 1] == all[..m] + [w] && all == all[..m + 1] + rest
  {
    assert all[m] == w;
  }

  lemma ArgsHead(s: bytes)
    requires s != [] && s[0] != SPACE && s[0] != NEWLINE
    ensures var n := WordLength(s);
      n > 0 && Args(s) == [s[..n]] + Args(if n < |s| then s[n + 1..] else [])
  {
    assert s[0..] == s;
    var n := WordLength(s);
    if n < |s| {
      assert s[n..][1..] == s[n + 1..];
    }
  }

  /** What the character at which scanning stands says. */
  lemma ProgressAt(b: bytes, pointers: seq<int>, all: seq<bytes>, scan: nat, s: bytes)
    requires Progress(b, pointers, all, scan, s)
    ensures Unscanned(b, scan, s) && scan < |b| && b[scan] == (if s == [] then NUL else s[0])
    ensures s != [] ==> b[scan] != NUL && (SpaceCount(s) == 0 ==> s[0] != SPACE)
    ensures s != [] && s[0] != SPACE && s[0] != NEWLINE ==> |pointers| < |all|
  {
    TextAt(b, scan, s, 0);
    if s != [] && s[0] != SPACE && s[0] != NEWLINE {
      ArgsHead(s);
    }
  }

  /** Skipping spaces keeps the progress. */
  lemma {:induction false} SpacesSkipped(b: bytes, pointers: seq<int>, all: seq<bytes>, scan: nat, s: bytes)
    requires Progress(b, pointers, all, scan, s)
    ensures Unscanned(b, scan, s)
    ensures var k := SpaceCount(s);
      && Progress(b, pointers, all, scan + k, s[k..])
      && SpaceCount(s[k..]) == 0 && Args(s[k..]) == Args(s)
  {
    var k := SpaceCount(s);
    ArgsSkipsSpaces(s);
    hide Args, Cut, SpaceCount;
    TextAt(b, scan, s, k);
    CutMore(b, pointers, all[..|pointers|], Limit(scan, s), Limit(scan + k, s[k..]));
  }

  lemma {:induction false} ArgsSkipsSpaces(s: bytes)
    ensures var k := SpaceCount(s); SpaceCount(s[k..]) == 0 && Args(s[k..]) == Args(s)
  {
    var k := SpaceCount(s);
    SpacesFirst(s);
    assert s[k..][0..] == s[k..];
  }

  /** The terminator written where scanning stops harms no word. */
  lemma ScanStops(b: bytes, pointers: seq<int>, all: seq<bytes>, scan: nat, s: bytes)
    requires Progress(b, pointers, all, scan, s) && (s == [] || s[0] == NEWLINE)
    ensures all == all[..|pointers|] && Cut(b[scan := NUL], pointers, all, |b|)
  {
    TextAt(b, scan, s, 0);
    var c := b[scan := NUL];
    assert Args(s) == [];
    assert b[..Limit(scan, s)] == c[..Limit(scan, s)];
    CutSurvives(b, c, pointers, all[..|pointers|], Limit(scan, s));
  }

  /** The argument loop. */
  method SplitArguments(buf: array<byte>, args: array<int>, start: nat, ghost all: seq<bytes>, ghost text: bytes)
    returns (n: nat)
    requires buf.Length == BUFFER_SIZE && args.Length == ARGS_SIZE && |all| < ARGS_SIZE
    requires Progress(buf[..], args[..1], all, start, text)
    modifies buf, args
    ensures n == |all| && Cut(buf[..], args[..n], all, BUFFER_SIZE)
  {
    hide Args, Cut, Progress, SpaceCount;
    n := 1;
    var scan := start;
    ghost var s := text;
    while true
      invariant 1 <= n <= ARGS_SIZE && Progress(buf[..], args[..n], all, scan, s)
      decreases |s|
    {
      SpacesSkipped(buf[..], args[..n], all, scan, s);
      scan := ScanSpaces(buf, scan, s);
      s := s[SpaceCount(s)..];
      ProgressAt(buf[..], args[..n], all, scan, s);
      if buf[scan] == NUL || buf[scan] == NEWLINE {
        ScanStops(buf[..], args[..n], all, scan, s);
        Cutoff(buf, scan);
        return;
      }
      scan, s := TakeWord(buf, args, n, scan, all, s);
      n := n + 1;
    }
  }

  /** "./" and what stands after it up to a terminator are one string. */
  lemma NameString(b: bytes, name: bytes)
    requires 2 <= |b| && b[..2] == HERE && StringAt(b, 2, name)
    ensures StringAt(b, 0, HERE + name)
  {
    assert b[0..2 + |name|] == b[..2] + b[2..2 + |name|];
    forall x | x in HERE + name ensures x != NUL {
      assert x in HERE || x in name;
    }
  }

  lemma NameAlone(b: bytes, command: bytes)
    requires 2 <= |b| && b[..2] == HERE && Unscanned(b, 2, command) && WordLength(command) == |command|
    ensures Cut(b, [0], [HERE + Name(command)], |b|) && ArgsOf(command) == []
  {
    assert command[..|command|] == command;
    NameString(b, command);
  }

  lemma NameCut(b: bytes, command: bytes)
    requires 2 <= |b| && b[..2] == HERE && Unscanned(b, 2, command) && WordLength(command) < |command|
    ensures var n := WordLength(command);
      Progress(b[2 + n := NUL], [0], [HERE + Name(command)] + ArgsOf(command), 2 + n + 1, command[n + 1..])
  {
    var n := WordLength(command);
    var c, name, rest := b[2 + n := NUL], Name(command), command[n + 1..];
    hide Args, ArgsOf, WordLength, StringAt;
    CutAfterWord(b, 2, command, n);
    RestOfCommand(command);
    assert c[..2] == b[..2];
    hide Unscanned;
    NameString(c, name);
    FirstOfAll(c, HERE + name, Args(rest), 2 + n + 1, rest);
  }

  lemma FirstOfAll(b: bytes, name: bytes, words: seq<bytes>, scan: nat, s: bytes)
    requires StringAt(b, 0, name) && |name| < scan && Unscanned(b, scan, s) && words == Args(s)
    ensures Progress(b, [0], [name] + words, scan, s)
  {
    hide Args, StringAt, Unscanned;
    var all := [name] + words;
    assert all[..1] == [name];
  }

  lemma RestOfCommand(command: bytes)
    requires WordLength(command) < |command|
    ensures ArgsOf(command) == Args(command[WordLength(command) + 1..])
  {
    hide Args, WordLength;
    assert command[WordLength(command)..][1..] == command[WordLength(command) + 1..];
  }

  /** The whole tokenizer on a buffer that holds "./" and the command. */
  method Split(buf: array<byte>, args: array<int>, ghost command: bytes) returns (n: nat)
    requires buf.Length == BUFFER_SIZE && args.Length == ARGS_SIZE && |command| <= COMMAND_MAX && NulFree(command)
    requires buf[..2] == HERE && Unscanned(buf[..], 2, command)
    modifies buf, args
    ensures n == 1 + |ArgsOf(command)| && n < ARGS_SIZE && args[n] == -1
    ensures Cut(buf[..], args[..n], [HERE + Name(command)] + ArgsOf(command), BUFFER_SIZE)
  {
    hide Args, Cut, Progress, ArgsOf;
    ghost var all := [HERE + Name(command)] + ArgsOf(command);
    ghost var b, len := buf[..], WordLength(command);
    var scan := ScanWord(buf, 2, command);
    TextAt(b, 2, command, len);
    Point(args, 0, 0);
    assert args[..1] == [0];
    n := 1;
    if buf[scan] != NUL {
      NameCut(b, command);
      Cutoff(buf, scan);
      n := SplitArguments(buf, args, scan + 1, all, command[len + 1..]);
    } else {
      NameAlone(b, command);
      assert all == [HERE + Name(command)];
    }
    ghost var pointers := args[..n];
    Point(args, n, -1);
    assert args[..n] == pointers;
  }

  /** ece391_strcpy to a place in the buffer. */
  method CopyString(buf: array<byte>, at: nat, s: bytes)
    requires at + |s| < buf.Length
    modifies buf
    ensures buf[..] == old(buf[..])[..at] + (s + [NUL]) + old(buf[..])[at + |s| + 1..]
  {
    ghost var was := buf[..];
    var i := 0;
    while i < |s|
      invariant 0 <= i <= |s|
      invariant forall k {:trigger buf[k]} :: 0 <= k < buf.Length ==>
        buf[k] == if at <= k < at + i then s[k - at] else was[k]
    {
      buf[at + i] := s[i];
      i := i + 1;
    }
    buf[at + i] := NUL;
    assert buf[..] == was[..at] + (s + [NUL]) + was[at + |s| + 1..];
  }

  /** ece391_execute up to the fork: a command over 1023 characters is refused, any other is cut into its words. */
  method Execute(command: bytes, buf: array<byte>, args: array<int>) returns (n: int)
    requires buf.Length == BUFFER_SIZE && args.Length == ARGS_SIZE && NulFree(command)
    modifies buf, args
    ensures |command| > COMMAND_MAX ==> n == -1 && buf[..] == old(buf[..]) && args[..] == old(args[..])
    ensures |command| <= COMMAND_MAX ==>
      && n == 1 + |ArgsOf(command)| && n < ARGS_SIZE && args[n] == -1
      && Cut(buf[..], args[..n], [HERE + Name(command)] + ArgsOf(command), BUFFER_SIZE)
  {
    hide ArgsOf, Cut;
    if COMMAND_MAX < |command| {
      return -1;
    }
    buf[0], buf[1] := HERE[0], HERE[1];
    assert buf[..2] == HERE;
    ghost var b := buf[..];
    CopyString(buf, 2, command);
    assert b[..2] == HERE && buf[..][..2] == b[..2] && buf[..][2..2 + |command|] == command;
    n := Split(buf, args, command);
  }

  // ---------- getargs ----------

  /** What stands before the next word: the words so far, joined, and a space. */
  function Before(ws: seq<bytes>, m: nat): bytes
    requires m <= |ws|
  {
    if m == 0 then [] else Join(ws[..m]) + [SPACE]
  }

  lemma NextJoined(ws: seq<bytes>, m: nat)
    requires m < |ws|
    ensures Join(ws[..m + 1]) == Before(ws, m) + ws[m]
  {
    assert ws[..m + 1][..m] == ws[..m];
  }

  /** The buffer starts with a text; the rest is as it was. */
  ghost predicate Holds(b: bytes, text: bytes, was: bytes) {
    |b| == |was| && |text| <= |was| && b == text + was[|text|..]
  }

  ghost predicate Ended(b: bytes, text: bytes, was: bytes) {
    |b| == |was| && |text| < |was| && b == text + [NUL] + was[|text| + 1..]
  }

  lemma WordDoesNotFit(b: bytes, was: bytes, ws: seq<bytes>, n: int, m: nat)
    requires m < |ws| && n < |was| && (m > 0 ==> |Before(ws, m)| <= n) && |Join(ws[..m + 1])| > n
    requires Holds(b, Before(ws, m), was)
    ensures b == Written(was, ws, n) && |Join(ws)| >= n
  {
    JoinGrows(ws, m + 1, |ws|);
    assert ws[..|ws|] == ws && ws[..0] == [];
    if n >= 0 {
      FitIs(ws, n, m, |ws|);
    }
  }

  lemma JustFits(b: bytes, was: bytes, ws: seq<bytes>, n: nat, k: nat)
    requires 0 < k <= |ws| && n < |was| && |Join(ws[..k])| == n && Ended(b, Join(ws[..k]), was)
    ensures b == Written(was, ws, n) && |Join(ws)| >= n
  {
    JoinGrows(ws, k, |ws|);
    assert ws[..|ws|] == ws;
    if k < |ws| {
      NextJoined(ws, k);
    }
    FitIs(ws, n, k, |ws|);
  }

  lemma AllFit(b: bytes, was: bytes, ws: seq<bytes>, n: nat)
    requires n < |was| && |Join(ws)| < n && Ended(b, Join(ws), was)
    ensures b == Written(was, ws, n)
  {
    assert ws[..|ws|] == ws;
    FitIs(ws, n, |ws|, |ws|);
  }

  lemma NothingFits(b: bytes, was: bytes, n: int)
    requires n < |was| && n < 1 && Holds(b, [], was)
    ensures b == Written(was, [], n)
  {
  }

  method CopyWord(buf: array<byte>, pos: nat, word: bytes, ghost was: bytes, ghost before: bytes)
    requires pos == |before| && pos + |word| < buf.Length && Holds(buf[..], before, was)
    modifies buf
    ensures Ended(buf[..], before + word, was)
  {
    CopyString(buf, pos, word);
    assert (before + was[pos..])[pos + |word| + 1..] == was[pos + |word| + 1..];
    assert before + (word + [NUL]) == before + word + [NUL];
  }

  method SpaceAfter(buf: array<byte>, pos: nat, ghost was: bytes, ghost text: bytes)
    requires pos == |text| && Ended(buf[..], text, was)
    modifies buf
    ensures Holds(buf[..], text + [SPACE], was)
  {
    buf[pos] := SPACE;
  }

  method EndText(buf: array<byte>, pos: nat, ghost was: bytes, ghost text: bytes)
    requires pos == |text| && pos < buf.Length && (Holds(buf[..], text, was) || Ended(buf[..], text, was))
    modifies buf
    ensures Ended(buf[..], text, was)
  {
    buf[pos] := NUL;
  }

  /** One word of the loop: refused when it is longer than the room left. */
  method PutWord(
      buf: array<byte>, at: nat, room: int, word: bytes, ghost was: bytes, ghost ws: seq<bytes>, ghost m: nat, ghost n: int)
    returns (ok: bool, pos: nat, left: int)
    requires m < |ws| && word == ws[m] && n < buf.Length && Holds(buf[..], Before(ws, m), was)
    requires at == |Before(ws, m)| && room == n - at && (m > 0 ==> room >= 0)
    modifies buf
    ensures |was| == buf.Length
    ensures !ok ==> buf[..] == Written(was, ws, n) && |Join(ws)| >= n
    ensures ok ==> left == n - pos && left >= 0 && pos == |Join(ws[..m + 1])| && Ended(buf[..], Join(ws[..m + 1]), was)
  {
    NextJoined(ws, m);
    ok, pos, left := false, at, room;
    if |word| > left {
      WordDoesNotFit(buf[..], was, ws, n, m);
    } else {
      hide Join, Before;
      CopyWord(buf, pos, word, was, Before(ws, m));
      ok, pos, left := true, pos + |word|, left - |word|;
    }
  }

  /** The space after a word that is not the last: refused when there is no room. */
  method PutSpace(buf: array<byte>, at: nat, room: int, ghost was: bytes, ghost ws: seq<bytes>, ghost k: nat, ghost n: int)
    returns (ok: bool, pos: nat, left: int)
    requires 0 < k < |ws| && n < buf.Length && at == |Join(ws[..k])| && room == n - at >= 0
    requires Ended(buf[..], Join(ws[..k]), was)
    modifies buf
    ensures |was| == buf.Length
    ensures !ok ==> buf[..] == Written(was, ws, n) && |Join(ws)| >= n
    ensures ok ==> left == n - pos && left >= 0 && pos == |Before(ws, k)| && Holds(buf[..], Before(ws, k), was)
  {
    ok, pos, left := false, at, room;
    if left < 1 {
      JustFits(buf[..], was, ws, n, k);
    } else {
      SpaceAfter(buf, pos, was, Join(ws[..k]));
      ok, pos, left := true, pos + 1, left - 1;
    }
  }

  /** What getargs is asked to pass on: every argument but the program's own name. */
  function Passed(argv: seq<bytes>): (ws: seq<bytes>)
    ensures argv != [] ==> |ws| == |argv| - 1
    ensures forall i {:trigger argv[i]} :: 1 <= i < |argv| ==> argv[i] == ws[i - 1]
  {
    if argv == [] then [] else argv[1..]
  }

  /**
   ece391_getargs: it succeeds exactly when the joined words and a NUL fit. The buffer needs one byte more than
   nbytes, because a word that just fills the room is copied with its terminator.
   */
  method GetArgs(argv: seq<bytes>, buf: array<byte>, nbytes: int) returns (r: int)
    requires nbytes < buf.Length && 0 < buf.Length
    modifies buf
    ensures buf[..] == Written(old(buf[..]), Passed(argv), nbytes)
    ensures r == if |Join(Passed(argv))| < nbytes then 0 else -1
  {
    ghost var ws := Passed(argv);
    ghost var was := buf[..];
    assert Join([]) == [] && Before(ws, 0) == [] && Holds(buf[..], [], was);
    assert argv == [] ==> ws == [];
    hide Join, Written, Before, Holds, Ended, Passed;
    var idx, pos, left := 1, 0, nbytes;
    while idx < |argv|
      invariant 1 <= idx && (idx == 1 || idx < |argv|) && idx - 1 <= |ws|
      invariant Holds(buf[..], Before(ws, idx - 1), was)
      invariant pos == |Before(ws, idx - 1)| && left == nbytes - pos && (idx > 1 ==> left >= 0)
    {
      var ok;
      ok, pos, left := PutWord(buf, pos, left, argv[idx], was, ws, idx - 1, nbytes);
      if !ok {
        return -1;
      }
      idx := idx + 1;
      if idx >= |argv| {
        assert ws[..idx - 1] == ws;
        break;
      }
      ok, pos, left := PutSpace(buf, pos, left, was, ws, idx - 1, nbytes);
      if !ok {
        return -1;
      }
    }
    r := Finish(buf, pos, left, was, ws, nbytes);
  }

  /** The end of getargs: the terminator, if there is room for it. */
  method Finish(buf: array<byte>, pos: nat, left: int, ghost was: bytes, ghost ws: seq<bytes>, ghost n: int) returns (r: int)
    requires pos == |Join(ws)| && left == n - pos && n < buf.Length && (ws != [] ==> left >= 0)
    requires if ws == [] then Holds(buf[..], [], was) else Ended(buf[..], Join(ws), was)
    modifies buf
    ensures |was| == buf.Length && buf[..] == Written(was, ws, n) && r == if |Join(ws)| < n then 0 else -1
  {
    assert Join([]) == [];
    hide Join, Written, Holds, Ended;
    assert ws[..|ws|] == ws;
    if left < 1 {
      if ws != [] {
        JustFits(buf[..], was, ws, n, |ws|);
      } else {
        NothingFits(buf[..], was, n);
      }
      return -1;
    }
    EndText(buf, pos, was, Join(ws));
    AllFit(buf[..], was, ws, n);
    r := 0;
  }
}
