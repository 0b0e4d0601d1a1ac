/** The argument words of a command under the emulator of ece391emulate.c, and their joined form. */
module EmulatorSpec {
  import opened Bytes

  /** How many characters come before the first space or newline. */
  function WordLength(s: bytes): (n: nat)
    ensures n <= |s|
  {
    if s == [] || s[0] == SPACE || s[0] == NEWLINE then 0 else 1 + WordLength(s[1..])
  }

  function SpaceCount(s: bytes): (n: nat)
    ensures n <= |s|
  {
    if s == [] || s[0] != SPACE then 0 else 1 + SpaceCount(s[1..])
  }

  lemma OneMoreSpace(s: bytes, rest: bytes, n: nat)
    requires n <= |rest| && s == [SPACE] + rest && rest == Repeat(SPACE, n) + rest[n..]
    ensures s[n + 1..] == rest[n..] && s == Repeat(SPACE, n + 1) + s[n + 1..]
  {
    assert Repeat(SPACE, n + 1) == [SPACE] + Repeat(SPACE, n);
  }

  lemma {:induction false} SpacesFirst(s: bytes)
    ensures var n := SpaceCount(s);
      s == Repeat(SPACE, n) + s[n..] && (n < |s| ==> s[n] != SPACE)
  {
    if s != [] && s[0] == SPACE {
      var n, rest := SpaceCount(s[1..]), s[1..];
      assert SpaceCount(s) == n + 1;
      hide SpaceCount;
      SpacesFirst(rest);
      OneMoreSpace(s, rest, n);
    }
  }

  lemma {:induction false} WordFirst(s: bytes)
    ensures var n := WordLength(s);
      SPACE !in s[..n] && NEWLINE !in s[..n] && (n < |s| ==> s[n] == SPACE || s[n] == NEWLINE)
  {
    if s != [] && s[0] != SPACE && s[0] != NEWLINE {
      WordFirst(s[1..]);
      var n := WordLength(s[1..]);
      assert s[..n + 1] == [s[0]] + s[1..][..n];
    }
  }

  /** The words of the argument text: a newline just after a word separates like a space, one before a word ends the text. */
  function Args(s: bytes): (words: seq<bytes>)
    ensures 2 * |words| <= |s| + 1
    decreases |s|
  {
    var t := s[SpaceCount(s)..];
    if t == [] || t[0] == NEWLINE then []
    else
      var w, r := t[..WordLength(t)], t[WordLength(t)..];
      [w] + if r == [] then [] else Args(r[1..])
  }

  function Name(command: bytes): bytes {
    command[..WordLength(command)]
  }

  function ArgsOf(command: bytes): (words: seq<bytes>)
    ensures 2 * |words| <= |command| + 1
  {
    var r := command[WordLength(command)..];
    if r == [] then [] else Args(r[1..])
  }

  predicate IsWord(w: bytes) {
    w != [] && NUL !in w && SPACE !in w && NEWLINE !in w
  }

  predicate AreWords(ws: seq<bytes>) {
    forall w :: w in ws ==> IsWord(w)
  }

  // ---------- words with runs of spaces around them ----------

  function Weave(gaps: seq<nat>, ws: seq<bytes>): bytes
    requires |gaps| == |ws| + 1
    decreases |ws|
  {
    Repeat(SPACE, gaps[0]) + if ws == [] then [] else ws[0] + Weave(gaps[1..], ws[1..])
  }

  /** Between two words there is at least one space; before the first and after the last there may be none. */
  predicate Spaced(gaps: seq<nat>) {
    forall i {:trigger gaps[i]} :: 0 < i < |gaps| - 1 ==> gaps[i] > 0
  }

  lemma {:induction false} SpacesThen(k: nat, x: bytes)
    requires x == [] || x[0] != SPACE
    ensures SpaceCount(Repeat(SPACE, k) + x) == k && (Repeat(SPACE, k) + x)[k..] == x
  {
    var s := Repeat(SPACE, k) + x;
    if k == 0 {
      assert s == x;
    } else {
      assert s[1..] == Repeat(SPACE, k - 1) + x;
      SpacesThen(k - 1, x);
    }
  }

  lemma {:induction false} WordThen(w: bytes, x: bytes)
    requires SPACE !in w && NEWLINE !in w && (x == [] || x[0] == SPACE || x[0] == NEWLINE)
    ensures WordLength(w + x) == |w| && (w + x)[..|w|] == w && (w + x)[|w|..] == x
  {
    var s := w + x;
    if w == [] {
      assert s == x;
    } else {
      assert s[0] in w && s[1..] == w[1..] + x;
      WordThen(w[1..], x);
    }
  }

  /** The step of Args on a text that starts with spaces and a word. */
  lemma ArgsStep(k: nat, w: bytes, x: bytes)
    requires IsWord(w) && (x == [] || x[0] == SPACE || x[0] == NEWLINE)
    ensures Args(Repeat(SPACE, k) + (w + x)) == [w] + if x == [] then [] else Args(x[1..])
  {
    assert w[0] in w && (w + x)[0] == w[0];
    SpacesThen(k, w + x);
    WordThen(w, x);
  }

  lemma ArgsOfSpaces(k: nat)
    ensures Args(Repeat(SPACE, k)) == []
  {
    SpacesThen(k, []);
    assert Repeat(SPACE, k) + [] == Repeat(SPACE, k);
  }

  lemma {:induction false} WeaveTail(gaps: seq<nat>, ws: seq<bytes>)
    requires |gaps| == |ws| + 1 && gaps[0] > 0
    ensures Weave(gaps, ws) == [SPACE] + Weave([gaps[0] - 1] + gaps[1..], ws)
  {
    var less := [gaps[0] - 1] + gaps[1..];
    assert less[1..] == gaps[1..];
    var x := if ws == [] then [] else ws[0] + Weave(gaps[1..], ws[1..]);
    assert Weave(gaps, ws) == Repeat(SPACE, gaps[0]) + x && Weave(less, ws) == Repeat(SPACE, gaps[0] - 1) + x;
    hide Weave;
    assert Repeat(SPACE, gaps[0]) == [SPACE] + Repeat(SPACE, gaps[0] - 1);
  }

  lemma {:induction false} WeaveStep(k: nat, w: bytes, gaps: seq<nat>, ws: seq<bytes>)
    requires |gaps| == |ws| + 1
    ensures Weave([k] + gaps, [w] + ws) == Repeat(SPACE, k) + (w + Weave(gaps, ws))
  {
    assert ([k] + gaps)[1..] == gaps && ([w] + ws)[1..] == ws;
  }

  /** Whatever the runs of spaces are, the tokenizer finds the words. */
  lemma {:induction false} TokenizerFindsTheWords(gaps: seq<nat>, ws: seq<bytes>)
    requires |gaps| == |ws| + 1 && Spaced(gaps) && AreWords(ws)
    ensures Args(Weave(gaps, ws)) == ws
    decreases |ws|
  {
    hide Args, IsWord;
    if ws == [] {
      ArgsOfSpaces(gaps[0]);
      assert Weave(gaps, ws) == Repeat(SPACE, gaps[0]);
    } else {
      var x := Weave(gaps[1..], ws[1..]);
      assert ws[0] in ws && forall w :: w in ws[1..] ==> w in ws;
      if gaps[1] == 0 {
        assert |gaps| == 2 && x == [];
        ArgsStep(gaps[0], ws[0], x);
      } else {
        var shorter := [gaps[1] - 1] + gaps[2..];
        assert gaps[1..][1..] == gaps[2..];
        WeaveTail(gaps[1..], ws[1..]);
        assert forall i {:trigger shorter[i]} :: 0 < i < |shorter| - 1 ==> shorter[i] == gaps[i + 1];
        TokenizerFindsTheWords(shorter, ws[1..]);
        ArgsStep(gaps[0], ws[0], x);
        assert x[1..] == Weave(shorter, ws[1..]);
      }
      assert [ws[0]] + ws[1..] == ws;
    }
  }

  /** Text without newlines, as a C string can hold it. */
  predicate OneLine(s: bytes) {
    NUL !in s && NEWLINE !in s
  }

  lemma OneLineParts(s: bytes, a: bytes, b: bytes, c: bytes)
    requires OneLine(s) && s == a + (b + c)
    ensures OneLine(b) && OneLine(c)
  {
  }

  /** A text that has a word: its leading spaces, the word, and what follows it. */
  lemma {:induction false} FirstWord(s: bytes) returns (k: nat, w: bytes, r: bytes)
    requires OneLine(s) && SpaceCount(s) < |s|
    ensures IsWord(w) && OneLine(r) && |r| < |s| && s == Repeat(SPACE, k) + (w + r)
    ensures r == [] || (r[0] == SPACE && OneLine(r[1..]))
    ensures Args(s) == [w] + if r == [] then [] else Args(r[1..])
  {
    k := SpaceCount(s);
    SpacesFirst(s);
    var t := s[k..];
    WordFirst(t);
    var n := WordLength(t);
    w, r := t[..n], t[n..];
    assert t == w + r;
    OneLineParts(s, Repeat(SPACE, k), w, r);
    assert w != [] by {
      assert t[0] in s;
    }
    if r != [] {
      assert r[0] in r && r[0] == t[n];
      OneLineParts(r, [], [r[0]], r[1..]);
    }
    hide Args, SpaceCount, WordLength, OneLine, Repeat;
    ArgsStep(k, w, r);
  }

  lemma {:induction false} OnlySpaces(s: bytes)
    requires SpaceCount(s) == |s|
    ensures Args(s) == [] && Weave([|s|], []) == s && s == Repeat(SPACE, |s|)
  {
    SpacesFirst(s);
  }

  lemma SpacedMore(k: nat, gaps: seq<nat>)
    requires |gaps| > 0 && Spaced(gaps)
    ensures Spaced([k] + ([gaps[0] + 1] + gaps[1..])) && (|gaps| == 1 ==> Spaced([k] + gaps))
  {
  }

  lemma AreWordsMore(w: bytes, ws: seq<bytes>)
    requires IsWord(w) && AreWords(ws)
    ensures AreWords([w] + ws)
  {
  }

  /**
   Every text without newlines is its words with runs of spaces around them: the tokenizer loses nothing
   but the runs' lengths.
   */
  lemma {:induction false} TokenizerLosesOnlySpaces(s: bytes) returns (gaps: seq<nat>)
    requires OneLine(s)
    ensures AreWords(Args(s)) && |gaps| == |Args(s)| + 1 && Spaced(gaps) && Weave(gaps, Args(s)) == s
    decreases |s|
  {
    hide Args, IsWord, Weave, OneLine;
    if SpaceCount(s) == |s| {
      OnlySpaces(s);
      gaps := [|s|];
    } else {
      var k, w, r := FirstWord(s);
      hide Spaced, AreWords, SpaceCount;
      if r == [] {
        OnlySpaces([]);
        WeaveStep(k, w, [0], []);
        SpacedMore(k, [0]);
        AreWordsMore(w, []);
        gaps := [k] + [0];
      } else {
        var ws := Args(r[1..]);
        var inner := TokenizerLosesOnlySpaces(r[1..]);
        var next := [inner[0] + 1] + inner[1..];
        assert next[0] == inner[0] + 1;
        WeaveTail(next, ws);
        assert [next[0] - 1] + next[1..] == inner && [SPACE] + r[1..] == r;
        WeaveStep(k, w, next, ws);
        SpacedMore(k, inner);
        AreWordsMore(w, ws);
        gaps := [k] + next;
      }
    }
  }

  // ---------- newlines ----------

  /** The last character of a text that has a word. */
  lemma LastChar(u: bytes, k: nat, w: bytes, r: bytes)
    requires u == Repeat(SPACE, k) + (w + r) && IsWord(w)
    ensures u != [] && (r == [] ==> u[|u| - 1] != SPACE)
    ensures r != [] && r[0] == SPACE ==> (u[|u| - 1] != SPACE <==> r[1..] != [] && r[1..][|r[1..]| - 1] != SPACE)
  {
    if r == [] {
      assert u[|u| - 1] == w[|w| - 1] && w[|w| - 1] in w;
    } else {
      assert u[|u| - 1] == r[|r| - 1];
      assert |r| > 1 ==> r[1..][|r[1..]| - 1] == r[|r| - 1];
    }
  }

  lemma SpacesThenNewline(k: nat, v: bytes)
    ensures Args(Repeat(SPACE, k) + ([NEWLINE] + v)) == []
  {
    SpacesThen(k, [NEWLINE] + v);
  }

  /** A newline just after a word separates; anywhere else it ends the arguments. */
  lemma {:induction false} NewlineAfterWordSeparates(u: bytes, v: bytes)
    requires OneLine(u)
    ensures Args(u + ([NEWLINE] + v)) ==
      if u != [] && u[|u| - 1] != SPACE then Args(u) + Args(v) else Args(u)
    decreases |u|
  {
    hide Args, IsWord, OneLine;
    var tail := [NEWLINE] + v;
    if SpaceCount(u) == |u| {
      OnlySpaces(u);
      SpacesThenNewline(|u|, v);
    } else {
      var k, w, r := FirstWord(u);
      LastChar(u, k, w, r);
      hide Repeat, SpaceCount;
      var x := r + tail;
      ArgsStep(k, w, x);
      Regroup(Repeat(SPACE, k), w, r, tail);
      if r == [] {
        assert x == tail && x[1..] == v;
      } else {
        NewlineAfterWordSeparates(r[1..], v);
        assert x[1..] == r[1..] + tail;
        Regroup([w], Args(r[1..]), [], Args(v));
      }
    }
  }

  lemma Regroup<T>(a: seq<T>, b: seq<T>, c: seq<T>, d: seq<T>)
    ensures a + (b + c) + d == a + (b + (c + d)) && a + (b + d) == (a + b) + d
  {
  }

  // ---------- joining ----------

  /** The words with one space between each two. */
  function Join(ws: seq<bytes>): bytes {
    if ws == [] then []
    else if |ws| == 1 then ws[0]
    else Join(ws[..|ws| - 1]) + [SPACE] + ws[|ws| - 1]
  }

  function SingleGaps(n: nat): (gaps: seq<nat>)
    ensures |gaps| == n + 1 && Spaced(gaps)
  {
    seq(n + 1, i => if 0 < i < n then 1 else 0)
  }

  lemma {:induction false} JoinFromTheFront(w: bytes, ws: seq<bytes>)
    requires ws != []
    ensures Join([w] + ws) == w + [SPACE] + Join(ws)
    decreases |ws|
  {
    var all := [w] + ws;
    var last := ws[|ws| - 1];
    assert all[..|all| - 1] == [w] + ws[..|ws| - 1];
    if |ws| > 1 {
      JoinFromTheFront(w, ws[..|ws| - 1]);
      assert w + [SPACE] + Join(ws[..|ws| - 1]) + [SPACE] + last == w + [SPACE] + (Join(ws[..|ws| - 1]) + [SPACE] + last);
    }
  }

  lemma {:induction false} JoinIsWeave(ws: seq<bytes>)
    ensures Join(ws) == Weave(SingleGaps(|ws|), ws)
    decreases |ws|
  {
    var gaps := SingleGaps(|ws|);
    if ws != [] {
      var rest := ws[1..];
      assert gaps[0] == 0 && Repeat(SPACE, 0) == [];
      assert [ws[0]] + rest == ws;
      if rest == [] {
        assert gaps[1..] == [0] && Weave([0], []) == [];
      } else {
        JoinFromTheFront(ws[0], rest);
        JoinIsWeave(rest);
        WeaveTail(gaps[1..], rest);
        assert [gaps[1..][0] - 1] + gaps[1..][1..] == SingleGaps(|rest|);
        assert ws[0] + ([SPACE] + Join(rest)) == ws[0] + [SPACE] + Join(rest);
      }
    }
  }

  /** Joining and tokenizing again gives the same words, so arguments survive being passed on. */
  lemma TokenizeUndoesJoin(ws: seq<bytes>)
    requires AreWords(ws)
    ensures Args(Join(ws)) == ws
  {
    JoinIsWeave(ws);
    TokenizerFindsTheWords(SingleGaps(|ws|), ws);
  }

  /** A whole command: a name, a space and the words in any spacing. */
  lemma {:induction false} CommandSplits(name: bytes, gaps: seq<nat>, ws: seq<bytes>)
    requires IsWord(name) && |gaps| == |ws| + 1 && Spaced(gaps) && AreWords(ws)
    ensures var command := name + [SPACE] + Weave(gaps, ws);
      Name(command) == name && ArgsOf(command) == ws
  {
    var text := Weave(gaps, ws);
    WordThen(name, [SPACE] + text);
    assert name + [SPACE] + text == name + ([SPACE] + text);
    TokenizerFindsTheWords(gaps, ws);
  }

  // ---------- how much of the joined text fits ----------

  lemma {:induction false} JoinGrows(ws: seq<bytes>, j: nat, k: nat)
    requires j <= k <= |ws|
    ensures |Join(ws[..j])| <= |Join(ws[..k])|
    decreases k
  {
    if j < k {
      assert ws[..k][..k - 1] == ws[..k - 1];
      JoinGrows(ws, j, k - 1);
      assert k == 1 ==> ws[..0] == [];
    }
  }

  /** The number of leading words whose joined text fits in n bytes. */
  function FitCount(ws: seq<bytes>, n: nat): (k: nat)
    ensures k <= |ws| && |Join(ws[..k])| <= n
  {
    FitFrom(ws, n, |ws|)
  }

  function FitFrom(ws: seq<bytes>, n: nat, m: nat): (k: nat)
    requires m <= |ws|
    ensures k <= m && |Join(ws[..k])| <= n
  {
    if m == 0 || |Join(ws[..m])| <= n then m else FitFrom(ws, n, m - 1)
  }

  lemma {:induction false} FitIs(ws: seq<bytes>, n: nat, k: nat, m: nat)
    requires k <= m <= |ws| && |Join(ws[..k])| <= n && (k == |ws| || |Join(ws[..k + 1])| > n)
    ensures FitFrom(ws, n, m) == k
    decreases m
  {
    if k < m {
      JoinGrows(ws, k + 1, m);
      FitIs(ws, n, k, m - 1);
    }
  }

  /**
   The reader's buffer after getargs with room for n bytes: the words that fit, joined; then a NUL, or the space
   before the first word that did not fit. With n negative, or without a word that fits, nothing is written.
   */
  function Written(was: bytes, ws: seq<bytes>, n: int): bytes
    requires n < |was|
  {
    if n < 0 then was
    else
      var k := FitCount(ws, n);
      var j := Join(ws[..k]);
      if k == 0 && (ws != [] || n == 0) then was
      else if |j| < n && k < |ws| then j + [SPACE] + was[|j| + 1..]
      else j + [NUL] + was[|j| + 1..]
  }

  /** When the words and a NUL fit they arrive: the buffer holds them joined, up to the NUL, and they split again. */
  lemma WordsArrive(was: bytes, ws: seq<bytes>, n: nat)
    requires n < |was| && |Join(ws)| < n
    ensures var b, text := Written(was, ws, n), Join(ws);
      && |b| == |was| && b[..|text|] == text && b[|text|] == 0 && b[|text| + 1..] == was[|text| + 1..]
      && (AreWords(ws) ==> Args(b[..|text|]) == ws)
  {
    assert ws[..|ws|] == ws;
    FitIs(ws, n, |ws|, |ws|);
    if AreWords(ws) {
      TokenizeUndoesJoin(ws);
    }
  }

  /** When only the first k words fit, with room to spare, they arrive with a space behind them and nothing else does. */
  lemma LeadingWordsArrive(was: bytes, ws: seq<bytes>, n: nat, k: nat)
    requires n < |was| && 0 < k < |ws| && |Join(ws[..k])| < n < |Join(ws[..k + 1])|
    ensures var b, text := Written(was, ws, n), Join(ws[..k]);
      |b| == |was| && b[..|text|] == text && b[|text|] == 32 && b[|text| + 1..] == was[|text| + 1..]
  {
    FitIs(ws, n, k, |ws|);
  }

  /** When not even the first word fits nothing is written. */
  lemma NothingArrives(was: bytes, ws: seq<bytes>, n: int)
    requires n < |was| && ws != [] && n < |ws[0]|
    ensures Written(was, ws, n) == was
  {
    if n >= 0 {
      assert ws[..0] == [] && ws[..1] == [ws[0]];
      FitIs(ws, n, 0, |ws|);
    }
  }

  /**
   The copy of a word that just fills the room writes its terminator one byte past it; this happens for
   exactly these inputs.
   */
  lemma WritesPastTheRoom(was: bytes, ws: seq<bytes>, n: nat)
    requires n < |was|
    ensures var filled := exists k {:trigger ws[..k]} :: 0 < k <= |ws| && |Join(ws[..k])| == n;
      Written(was, ws, n)[n..] == (if filled then [NUL] + was[n + 1..] else was[n..])
  {
    var f := FitCount(ws, n);
    if k: nat :| 0 < k <= |ws| && |Join(ws[..k])| == n {
      FitsAtLeast(ws, n, k, |ws|);
      JoinGrows(ws, k, f);
    } else if f > 0 {
      assert |Join(ws[..f])| != n;
    }
  }

  /** One word of one character, and room for one byte: the byte behind it becomes NUL, and the call fails. */
  lemma {:induction false} OneWordTooMany(c: byte, x: byte, y: byte)
    ensures Written([x, y], [[c]], 1) == [c, NUL] && |Join([[c]])| == 1
  {
    var ws: seq<bytes> := [[c]];
    assert ws[..1] == ws && Join(ws) == [c];
    FitIs(ws, 1, 1, 1);
  }

  lemma {:induction false} FitsAtLeast(ws: seq<bytes>, n: nat, k: nat, m: nat)
    requires k <= m <= |ws| && |Join(ws[..k])| <= n
    ensures FitFrom(ws, n, m) >= k
    decreases m
  {
    if k < m {
      FitsAtLeast(ws, n, k, m - 1);
    }
  }
}
