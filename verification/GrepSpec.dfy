/** What ece391grep.c prints for one file, against the plain filter over its lines. */
module GrepSpec {
  import opened Bytes

  const BUFSIZE := 1024

  function FirstNewline(t: bytes, k: nat): (n: nat)
    requires k <= |t|
    ensures k <= n <= |t| && (n < |t| ==> t[n] == NEWLINE)
    ensures NEWLINE !in t[k..n]
    decreases |t| - k
  {
    if k == |t| || t[k] == NEWLINE then k
    else
      var n := FirstNewline(t, k + 1);
      assert t[k..n] == [t[k]] + t[k + 1..n];
      n
  }

  lemma {:induction false} FirstNewlineIs(t: bytes, k: nat, n: nat)
    requires k <= n <= |t| && NEWLINE !in t[k..n] && (n < |t| ==> t[n] == NEWLINE)
    ensures FirstNewline(t, k) == n
    decreases n - k
  {
    if k < n {
      assert t[k..n][0] == t[k] && t[k + 1..n] == t[k..n][1..];
      FirstNewlineIs(t, k + 1, n);
    }
  }

  /** What follows a line that ends at n. */
  function After(t: bytes, n: nat): (rest: bytes)
    requires n <= |t|
    ensures t != [] ==> |rest| < |t|
  {
    if n < |t| then t[n + 1..] else []
  }

  /** The lines of a text; a final newline does not start another line. */
  function Lines(t: bytes): seq<bytes>
    decreases |t|
  {
    if t == [] then []
    else
      var n := FirstNewline(t, 0);
      [t[..n]] + Lines(After(t, n))
  }

  /** The stretches grep searches: the lines, but a run of 1024 bytes without a newline is cut off as it is. */
  function Pieces(t: bytes): seq<bytes>
    decreases |t|
  {
    if t == [] then []
    else
      var n := FirstNewline(t, 0);
      if n < BUFSIZE then [t[..n]] + Pieces(After(t, n))
      else [t[..BUFSIZE]] + Pieces(t[BUFSIZE..])
  }

  ghost predicate OccursAt(line: bytes, s: bytes, i: int) {
    0 <= i && i + |s| <= |line| && line[i..i + |s|] == s
  }

  /** A line is reported when the pattern occurs in it; the empty pattern reports nothing. */
  ghost predicate Matches(line: bytes, s: bytes) {
    s != [] && exists i :: OccursAt(line, s, i)
  }

  ghost function ReportOne(line: bytes, s: bytes, fname: bytes): bytes {
    if Matches(line, s) then fname + [58] + line + [NEWLINE] else []
  }

  /** Each matching stretch once, in order, behind the file's name and a colon. */
  ghost function Report(pieces: seq<bytes>, s: bytes, fname: bytes): bytes {
    if pieces == [] then [] else ReportOne(pieces[0], s, fname) + Report(pieces[1..], s, fname)
  }

  // ---------- what lines are ----------

  /** Lines written out, each with its newline. */
  function TextOfLines(lines: seq<bytes>): bytes {
    if lines == [] then [] else lines[0] + [NEWLINE] + TextOfLines(lines[1..])
  }

  lemma FirstOfLines(line: bytes, rest: bytes)
    requires NEWLINE !in line
    ensures Lines(line + [NEWLINE] + rest) == [line] + Lines(rest)
  {
    var t := line + [NEWLINE] + rest;
    assert t[0..|line|] == line && t[|line|] == NEWLINE && t[|line| + 1..] == rest;
    FirstNewlineIs(t, 0, |line|);
  }

  lemma LastLine(last: bytes)
    requires NEWLINE !in last
    ensures Lines(last) == if last == [] then [] else [last]
  {
    if last != [] {
      assert last[0..|last|] == last == last[..|last|];
      FirstNewlineIs(last, 0, |last|);
    }
  }

  lemma Regroup(a: bytes, b: bytes, c: bytes)
    ensures (a + [NEWLINE] + b) + c == a + [NEWLINE] + (b + c)
  {
  }

  /** Lines read back from their text, whether or not the last one has its newline. */
  lemma {:induction false} LinesReadBack(lines: seq<bytes>, last: bytes)
    requires OneLiners(lines) && NEWLINE !in last
    ensures Lines(TextOfLines(lines) + last) == lines + if last == [] then [] else [last]
    decreases |lines|
  {
    hide Lines;
    if lines == [] {
      assert TextOfLines(lines) + last == last;
      LastLine(last);
    } else {
      assert lines[0] in lines && forall p :: p in lines[1..] ==> p in lines;
      Regroup(lines[0], TextOfLines(lines[1..]), last);
      FirstOfLines(lines[0], TextOfLines(lines[1..]) + last);
      LinesReadBack(lines[1..], last);
    }
  }

  lemma ReportOneExample()
    ensures ReportOne([97], [98], [102]) == []
    ensures ReportOne([98, 97], [98], [102]) == [102, 58, 98, 97, 10]
    ensures ReportOne([99, 98], [98], [102]) == [102, 58, 99, 98, 10]
  {
    assert OccursAt([98, 97], [98], 0) && OccursAt([99, 98], [98], 1);
    forall i ensures !OccursAt([97], [98], i) {
      if i == 0 {
        assert [97][0..1][0] == 97;
      }
    }
  }

  lemma LinesExample()
    ensures Lines([97, 10, 98, 97, 10, 99, 98]) == [[97], [98, 97], [99, 98]]
  {
    hide Lines;
    LastLine([99, 98]);
    FirstOfLines([98, 97], [99, 98]);
    FirstOfLines([97], [98, 97, 10, 99, 98]);
    assert [98, 97] + [10] + [99, 98] == [98, 97, 10, 99, 98];
    assert [97] + [10] + [98, 97, 10, 99, 98] == [97, 10, 98, 97, 10, 99, 98];
  }

  /** A file "f" of the lines "a", "ba" and "cb": a search for "b" prints "f:ba" and "f:cb". */
  lemma {:induction false} ReportExample()
    ensures Report(Lines([97, 10, 98, 97, 10, 99, 98]), [98], [102]) == [102, 58, 98, 97, 10, 102, 58, 99, 98, 10]
  {
    LinesExample();
    ReportOneExample();
    assert Report([], [98], [102]) == [];
    hide Report, ReportOne, Lines;
    ReportCons([99, 98], [], [98], [102]);
    ReportCons([98, 97], [[99, 98]], [98], [102]);
    ReportCons([97], [[98, 97], [99, 98]], [98], [102]);
  }

  // ---------- when the pieces are the lines ----------

  lemma EmptyLineReportsNothing(s: bytes, fname: bytes)
    ensures ReportOne([], s, fname) == []
  {
    assert forall i :: OccursAt([], s, i) ==> s == [];
  }

  lemma ReportCons(p: bytes, ps: seq<bytes>, s: bytes, fname: bytes)
    ensures Report([p] + ps, s, fname) == ReportOne(p, s, fname) + Report(ps, s, fname)
  {
    assert ([p] + ps)[1..] == ps;
  }

  /** The stretches in which the pattern occurs. */
  ghost function Matching(ps: seq<bytes>, s: bytes): seq<bytes> {
    if ps == [] then [] else (if Matches(ps[0], s) then [ps[0]] else []) + Matching(ps[1..], s)
  }

  lemma MatchingCons(p: bytes, ps: seq<bytes>, s: bytes)
    ensures Matching([p] + ps, s) == (if Matches(p, s) then [p] else []) + Matching(ps, s)
  {
    assert ([p] + ps)[1..] == ps;
  }

  lemma {:induction false} InMatching(ps: seq<bytes>, s: bytes, p: bytes)
    ensures p in Matching(ps, s) <==> p in ps && Matches(p, s)
  {
    if ps != [] {
      InMatching(ps[1..], s, p);
      assert p in ps <==> p == ps[0] || p in ps[1..];
    }
  }

  /** The report is that of the matching stretches alone. */
  ghost function Printed(ps: seq<bytes>, fname: bytes): bytes {
    if ps == [] then [] else fname + [58] + ps[0] + [NEWLINE] + Printed(ps[1..], fname)
  }

  lemma {:induction false} ReportIsPrinted(ps: seq<bytes>, s: bytes, fname: bytes)
    ensures Report(ps, s, fname) == Printed(Matching(ps, s), fname)
  {
    if ps != [] {
      var rest := Matching(ps[1..], s);
      ReportIsPrinted(ps[1..], s, fname);
      if Matches(ps[0], s) {
        assert ([ps[0]] + rest)[1..] == rest;
      } else {
        assert [] + rest == rest && [] + Report(ps[1..], s, fname) == Report(ps[1..], s, fname);
      }
    }
  }

  predicate OneLiners(ps: seq<bytes>) {
    forall p :: p in ps ==> NEWLINE !in p
  }

  /** A newline ends the first of two texts at the same place in both. */
  lemma SameUpToNewline(x: bytes, y: bytes, u: bytes, v: bytes)
    requires NEWLINE !in x && NEWLINE !in y && x + [NEWLINE] + u == y + [NEWLINE] + v
    ensures x == y && u == v
  {
    var a, b := x + [NEWLINE] + u, y + [NEWLINE] + v;
    assert a[0..|x|] == x && b[0..|y|] == y;
    FirstNewlineIs(a, 0, |x|);
    FirstNewlineIs(b, 0, |y|);
    assert a[|x| + 1..] == u && b[|y| + 1..] == v;
  }

  lemma DropPrefix(f: bytes, u: bytes, v: bytes)
    requires f + u == f + v
    ensures u == v
  {
    assert (f + u)[|f|..] == u && (f + v)[|f|..] == v;
  }

  /** What was printed tells the stretches, whatever the file name is. */
  lemma {:induction false} PrintedDecodes(ps: seq<bytes>, qs: seq<bytes>, fname: bytes)
    requires OneLiners(ps) && OneLiners(qs) && Printed(ps, fname) == Printed(qs, fname)
    ensures ps == qs
    decreases |ps|
  {
    if ps != [] && qs != [] {
      assert ps[0] in ps && qs[0] in qs;
      var u, v := Printed(ps[1..], fname), Printed(qs[1..], fname);
      assert Printed(ps, fname) == (fname + [58]) + (ps[0] + [NEWLINE] + u);
      assert Printed(qs, fname) == (fname + [58]) + (qs[0] + [NEWLINE] + v);
      DropPrefix(fname + [58], ps[0] + [NEWLINE] + u, qs[0] + [NEWLINE] + v);
      SameUpToNewline(ps[0], qs[0], u, v);
      PrintedDecodes(ps[1..], qs[1..], fname);
      assert ps == [ps[0]] + ps[1..] && qs == [qs[0]] + qs[1..];
    }
  }

  lemma {:induction false} LinesAreOneLiners(t: bytes)
    ensures OneLiners(Lines(t))
    decreases |t|
  {
    if t != [] {
      var n := FirstNewline(t, 0);
      assert t[0..n] == t[..n];
      LinesAreOneLiners(After(t, n));
    }
  }

  lemma {:induction false} PiecesAreShortOneLiners(t: bytes)
    ensures OneLiners(Pieces(t)) && forall p :: p in Pieces(t) ==> |p| <= BUFSIZE
    decreases |t|
  {
    if t != [] {
      var n := FirstNewline(t, 0);
      assert t[0..n] == t[..n];
      if n < BUFSIZE {
        PiecesAreShortOneLiners(After(t, n));
      } else {
        TakeTake(t, n, BUFSIZE);
        NewlineFreePart(t[..n], BUFSIZE);
        PiecesAreShortOneLiners(t[BUFSIZE..]);
      }
    }
  }

  lemma NewlineFreePart(x: bytes, m: nat)
    requires NEWLINE !in x && m <= |x|
    ensures NEWLINE !in x[..m] && NEWLINE !in x[m..]
  {
  }

  lemma {:induction false} MatchingOneLiners(ps: seq<bytes>, s: bytes)
    requires OneLiners(ps)
    ensures OneLiners(Matching(ps, s))
  {
    forall p | p in Matching(ps, s) ensures NEWLINE !in p {
      InMatching(ps, s, p);
    }
  }

  /** A match in either part of a line is a match in the line. */
  lemma PartMatches(line: bytes, m: nat, s: bytes)
    requires m <= |line| && (Matches(line[..m], s) || Matches(line[m..], s))
    ensures Matches(line, s)
  {
    if Matches(line[..m], s) {
      var i :| OccursAt(line[..m], s, i);
      assert line[..m][i..i + |s|] == line[i..i + |s|];
      assert OccursAt(line, s, i);
    } else {
      var i :| OccursAt(line[m..], s, i);
      DropSlice(line, m, i, i + |s|);
      assert OccursAt(line, s, m + i);
    }
  }

  lemma EmptyLineDoesNotMatch(s: bytes)
    ensures !Matches([], s)
  {
    assert forall i :: OccursAt([], s, i) ==> s == [];
  }

  /** The pattern occurs in no line longer than the buffer. */
  ghost predicate LongLinesDoNotMatch(lines: seq<bytes>, s: bytes) {
    forall l {:trigger Matches(l, s)} :: l in lines && Matches(l, s) ==> |l| <= BUFSIZE
  }

  lemma NewlineBehind(t: bytes, n: nat, left: bytes, tail: bytes, rest: bytes)
    requires t != [] && n == FirstNewline(t, 0) >= BUFSIZE
    requires left == t[BUFSIZE..] && tail == t[..n][BUFSIZE..] && rest == After(t, n)
    ensures FirstNewline(left, 0) == |tail| <= |left| && left[..|tail|] == tail
    ensures left != [] ==> After(left, |tail|) == rest
    ensures left == [] ==> n == BUFSIZE == |t|
  {
    assert left[0..n - BUFSIZE] == tail == left[..n - BUFSIZE];
    assert t[0..n] == t[..n];
    NewlineFreePart(t[..n], BUFSIZE);
    FirstNewlineIs(left, 0, n - BUFSIZE);
  }

  /** The text behind the first buffer of a long line: the rest of the line, then the other lines. */
  lemma RestOfLine(t: bytes, n: nat, left: bytes, tail: bytes, rest: bytes)
    requires t != [] && n == FirstNewline(t, 0) >= BUFSIZE
    requires left == t[BUFSIZE..] && tail == t[..n][BUFSIZE..] && rest == After(t, n)
    ensures if left != [] then Lines(left) == [tail] + Lines(rest) else n == BUFSIZE == |t|
  {
    NewlineBehind(t, n, left, tail, rest);
    hide FirstNewline, After, Lines;
    if left != [] {
      FirstLineOf(left, |tail|);
    }
  }

  lemma FirstLineOf(t: bytes, n: nat)
    requires t != [] && n == FirstNewline(t, 0)
    ensures Lines(t) == [t[..n]] + Lines(After(t, n))
  {
  }

  lemma LongLinesLess(p: bytes, ps: seq<bytes>, s: bytes)
    requires LongLinesDoNotMatch([p] + ps, s)
    ensures LongLinesDoNotMatch(ps, s) && (Matches(p, s) ==> |p| <= BUFSIZE)
  {
    assert p in [p] + ps && forall l :: l in ps ==> l in [p] + ps;
  }

  lemma LongLinesMore(p: bytes, ps: seq<bytes>, s: bytes)
    requires LongLinesDoNotMatch(ps, s) && !Matches(p, s)
    ensures LongLinesDoNotMatch([p] + ps, s)
  {
  }

  /** When only short lines match, the same stretches match as lines. */
  lemma {:induction false} ShortMatchesAgree(t: bytes, s: bytes)
    requires LongLinesDoNotMatch(Lines(t), s)
    ensures Matching(Pieces(t), s) == Matching(Lines(t), s)
    decreases |t|
  {
    hide Matches, LongLinesDoNotMatch, Matching;
    if t != [] {
      var n := FirstNewline(t, 0);
      var line, rest := t[..n], After(t, n);
      MatchingCons(line, Lines(rest), s);
      LongLinesLess(line, Lines(rest), s);
      if n < BUFSIZE {
        ShortMatchesAgree(rest, s);
        MatchingCons(line, Pieces(rest), s);
      } else {
        LongLineAgrees(t, s);
      }
    } else {
      assert Pieces(t) == Lines(t);
    }
  }

  lemma FirstPieceOf(t: bytes)
    requires t != [] && FirstNewline(t, 0) >= BUFSIZE
    ensures Pieces(t) == [t[..BUFSIZE]] + Pieces(t[BUFSIZE..])
  {
  }

  /** A line over the limit in which the pattern does not occur has it in neither part; one at the limit has no rest. */
  lemma LongLineParts(t: bytes, n: nat, s: bytes)
    requires BUFSIZE <= n <= |t| && (Matches(t[..n], s) ==> n <= BUFSIZE)
    ensures Matches(t[..BUFSIZE], s) <==> Matches(t[..n], s)
    ensures !Matches(t[..n][BUFSIZE..], s)
  {
    var line := t[..n];
    TakeTake(t, n, BUFSIZE);
    EmptyLineDoesNotMatch(s);
    hide Matches;
    if n == BUFSIZE {
      assert line[BUFSIZE..] == [];
    } else if Matches(line[..BUFSIZE], s) || Matches(line[BUFSIZE..], s) {
      PartMatches(line, BUFSIZE, s);
      assert false;
    }
  }

  lemma NoLines(t: bytes, n: nat)
    requires n == BUFSIZE == |t|
    ensures Lines(After(t, n)) == [] && Pieces(t[BUFSIZE..]) == []
  {
  }

  lemma {:induction false} LongLineAgrees(t: bytes, s: bytes)
    requires t != [] && FirstNewline(t, 0) >= BUFSIZE && LongLinesDoNotMatch(Lines(t), s)
    ensures Matching(Pieces(t), s) == Matching(Lines(t), s)
    decreases |t|, 0
  {
    hide Matches, LongLinesDoNotMatch, Matching, Lines, Pieces, After, FirstNewline;
    var n := FirstNewline(t, 0);
    var line, rest, left := t[..n], After(t, n), t[BUFSIZE..];
    var piece, tail := t[..BUFSIZE], line[BUFSIZE..];
    FirstLineOf(t, n);
    FirstPieceOf(t);
    MatchingCons(line, Lines(rest), s);
    MatchingCons(piece, Pieces(left), s);
    LongLinesLess(line, Lines(rest), s);
    RestOfLine(t, n, left, tail, rest);
    LongLineParts(t, n, s);
    if left != [] {
      LongLinesMore(tail, Lines(rest), s);
      ShortMatchesAgree(left, s);
      MatchingCons(tail, Lines(rest), s);
    } else {
      NoLines(t, n);
    }
  }

  /**
   For one file and one pattern, whatever they are: grep prints exactly the matching lines, each once and in order,
   exactly when no line longer than 1024 bytes contains the pattern.
   */
  lemma {:induction false} GrepFiltersLines(t: bytes, s: bytes, fname: bytes)
    ensures Report(Pieces(t), s, fname) == Report(Lines(t), s, fname) <==> LongLinesDoNotMatch(Lines(t), s)
  {
    hide Matches, Matching, Report, Printed;
    ReportIsPrinted(Pieces(t), s, fname);
    ReportIsPrinted(Lines(t), s, fname);
    if LongLinesDoNotMatch(Lines(t), s) {
      ShortMatchesAgree(t, s);
    } else if Report(Pieces(t), s, fname) == Report(Lines(t), s, fname) {
      PiecesAreShortOneLiners(t);
      LinesAreOneLiners(t);
      MatchingOneLiners(Pieces(t), s);
      MatchingOneLiners(Lines(t), s);
      PrintedDecodes(Matching(Pieces(t), s), Matching(Lines(t), s), fname);
      forall l {:trigger Matches(l, s)} | l in Lines(t) && Matches(l, s) ensures |l| <= BUFSIZE {
        InMatching(Lines(t), s, l);
        InMatching(Pieces(t), s, l);
      }
    }
  }

  /** So it does for every pattern exactly when no line is longer than 1024 bytes. */
  lemma {:induction false} GrepFiltersShortLines(t: bytes, fname: bytes)
    ensures (forall s :: Report(Pieces(t), s, fname) == Report(Lines(t), s, fname))
      <==> (forall line :: line in Lines(t) ==> |line| <= BUFSIZE)
  {
    hide Report, Matches, Lines;
    if line :| line in Lines(t) && |line| > BUFSIZE {
      MatchesItself(line);
      GrepFiltersLines(t, line, fname);
      assert !LongLinesDoNotMatch(Lines(t), line);
    } else {
      forall s ensures Report(Pieces(t), s, fname) == Report(Lines(t), s, fname) {
        GrepFiltersLines(t, s, fname);
      }
    }
  }

  lemma MatchesItself(line: bytes)
    requires line != []
    ensures Matches(line, line)
  {
    assert OccursAt(line, line, 0);
  }

  /** A line of 1025 equal characters, searched for one of them, comes out as two. */
  lemma {:induction false} LongLineIsCut(c: byte, fname: bytes)
    requires c != NEWLINE
    ensures var t := Repeat(c, BUFSIZE + 1);
      Report(Pieces(t), [c], fname) != Report(Lines(t), [c], fname)
  {
    var t := Repeat(c, BUFSIZE + 1);
    FirstNewlineIs(t, 0, |t|);
    assert t[..|t|] == t && Lines(t) == [t];
    assert OccursAt(t, [c], 0);
    assert Matches(t, [c]) && t in Lines(t);
    GrepFiltersLines(t, [c], fname);
  }

  // ---------- one turn of the scanner ----------

  /** A newline in the buffer ends the next stretch. */
  lemma LineInBuffer(buffer: bytes, rest: bytes, n: nat, s: bytes, fname: bytes)
    requires n < |buffer| <= BUFSIZE && buffer[n] == NEWLINE && NEWLINE !in buffer[..n]
    ensures Report(Pieces(buffer + rest), s, fname)
      == ReportOne(buffer[..n], s, fname) + Report(Pieces(buffer[n + 1..] + rest), s, fname)
  {
    hide Report, ReportOne;
    var t := buffer + rest;
    assert t[0..n] == buffer[..n];
    FirstNewlineIs(t, 0, n);
    assert t[..n] == buffer[..n] && After(t, n) == buffer[n + 1..] + rest;
    ReportCons(buffer[..n], Pieces(buffer[n + 1..] + rest), s, fname);
  }

  /** Without one, the whole buffer is the next stretch, if it is full or nothing follows it. */
  lemma BufferIsPiece(buffer: bytes, rest: bytes, s: bytes, fname: bytes)
    requires |buffer| <= BUFSIZE && NEWLINE !in buffer && (rest == [] || |buffer| == BUFSIZE)
    ensures Report(Pieces(buffer + rest), s, fname) == ReportOne(buffer, s, fname) + Report(Pieces(rest), s, fname)
  {
    hide Report, ReportOne;
    var t := buffer + rest;
    EmptyLineReportsNothing(s, fname);
    if rest == [] {
      assert t == buffer && t[0..|t|] == buffer && t[..|t|] == buffer;
      FirstNewlineIs(t, 0, |t|);
      ReportCons(buffer, [], s, fname);
      ReportCons(buffer, Pieces([]), s, fname);
      if buffer != [] && |buffer| == BUFSIZE {
        assert t[..BUFSIZE] == buffer && t[BUFSIZE..] == [];
      }
    } else {
      assert t[..BUFSIZE] == buffer && t[BUFSIZE..] == rest;
      assert forall i :: 0 <= i < BUFSIZE ==> t[i] == buffer[i] != NEWLINE;
      assert FirstNewline(t, 0) >= BUFSIZE;
      ReportCons(buffer, Pieces(rest), s, fname);
    }
  }
}
