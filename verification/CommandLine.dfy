/** sys_execute_parse: the program name and the argument text of a command. */
module CommandLine {
  import opened Bytes

  const COMMAND_LENGTH := 128

  datatype Command = Command(name: bytes, args: bytes)

  function SkipSpaces(t: bytes): (r: bytes)
    ensures |r| <= |t|
  {
    if t != [] && t[0] == SPACE then SkipSpaces(t[1..]) else t
  }

  /** The name ends before a space but takes a newline with it. */
  function FirstWord(t: bytes): bytes {
    if t == [] || t[0] == SPACE then [] else if t[0] == NEWLINE then [NEWLINE] else [t[0]] + FirstWord(t[1..])
  }

  /** What the argument scan starts from: the space or the newline the name ended at. */
  function AfterWord(t: bytes): (r: bytes)
    ensures |r| <= |t|
  {
    if t == [] || t[0] == SPACE || t[0] == NEWLINE then t else AfterWord(t[1..])
  }

  /** The argument scan: spaces go, and a newline right after a character that was kept ends it. */
  function Squeezed(t: bytes): (r: bytes)
    ensures |r| <= |t|
  {
    if t == [] then []
    else if t[0] == SPACE then Squeezed(t[1..])
    else [t[0]] + if |t| > 1 && t[1] == NEWLINE then [] else Squeezed(t[1..])
  }

  function Parse(command: bytes): Command {
    var t := SkipSpaces(command);
    Command(FirstWord(t), Squeezed(AfterWord(t)))
  }

  /** Where the name scan stops. */
  function NameEnd(command: bytes): nat {
    |command| - |AfterWord(SkipSpaces(command))|
  }

  /**
   What the arrays of sys_execute_parse have room for: a C string of 128 characters, whose arguments with their
   terminator fit what the name leaves of 127.
   */
  predicate CommandOk(command: bytes) {
    && NulFree(command) && |command| <= COMMAND_LENGTH
    && |Parse(command).args| + 1 <= COMMAND_LENGTH - NameEnd(command) - 1
  }

  /** Every command of up to 126 characters fits. */
  lemma ShortCommandsFit(command: bytes)
    requires NulFree(command) && |command| <= COMMAND_LENGTH - 2
    ensures CommandOk(command)
  {
  }

  /** What argbuf has room for. */
  predicate ArgsOk(args: bytes) {
    NulFree(args) && |args| < COMMAND_LENGTH
  }

  lemma {:induction false} SqueezedIsNulFree(t: bytes)
    requires NulFree(t)
    ensures NulFree(Squeezed(t))
  {
    if t != [] {
      assert forall c :: c in t[1..] ==> c in t;
      SqueezedIsNulFree(t[1..]);
    }
  }

  lemma {:induction false} SkipIsNulFree(t: bytes)
    requires NulFree(t)
    ensures NulFree(SkipSpaces(t))
  {
    if t != [] && t[0] == SPACE {
      assert forall c :: c in t[1..] ==> c in t;
      SkipIsNulFree(t[1..]);
    }
  }

  lemma {:induction false} AfterIsNulFree(t: bytes)
    requires NulFree(t)
    ensures NulFree(AfterWord(t))
  {
    if t != [] && t[0] != SPACE && t[0] != NEWLINE {
      assert forall c :: c in t[1..] ==> c in t;
      AfterIsNulFree(t[1..]);
    }
  }

  /** The arguments of an accepted command fit argbuf. */
  lemma ArgsFit(command: bytes)
    requires CommandOk(command)
    ensures ArgsOk(Parse(command).args)
  {
    SkipIsNulFree(command);
    AfterIsNulFree(SkipSpaces(command));
    SqueezedIsNulFree(AfterWord(SkipSpaces(command)));
  }

  /** What the three do at the i-th character. */
  lemma NameFrom(t: bytes, i: nat)
    requires i < |t|
    ensures SkipSpaces(t[i..]) == if t[i] == SPACE then SkipSpaces(t[i + 1..]) else t[i..]
    ensures AfterWord(t[i..]) == if t[i] == SPACE || t[i] == NEWLINE then t[i..] else AfterWord(t[i + 1..])
    ensures FirstWord(t[i..]) ==
      if t[i] == SPACE then [] else if t[i] == NEWLINE then [NEWLINE] else [t[i]] + FirstWord(t[i + 1..])
  {
    assert t[i..][1..] == t[i + 1..];
  }

  lemma NameFromNothing()
    ensures SkipSpaces([]) == AfterWord([]) == FirstWord([]) == []
  {
  }

  /** The name scan of sys_execute_parse: `pgm` tells whether a name character has been seen. */
  method ScanName(arg: bytes) returns (name: bytes, argLen: nat)
    requires NulFree(arg)
    ensures argLen <= |arg| && name == FirstWord(SkipSpaces(arg)) && arg[argLen..] == AfterWord(SkipSpaces(arg))
    ensures |name| <= argLen + 1
  {
    hide SkipSpaces, AfterWord, FirstWord;
    name := [];
    argLen := 0;
    var pgm := false;
    assert arg[0..] == arg && arg[|arg|..] == [];
    NameFromNothing();
    while argLen < |arg|
      invariant argLen <= |arg|
      invariant !pgm ==> name == [] && SkipSpaces(arg[argLen..]) == SkipSpaces(arg)
      invariant pgm ==> name + FirstWord(arg[argLen..]) == FirstWord(SkipSpaces(arg))
      invariant pgm ==> AfterWord(arg[argLen..]) == AfterWord(SkipSpaces(arg)) && |name| <= argLen
    {
      NameFrom(arg, argLen);
      if arg[argLen] == SPACE && !pgm {
        argLen := argLen + 1;
        continue;
      } else if arg[argLen] == SPACE {
        break;
      }
      pgm := true;
      name := name + [arg[argLen]];
      if arg[argLen] == NEWLINE {
        break;
      }
      argLen := argLen + 1;
    }
  }

  lemma SqueezedFrom(t: bytes, i: nat)
    requires i <= |t|
    ensures i == |t| ==> Squeezed(t[i..]) == []
    ensures i < |t| && t[i] == SPACE ==> Squeezed(t[i..]) == Squeezed(t[i + 1..])
    ensures i < |t| && t[i] != SPACE && (i + 1 == |t| || t[i + 1] != NEWLINE) ==>
      Squeezed(t[i..]) == [t[i]] + Squeezed(t[i + 1..])
    ensures i < |t| && t[i] != SPACE && i + 1 < |t| && t[i + 1] == NEWLINE ==> Squeezed(t[i..]) == [t[i]]
  {
    if i < |t| {
      assert t[i..][1..] == t[i + 1..];
    }
  }

  /**
   The argument scan, from where the name scan stopped. The second clause says that what it keeps of a short command
   fits, with a terminator, the array the original sizes by what is left of 127.
   */
  method ScanArgs(arg: bytes, start: nat) returns (args: bytes)
    requires start <= |arg|
    ensures args == Squeezed(arg[start..])
    ensures |arg| <= COMMAND_LENGTH - 2 ==> |args| + 1 <= COMMAND_LENGTH - start - 1
  {
    hide Squeezed;
    args := [];
    var i := start;
    SqueezedFrom(arg, |arg|);
    while i < |arg|
      invariant start <= i <= |arg|
      invariant args + Squeezed(arg[i..]) == Squeezed(arg[start..])
      decreases |arg| - i
    {
      SqueezedFrom(arg, i);
      if arg[i] == SPACE {
        i := i + 1;
        continue;
      }
      args := args + [arg[i]];
      i := i + 1;
      if i < |arg| && arg[i] == NEWLINE {
        return;
      }
    }
  }

  method ParseCommand(command: bytes) returns (name: bytes, args: bytes)
    requires NulFree(command)
    ensures Command(name, args) == Parse(command)
  {
    var argLen;
    name, argLen := ScanName(command);
    args := ScanArgs(command, argLen);
  }

  // ---------- what the name and the arguments come to ----------

  lemma {:induction false} SpacesSkipped(n: nat, t: bytes)
    requires t == [] || t[0] != SPACE
    ensures SkipSpaces(Repeat(SPACE, n) + t) == t
  {
    if n == 0 {
      assert Repeat(SPACE, 0) + t == t;
    } else {
      SpacesSkipped(n - 1, t);
      assert (Repeat(SPACE, n) + t)[1..] == Repeat(SPACE, n - 1) + t;
    }
  }

  lemma {:induction false} WordTaken(w: bytes, rest: bytes)
    requires SPACE !in w && NEWLINE !in w && (rest == [] || rest[0] == SPACE || rest[0] == NEWLINE)
    ensures FirstWord(w + rest) == w + (if rest != [] && rest[0] == NEWLINE then [NEWLINE] else [])
    ensures AfterWord(w + rest) == rest
  {
    if w == [] {
      assert w + rest == rest;
    } else {
      WordTaken(w[1..], rest);
      assert (w + rest)[1..] == w[1..] + rest && w[0] in w;
    }
  }

  /**
   The name is the first word of the command, whatever number of spaces stands before it, with a newline that
   directly follows it; the arguments are made of the rest.
   */
  lemma NameIsFirstWord(n: nat, w: bytes, rest: bytes)
    requires w != [] && SPACE !in w && NEWLINE !in w && (rest == [] || rest[0] == SPACE || rest[0] == NEWLINE)
    ensures var command := Parse(Repeat(SPACE, n) + (w + rest));
      && command.name == (if rest != [] && rest[0] == NEWLINE then w + [NEWLINE] else w)
      && command.args == WithoutSpaces(Kept(rest))
  {
    assert w[0] in w;
    SpacesSkipped(n, w + rest);
    WordTaken(w, rest);
    ArgsLoseTheirSpaces(rest);
  }

  /** Text without its spaces. */
  function WithoutSpaces(t: bytes): bytes {
    if t == [] then [] else (if t[0] == SPACE then [] else [t[0]]) + WithoutSpaces(t[1..])
  }

  /** The text up to the first newline that directly follows something other than a space. */
  function Kept(t: bytes): bytes {
    if |t| <= 1 then t
    else if t[0] != SPACE && t[1] == NEWLINE then [t[0]]
    else [t[0]] + Kept(t[1..])
  }

  /** The program gets its arguments run together: every space is gone. */
  lemma {:induction false} ArgsLoseTheirSpaces(t: bytes)
    ensures Squeezed(t) == WithoutSpaces(Kept(t)) && SPACE !in Squeezed(t)
  {
    if t != [] {
      ArgsLoseTheirSpaces(t[1..]);
      assert |t| > 1 ==> ([t[0]] + Kept(t[1..]))[1..] == Kept(t[1..]);
      assert [t[0]][1..] == [];
    }
  }

  /** The line as it was typed. */
  function FirstLine(t: bytes): bytes {
    if t == [] || t[0] == NEWLINE then [] else [t[0]] + FirstLine(t[1..])
  }

  lemma {:induction false} WordArrives(t: bytes)
    requires t == [] || t[0] != NEWLINE
    ensures Squeezed(t) == FirstLine(t) <==> SPACE !in FirstLine(t)
  {
    ArgsLoseTheirSpaces(t);
    if t != [] && t[0] != SPACE {
      if |t| > 1 && t[1] == NEWLINE {
        assert FirstLine(t[1..]) == [];
      } else {
        WordArrives(t[1..]);
      }
    }
  }

  lemma {:induction false} TextArrives(t: bytes)
    ensures var line := SkipSpaces(FirstLine(t));
      Squeezed(t) == line <==> SPACE !in line && (line != [] || NEWLINE !in t)
  {
    if t != [] {
      if t[0] == SPACE {
        TextArrives(t[1..]);
        assert FirstLine(t)[1..] == FirstLine(t[1..]);
      } else if t[0] != NEWLINE {
        WordArrives(t);
      }
    }
  }

  /**
   The arguments arrive as typed, without the spaces before them, exactly when they are a single word, or none
   and there is no newline either (a newline in their place is taken for an argument).
   */
  lemma ArgsArriveIntact(command: bytes)
    ensures var text := AfterWord(SkipSpaces(command));
      var line := SkipSpaces(FirstLine(text));
      Parse(command).args == line <==> SPACE !in line && (line != [] || NEWLINE !in text)
  {
    TextArrives(AfterWord(SkipSpaces(command)));
  }

  /** "grep a b" */
  const TWO_ARGS: bytes := [103, 114, 101, 112, SPACE, 97, SPACE, 98]

  lemma Steps(c: byte, t: bytes)
    ensures c == SPACE ==> Squeezed([c] + t) == Squeezed(t)
    ensures c != SPACE && (t == [] || t[0] != NEWLINE) ==> Squeezed([c] + t) == [c] + Squeezed(t)
    ensures c != SPACE && c != NEWLINE ==> AfterWord([c] + t) == AfterWord(t)
  {
    assert ([c] + t)[1..] == t;
  }

  lemma TwoArgsText()
    ensures AfterWord(SkipSpaces(TWO_ARGS)) == [SPACE, 97, SPACE, 98]
  {
    var text: bytes := [SPACE, 97, SPACE, 98];
    assert TWO_ARGS == [103] + ([114] + ([101] + ([112] + text)));
    assert SkipSpaces(TWO_ARGS) == TWO_ARGS && AfterWord(text) == text;
    hide SkipSpaces, AfterWord, FirstWord, Squeezed;
    Steps(112, text);
    Steps(101, [112] + text);
    Steps(114, [101] + ([112] + text));
    Steps(103, [114] + ([101] + ([112] + text)));
  }

  /** Two arguments arrive as one. */
  lemma TwoArgsRunTogether()
    ensures AfterWord(SkipSpaces(TWO_ARGS)) == [SPACE, 97, SPACE, 98] && Parse(TWO_ARGS).args == [97, 98]
  {
    TwoArgsText();
    var text: bytes := [SPACE, 97, SPACE, 98];
    assert text == [SPACE] + ([97] + ([SPACE] + ([98] + [])));
    assert Squeezed([]) == [];
    hide SkipSpaces, AfterWord, FirstWord, Squeezed;
    Steps(98, []);
    Steps(SPACE, [98] + []);
    Steps(97, [SPACE] + ([98] + []));
    Steps(SPACE, [97] + ([SPACE] + ([98] + [])));
  }
}
