/** The emulation layer's own command line: an in-place splitter that fills an argument vector and a bounded
    joiner that rebuilds the argument string, and how they compare with the kernel. */
module Emulator {
  import opened Bytes
  import opened CStrings
  import opened StringTokens
  import opened Arguments

  const BREAK: set<byte> := {SPACE, NEWLINE}
  const COMMAND_LIMIT := 1023
  const DOT: byte := 46
  const SLASH: byte := 47

  // ---------- what the splitter finds ----------

  /** Where scanning resumes after a word that ends at `e`. */
  function Behind(text: seq<byte>, e: nat): (i: nat)
    requires e <= |text|
    ensures e <= i <= |text|
  {
    if e == |text| then e else e + 1
  }

  /** The arguments from position `i` on: separated by spaces or a newline, ended by a newline that no word
      stands directly in front of. */
  function ArgsFrom(text: seq<byte>, i: nat): seq<seq<byte>>
    requires i <= |text|
    decreases |text| - i
  {
    var b := WordStart(text, BLANK, i);
    if b == |text| || text[b] == NEWLINE then []
    else
      var e := WordEnd(text, BREAK, b);
      [text[b..e]] + ArgsFrom(text, Behind(text, e))
  }

  function ProgramLength(text: seq<byte>): nat {
    WordEnd(text, BREAK, 0)
  }

  /** The argument vector for a command: the program's path and its arguments. */
  function Argv(text: seq<byte>): seq<seq<byte>> {
    var e := ProgramLength(text);
    [[DOT, SLASH] + text[..e]] + ArgsFrom(text, Behind(text, e))
  }

  /** What the program receives when it asks for up to `nbytes` characters. */
  function EmulatorArgs(text: seq<byte>, nbytes: int): Option<seq<byte>> {
    var args := Join(Argv(text)[1..]);
    if nbytes < |args| + 1 then None else Some(args)
  }

  // ---------- comparison with the kernel ----------

  lemma {:induction false} SameWordEnd(text: seq<byte>, i: nat)
    requires i <= |text| && NEWLINE !in text
    ensures WordEnd(text, BREAK, i) == WordEnd(text, BLANK, i)
    decreases |text| - i
  {
    if i < |text| && text[i] !in BLANK {
      assert text[i] in text;
      SameWordEnd(text, i + 1);
    }
  }

  lemma {:induction false} SameArgs(text: seq<byte>, i: nat)
    requires i <= |text| && NEWLINE !in text
    ensures ArgsFrom(text, i) == TokensFrom(text, BLANK, i)
    decreases |text| - i
  {
    var b := WordStart(text, BLANK, i);
    if b < |text| {
      assert text[b] in text;
      SameWordEnd(text, b);
      var e := WordEnd(text, BLANK, b);
      SameArgs(text, Behind(text, e));
      SkipSeparator(text, e);
    }
  }

  lemma SkipSeparator(text: seq<byte>, e: nat)
    requires e <= |text| && (e < |text| ==> text[e] in BLANK)
    ensures TokensFrom(text, BLANK, Behind(text, e)) == TokensFrom(text, BLANK, e)
  {
  }

  /** A newline at the end of a command, right behind its last word or behind spaces, changes nothing. */
  lemma {:induction false} NewlineIgnored(text: seq<byte>, i: nat)
    requires i <= |text| && NEWLINE !in text
    ensures ArgsFrom(text + [NEWLINE], i) == ArgsFrom(text, i)
    ensures ArgsFrom(text + [NEWLINE], |text| + 1) == []
    decreases |text| - i
  {
    var b, longer := WordStart(text, BLANK, i), text + [NEWLINE];
    WordStartLonger(text, i);
    if b < |text| {
      assert text[b] in text;
      var e := WordEnd(text, BREAK, b);
      WordEndLonger(text, b);
      assert longer[b..e] == text[b..e];
      NewlineIgnored(text, Behind(text, e));
    }
  }

  lemma {:induction false} WordStartLonger(text: seq<byte>, i: nat)
    requires i <= |text|
    ensures WordStart(text + [NEWLINE], BLANK, i) == WordStart(text, BLANK, i)
    decreases |text| - i
  {
    if i < |text| && text[i] in BLANK {
      WordStartLonger(text, i + 1);
    }
  }

  lemma {:induction false} WordEndLonger(text: seq<byte>, i: nat)
    requires i <= |text|
    ensures WordEnd(text + [NEWLINE], BREAK, i) == WordEnd(text, BREAK, i)
    decreases |text| - i
  {
    if i < |text| && text[i] !in BREAK {
      WordEndLonger(text, i + 1);
    }
  }

  /** The splitter takes a command with a newline at its end for the command without it. */
  lemma TrailingNewline(text: seq<byte>)
    requires NEWLINE !in text
    ensures Argv(text + [NEWLINE]) == Argv(text)
  {
    var e := ProgramLength(text);
    WordEndLonger(text, 0);
    assert (text + [NEWLINE])[..e] == text[..e];
    NewlineIgnored(text, Behind(text, e));
  }

  lemma SameSplit(text: seq<byte>)
    requires text != [] && text[0] != SPACE && NEWLINE !in text
    ensures Argv(text)[0] == [46, 47] + Words(text)[0]
    ensures Argv(text)[1..] == Words(text)[1..]
    ensures Join(Argv(text)[1..]) == ArgString(text)
  {
    var e := ProgramLength(text);
    SameWordEnd(text, 0);
    assert Words(text) == [text[..e]] + TokensFrom(text, BLANK, e);
    SameArgs(text, Behind(text, e));
    SkipSeparator(text, e);
  }

  /** What a program receives that is executed by each system: nothing if its name is too long for the kernel or its
      command for the emulator, because then it is not started. */
  function FromKernel(text: seq<byte>, nbytes: int): Option<seq<byte>> {
    if NameOf(text) == None then None else KernelArgs(text, nbytes)
  }

  function FromEmulator(text: seq<byte>, nbytes: int): Option<seq<byte>> {
    if |text| > COMMAND_LIMIT then None else EmulatorArgs(text, nbytes)
  }

  /** For a newline-free command that starts with a word and whose argument string fits the kernel's buffer, this is
      exactly when an existing program receives the same from both systems. Within the limits of both there are two
      exceptions: a request for exactly as many characters as the arguments have, which the kernel grants and the
      emulator refuses, and a command without arguments, where the kernel always fails. Beyond a limit of one system
      they agree only where the other one gives nothing either. */
  lemma KernelAndEmulatorAgreeIff(text: seq<byte>, nbytes: int)
    requires text != [] && text[0] != SPACE && NEWLINE !in text && |ArgString(text)| < BUFFER_SIZE
    ensures FromKernel(text, nbytes) == FromEmulator(text, nbytes) <==>
            var n := |ArgString(text)|;
            var kernelNever := NameOf(text) == None || |Words(text)| == 1;
            if |text| > COMMAND_LIMIT then kernelNever || nbytes < n
            else if kernelNever then nbytes <= n
            else nbytes != n
  {
    SameSplit(text);
    WordsAreWords(text);
    if |Words(text)| > 1 {
      assert Words(text)[1..][0] == Words(text)[1] != [];
      JoinFits(text, 0);
      assert Join(Words(text)[1..]) != [];
    }
  }

  // ---------- the splitter ----------

  /** Words that have been cut out of the memory up to `scan`. */
  ghost predicate Parsed(mem: seq<byte>, args: seq<nat>, words: seq<seq<byte>>, scan: nat) {
    && |args| == |words|
    && forall n :: 0 <= n < |args| ==>
         Terminated(mem, args[n]) && CStr(mem, args[n]) == words[n] && StrEnd(mem, args[n]) <= scan
  }

  lemma TerminateBehind(mem: seq<byte>, p: nat, at: nat)
    requires Terminated(mem, p) && StrEnd(mem, p) <= at < |mem|
    ensures Terminated(mem[at := NUL], p) && StrEnd(mem[at := NUL], p) == StrEnd(mem, p)
    ensures CStr(mem[at := NUL], p) == CStr(mem, p)
  {
    StrEndIs(mem[at := NUL], p, StrEnd(mem, p));
  }

  lemma ParsedStable(mem: seq<byte>, args: seq<nat>, words: seq<seq<byte>>, scan: nat, at: nat)
    requires Parsed(mem, args, words, scan) && scan <= at < |mem|
    ensures Parsed(mem[at := NUL], args, words, at)
  {
    forall n | 0 <= n < |args|
      ensures Terminated(mem[at := NUL], args[n]) && CStr(mem[at := NUL], args[n]) == words[n]
      ensures StrEnd(mem[at := NUL], args[n]) <= at
    {
      TerminateBehind(mem, args[n], at);
    }
  }

  /** Writing NUL at `e` cuts out the word that starts at `b`. */
  lemma ParsedNext(mem: seq<byte>, args: seq<nat>, words: seq<seq<byte>>, scan: nat, b: nat, e: nat, scan': nat)
    requires Parsed(mem, args, words, scan) && scan <= b <= e < |mem| && e <= scan'
    requires forall i :: b <= i < e ==> mem[i] != NUL
    ensures Parsed(mem[e := NUL], args + [b], words + [mem[b..e]], scan')
  {
    ParsedStable(mem, args, words, scan, e);
    var mem' := mem[e := NUL];
    StrEndIs(mem', b, e);
    assert mem'[b..e] == mem[b..e];
  }

  const PATH := 2

  /** From `scan` on the buffer still holds the command behind the two path characters. */
  ghost predicate Unscanned(mem: seq<byte>, text: seq<byte>, scan: nat) {
    && PATH <= scan <= PATH + |text| < |mem|
    && (forall i :: scan <= i < PATH + |text| ==> mem[i] == text[i - PATH])
    && mem[PATH + |text|] == NUL
  }

  method SkipBlanks(buf: array<byte>, from: nat, ghost text: seq<byte>) returns (scan: nat)
    requires PATH <= from <= PATH + |text| && NUL !in text && Unscanned(buf[..], text, from)
    ensures scan == PATH + WordStart(text, BLANK, from - PATH)
    ensures from <= scan < buf.Length && Unscanned(buf[..], text, scan)
  {
    scan := from;
    while buf[scan] == SPACE
      invariant from <= scan <= PATH + |text|
      invariant WordStart(text, BLANK, scan - PATH) == WordStart(text, BLANK, from - PATH)
      decreases PATH + |text| - scan
    {
      scan := scan + 1;
    }
  }

  method SkipWord(buf: array<byte>, from: nat, ghost text: seq<byte>) returns (scan: nat)
    requires PATH <= from <= PATH + |text| && NUL !in text && Unscanned(buf[..], text, from)
    ensures scan == PATH + WordEnd(text, BREAK, from - PATH)
    ensures from <= scan < buf.Length && Unscanned(buf[..], text, scan)
    ensures buf[from..scan] == text[from - PATH..scan - PATH]
    ensures forall i :: from <= i < scan ==> buf[i] != NUL
    ensures buf[scan] == NUL <==> scan == PATH + |text|
  {
    scan := from;
    while buf[scan] != NUL && buf[scan] != SPACE && buf[scan] != NEWLINE
      invariant from <= scan <= PATH + |text|
      invariant WordEnd(text, BREAK, scan - PATH) == WordEnd(text, BREAK, from - PATH)
      invariant forall i :: from <= i < scan ==> buf[i] != NUL && buf[i] == text[i - PATH]
      decreases PATH + |text| - scan
    {
      scan := scan + 1;
    }
    assert scan < PATH + |text| ==> text[scan - PATH] in text;
  }

  /** The splitting loop has found `words`; the words still to be found are those of `text` from `i` on. */
  ghost predicate Splitting(mem: seq<byte>, text: seq<byte>, args: seq<nat>, words: seq<seq<byte>>, i: nat) {
    && i <= |text|
    && Unscanned(mem, text, PATH + i) && Parsed(mem, args, words, PATH + i)
    && Argv(text) == words + ArgsFrom(text, i)
  }

  lemma ArgvNext(text: seq<byte>, words: seq<seq<byte>>, i: nat)
    requires i <= |text| && Argv(text) == words + ArgsFrom(text, i)
    ensures var b := WordStart(text, BLANK, i);
            if b == |text| || text[b] == NEWLINE then Argv(text) == words
            else var e := WordEnd(text, BREAK, b);
                 Argv(text) == (words + [text[b..e]]) + ArgsFrom(text, Behind(text, e))
  {
  }

  /** One argument, if there is one; `done` when the vector is complete. */
  method SplitNext(buf: array<byte>, scan: nat, args: seq<nat>, ghost text: seq<byte>, ghost words: seq<seq<byte>>)
    returns (scan': nat, args': seq<nat>, ghost words': seq<seq<byte>>, done: bool)
    requires NUL !in text && scan >= PATH && Splitting(buf[..], text, args, words, scan - PATH)
    modifies buf
    ensures done ==> words' == Argv(text) && Parsed(buf[..], args', words', buf.Length)
    ensures scan' >= scan
    ensures !done ==> scan' > scan && Splitting(buf[..], text, args', words', scan' - PATH)
  {
    ghost var before := buf[..];
    ArgvNext(text, words, scan - PATH);
    var b := SkipBlanks(buf, scan, text);
    scan', args', words', done := b, args, words, false;
    if buf[b] == NUL || buf[b] == NEWLINE {
      buf[b] := NUL;
      ParsedStable(before, args, words, scan, b);
      assert b < PATH + |text| ==> text[b - PATH] in text;
      done := true;
      return;
    }
    scan', args', words' := CutArg(buf, scan, b, args, text, words);
  }

  /** Cuts the argument that starts at `b` out of the buffer. */
  method CutArg(buf: array<byte>, ghost scan: nat, b: nat, args: seq<nat>, ghost text: seq<byte>,
                ghost words: seq<seq<byte>>)
    returns (scan': nat, args': seq<nat>, ghost words': seq<seq<byte>>)
    requires NUL !in text && PATH <= scan <= b < PATH + |text| && text[b - PATH] !in BREAK
    requires Unscanned(buf[..], text, b) && Parsed(buf[..], args, words, scan)
    modifies buf
    ensures scan' == PATH + Behind(text, WordEnd(text, BREAK, b - PATH)) > b
    ensures words' == words + [text[b - PATH..WordEnd(text, BREAK, b - PATH)]]
    ensures Unscanned(buf[..], text, scan') && Parsed(buf[..], args', words', scan')
  {
    ghost var before := buf[..];
    var e := SkipWord(buf, b, text);
    args', words' := args + [b], words + [buf[b..e]];
    if buf[e] != NUL {
      buf[e] := NUL;
      scan' := e + 1;
    } else {
      scan' := e;
      assert before[e := NUL] == before;
    }
    ParsedNext(before, args, words, scan, b, e, scan');
  }

  /** Splits a command; fails only when it is too long. */
  method Split(command: array<byte>, c: nat, buf: array<byte>, ghost text: seq<byte>)
    returns (ok: bool, args: seq<nat>)
    requires command != buf && buf.Length == COMMAND_LIMIT + 3
    requires Terminated(command[..], c) && CStr(command[..], c) == text
    modifies buf
    ensures ok == (|text| <= COMMAND_LIMIT)
    ensures ok ==> Parsed(buf[..], args, Argv(text), buf.Length)
  {
    args := [];
    var len := StrLen(command, c);
    if COMMAND_LIMIT < len {
      return false, args;
    }
    buf[0], buf[1] := DOT, SLASH;
    StrCpy(buf, PATH, command, c);
    assert Unscanned(buf[..], text, PATH);
    var scan: nat;
    ghost var words;
    scan, args, words := SplitProgram(buf, text);
    var done := false;
    while !done
      invariant !done ==> scan >= PATH && Splitting(buf[..], text, args, words, scan - PATH)
      invariant done ==> words == Argv(text) && Parsed(buf[..], args, words, buf.Length)
      decreases PATH + |text| - scan + if done then 0 else 1
    {
      scan, args, words, done := SplitNext(buf, scan, args, text, words);
    }
    return true, args;
  }

  /** The program name, with the path in front of it. */
  method SplitProgram(buf: array<byte>, ghost text: seq<byte>)
    returns (scan: nat, args: seq<nat>, ghost words: seq<seq<byte>>)
    requires NUL !in text && Unscanned(buf[..], text, PATH) && buf[0] == DOT && buf[1] == SLASH
    modifies buf
    ensures scan >= PATH && Splitting(buf[..], text, args, words, scan - PATH)
  {
    ghost var before := buf[..];
    var e := SkipWord(buf, PATH, text);
    args, words := [0], [buf[..e]];
    assert buf[..e] == [DOT, SLASH] + buf[PATH..e];
    if buf[e] != NUL {
      buf[e] := NUL;
      scan := e + 1;
    } else {
      scan := e;
      assert before[e := NUL] == before;
    }
    ParsedNext(before, [], [], 0, 0, e, scan);
    assert [] + [0] == args && [] + [before[0..e]] == words;
  }

  // ---------- the joiner ----------

  /** The first `n` words with a space behind each, except behind the very last one. */
  ghost function Written(words: seq<seq<byte>>, n: nat): seq<byte>
    requires n <= |words|
  {
    if n == 0 then [] else Join(words[..n]) + if n == |words| then [] else [SPACE]
  }

  lemma WrittenNext(words: seq<seq<byte>>, n: nat)
    requires n < |words|
    ensures Written(words, n) + words[n] + (if n + 1 == |words| then [] else [SPACE]) == Written(words, n + 1)
  {
    assert words[..n + 1] == words[..n] + [words[n]];
    JoinLast(words[..n], words[n]);
  }

  lemma {:induction false} WrittenFits(words: seq<seq<byte>>, n: nat)
    requires n <= |words|
    ensures |Written(words, n)| <= |Join(words)|
    ensures n == |words| ==> Written(words, n) == Join(words)
    decreases |words| - n
  {
    if n == |words| {
      assert words[..n] == words;
    } else {
      WrittenNext(words, n);
      WrittenFits(words, n + 1);
    }
  }

  /** Copies one argument to the end of the output. */
  method PutArgument(mem: array<byte>, arg: nat, buf: array<byte>, at: nat, ghost before: seq<byte>)
    returns (at': nat)
    requires buf != mem && Terminated(mem[..], arg) && at + |CStr(mem[..], arg)| < buf.Length && buf[..at] == before
    modifies buf
    ensures at' == at + |old(CStr(mem[..], arg))| && buf[..at'] == before + old(CStr(mem[..], arg))
  {
    var len := StrLen(mem, arg);
    ghost var was, w := buf[..], CStr(mem[..], arg);
    StrCpy(buf, at, mem, arg);
    at' := at + len;
    assert Put(was, at, w + [NUL])[..at'] == was[..at] + w;
  }

  /** One argument and, if more follow, a space; fails when the room runs out. */
  method PutNext(mem: array<byte>, arg: nat, buf: array<byte>, at: nat, nbytes: int, more: bool,
                 ghost words: seq<seq<byte>>, ghost n: nat)
    returns (ok: bool, at': nat)
    requires buf != mem && nbytes < buf.Length && (at <= nbytes || at == 0)
    requires n < |words| && more == (n + 1 < |words|)
    requires Terminated(mem[..], arg) && CStr(mem[..], arg) == words[n]
    requires at == |Written(words, n)| <= buf.Length && buf[..at] == Written(words, n)
    modifies buf
    ensures ok ==> at' == |Written(words, n + 1)| <= nbytes && buf[..at'] == Written(words, n + 1)
    ensures !ok ==> nbytes < |Written(words, n + 1)|
  {
    WrittenNext(words, n);
    ok, at' := false, at;
    var len := StrLen(mem, arg);
    if len > nbytes - at {
      return;
    }
    at' := PutArgument(mem, arg, buf, at, Written(words, n));
    if more {
      if nbytes - at' < 1 {
        return;
      }
      buf[at'] := SPACE;
      at' := at' + 1;
    }
    ok := true;
  }

  /** Joins the arguments within `nbytes` bytes, terminator included. The string copy stores its terminator before
      the remaining room is looked at, so the buffer itself is one byte longer than the bound. */
  method GetArgs(mem: array<byte>, args: seq<nat>, buf: array<byte>, nbytes: int, ghost words: seq<seq<byte>>)
    returns (rc: int)
    requires buf != mem && nbytes < buf.Length && |args| > 0
    requires Parsed(mem[..], args, words, mem.Length)
    modifies buf
    ensures rc == if nbytes < |Join(words[1..])| + 1 then -1 else 0
    ensures rc == 0 ==> Terminated(buf[..], 0) && CStr(buf[..], 0) == Join(words[1..])
  {
    ghost var rest := words[1..];
    var idx, at := 1, 0;
    while idx < |args|
      invariant 1 <= idx <= |args|
      invariant at == |Written(rest, idx - 1)| <= buf.Length && buf[..at] == Written(rest, idx - 1)
      invariant at <= nbytes || (at == 0 && nbytes < 0)
    {
      assert words[idx] == rest[idx - 1];
      WrittenFits(rest, idx);
      var ok;
      ok, at := PutNext(mem, args[idx], buf, at, nbytes, idx + 1 < |args|, rest, idx - 1);
      if !ok {
        return -1;
      }
      idx := idx + 1;
    }
    WrittenFits(rest, |rest|);
    if nbytes - at < 1 {
      return -1;
    }
    ParsedNulFree(mem[..], args, words);
    Terminate(buf, at, Join(rest));
    return 0;
  }

  method Terminate(buf: array<byte>, at: nat, ghost text: seq<byte>)
    requires at < buf.Length && buf[..at] == text && NUL !in text
    modifies buf
    ensures Terminated(buf[..], 0) && CStr(buf[..], 0) == text
  {
    buf[at] := NUL;
    assert forall i :: 0 <= i < at ==> buf[i] == text[i] && text[i] in text;
    StrEndIs(buf[..], 0, at);
  }

  lemma ParsedNulFree(mem: seq<byte>, args: seq<nat>, words: seq<seq<byte>>)
    requires Parsed(mem, args, words, |mem|) && |args| > 0
    ensures NUL !in Join(words[1..])
  {
    forall n | 0 <= n < |words[1..]|
      ensures NUL !in words[1..][n]
    {
      assert words[1..][n] == words[n + 1] == CStr(mem, args[n + 1]);
    }
    JoinNulFree(words[1..]);
  }

  lemma {:induction false} JoinNulFree(words: seq<seq<byte>>)
    requires forall n :: 0 <= n < |words| ==> NUL !in words[n]
    ensures NUL !in Join(words)
  {
    if |words| > 1 {
      JoinNulFree(words[1..]);
    }
  }
}
