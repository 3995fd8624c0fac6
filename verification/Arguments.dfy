/** Command lines: how execute splits a command into a program name and one argument string, and how getargs
    hands that string to the program. */
module Arguments {
  import opened Bytes
  import opened CStrings
  import opened StringTokens

  const BLANK: set<byte> := {SPACE}
  const NAME_LIMIT := 31
  const BUFFER_SIZE := 128

  /** Words separated by single spaces. */
  function Join(words: seq<seq<byte>>): seq<byte> {
    if words == [] then []
    else if |words| == 1 then words[0]
    else words[0] + [SPACE] + Join(words[1..])
  }

  /** Words separated by single spaces, growing at the end. */
  lemma {:induction false} JoinLast(words: seq<seq<byte>>, w: seq<byte>)
    ensures Join(words + [w]) == if words == [] then w else Join(words) + [SPACE] + w
  {
    if |words| == 1 {
      assert (words + [w])[1..] == [w];
    } else if |words| > 1 {
      assert (words + [w])[1..] == words[1..] + [w];
      JoinLast(words[1..], w);
    }
  }

  function Words(command: seq<byte>): seq<seq<byte>> {
    Tokens(command, BLANK)
  }

  /** The argument string of a command: all words but the first. */
  function ArgString(command: seq<byte>): seq<byte> {
    if Words(command) == [] then [] else Join(Words(command)[1..])
  }

  // ---------- properties of the argument string ----------

  ghost predicate AllWords(words: seq<seq<byte>>) {
    forall n :: 0 <= n < |words| ==> IsWord(words[n], BLANK)
  }

  lemma WordsAreWords(command: seq<byte>)
    ensures AllWords(Words(command))
  {
    forall n | 0 <= n < |Words(command)|
      ensures IsWord(Words(command)[n], BLANK)
    {
      TokensAreWords(command, BLANK, n);
    }
  }

  /** A word at the front of a text is its first token. */
  lemma FrontWord(w: seq<byte>, rest: seq<byte>)
    requires IsWord(w, BLANK) && (rest != [] ==> rest[0] == SPACE)
    ensures Tokens(w + rest, BLANK) == [w] + TokensFrom(w + rest, BLANK, |w|)
    ensures Tokens(w + rest, BLANK) == [w] + if rest == [] then [] else Tokens(rest[1..], BLANK)
  {
    var text := w + rest;
    assert forall i :: 0 <= i < |w| ==> text[i] == w[i];
    WordEndIs(text, BLANK, 0, |w|);
    assert text[..|w|] == w;
    if rest != [] {
      TailTokens(text, BLANK, |w|);
      assert text[|w| + 1..] == rest[1..];
    }
  }

  /** A joined text is its first word and, if there are more words, a space and the others joined. */
  lemma JoinFront(words: seq<seq<byte>>)
    requires words != [] && AllWords(words)
    ensures Words(Join(words)) == [words[0]] + if |words| == 1 then [] else Words(Join(words[1..]))
  {
    var rest := if |words| == 1 then [] else [SPACE] + Join(words[1..]);
    assert Join(words) == words[0] + rest;
    FrontWord(words[0], rest);
    assert |words| > 1 ==> rest[1..] == Join(words[1..]);
  }

  /** Splitting what was joined gives the same words. */
  lemma {:induction false} JoinSplits(words: seq<seq<byte>>)
    requires AllWords(words)
    ensures Words(Join(words)) == words
  {
    if words != [] {
      JoinFront(words);
      JoinSplits(words[1..]);
      assert words == [words[0]] + words[1..];
    }
  }

  /** Re-splitting the argument string gives exactly the arguments. */
  lemma ArgStringRoundTrip(command: seq<byte>)
    ensures Words(ArgString(command)) == if Words(command) == [] then [] else Words(command)[1..]
  {
    WordsAreWords(command);
    if Words(command) != [] {
      JoinSplits(Words(command)[1..]);
    }
  }

  lemma {:induction false} JoinFits(text: seq<byte>, i: nat)
    requires i <= |text|
    ensures |Join(TokensFrom(text, BLANK, i))| <= |text| - i
    ensures i < |text| && text[i] in BLANK && TokensFrom(text, BLANK, i) != [] ==>
              |Join(TokensFrom(text, BLANK, i))| < |text| - i
    decreases |text| - i
  {
    var b := WordStart(text, BLANK, i);
    if b < |text| {
      var e := WordEnd(text, BLANK, b);
      JoinFits(text, e);
      assert TokensFrom(text, BLANK, i)[1..] == TokensFrom(text, BLANK, e);
    }
  }

  /** Joining never makes a text longer, and dropping the program name makes room for the terminator: a command
      of up to 129 characters leaves an argument string that fits 128 bytes and an 8-bit count. */
  lemma ArgStringFits(command: seq<byte>)
    ensures ArgString(command) != [] ==> |ArgString(command)| + 2 <= |command|
    ensures |command| <= 129 ==> |ArgString(command)| < 128
  {
    var words := Words(command);
    if words != [] {
      JoinFits(command, 0);
      WordsAreWords(command);
      assert |words| > 1 ==> |Join(words)| == |words[0]| + 1 + |Join(words[1..])|;
    }
  }

  // ---------- execute ----------

  /** The state of the argument loop: the buffer holds the words so far, joined and terminated. */
  ghost predicate Built(buffer: seq<byte>, words: seq<seq<byte>>) {
    |Join(words)| < |buffer| && NUL !in Join(words) && buffer[..|Join(words)| + 1] == Join(words) + [NUL]
  }

  lemma BuiltIsCStr(buffer: seq<byte>, words: seq<seq<byte>>)
    requires Built(buffer, words)
    ensures Terminated(buffer, 0) && CStr(buffer, 0) == Join(words)
  {
    var j := Join(words);
    assert forall i :: 0 <= i < |j| ==> buffer[i] == (j + [NUL])[i] && j[i] in j;
    assert buffer[|j|] == (j + [NUL])[|j|];
    StrEndIs(buffer, 0, |j|);
    assert buffer[0..|j|] == j;
  }

  lemma {:induction false} JoinPrefix(a: seq<seq<byte>>, b: seq<seq<byte>>)
    ensures |Join(a)| <= |Join(a + b)|
  {
    if a == [] {
    } else if |a| == 1 && b == [] {
      assert a + b == a;
    } else {
      assert (a + b)[1..] == a[1..] + b;
      JoinPrefix(a[1..], b);
    }
  }

  /** Appends one word to the buffer, after a space unless it is the first; `len` is the write position. */
  method AppendWord(buffer: array<byte>, len: nat, mem: array<byte>, token: nat, ghost words: seq<seq<byte>>)
    returns (len': nat)
    requires buffer != mem && Built(buffer[..], words) && len == |Join(words)| && (len == 0 <==> words == [])
    requires Terminated(mem[..], token) && CStr(mem[..], token) != []
    requires |Join(words + [CStr(mem[..], token)])| < buffer.Length
    modifies buffer
    ensures len' == |Join(words + [old(CStr(mem[..], token))])| > 0
    ensures Built(buffer[..], words + [old(CStr(mem[..], token))])
  {
    ghost var w := CStr(mem[..], token);
    JoinLast(words, w);
    len' := len;
    if len' != 0 {
      buffer[len'], buffer[len' + 1] := SPACE, NUL;
      len' := len' + 1;
    }
    ghost var before := buffer[..];
    assert before[..len'] == if words == [] then [] else Join(words) + [SPACE];
    var n := StrLen(mem, token);
    StrCpy(buffer, len', mem, token);
    PutBehind(before, len', w);
    len' := len' + n;
  }

  lemma PutBehind(mem: seq<byte>, at: nat, w: seq<byte>)
    requires at + |w| < |mem|
    ensures Put(mem, at, w + [NUL])[..at + |w| + 1] == mem[..at] + w + [NUL]
  {
  }

  /** `token` is the next of the words in `rest`, and the tokenizer will deliver the others. */
  ghost predicate Pending(token: Option<nat>, last: Option<nat>, mem: seq<byte>, rest: seq<seq<byte>>) {
    && (token == None <==> rest == [])
    && (token != None ==>
          Terminated(mem, token.value) && CStr(mem, token.value) == rest[0] && Remaining(last, mem, BLANK, rest[1..]))
  }

  method NextWord(t: Tokenizer, mem: array<byte>, ghost rest: seq<seq<byte>>) returns (token: Option<nat>)
    requires Remaining(t.last, mem[..], BLANK, rest)
    modifies t, mem
    ensures Pending(token, t.last, mem[..], rest)
  {
    token := t.StrTok(mem, None, BLANK);
  }

  lemma NextDone(words: seq<seq<byte>>, done: seq<seq<byte>>, rest: seq<seq<byte>>)
    requires words == done + rest && rest != [] && AllWords(words)
    ensures (done + [rest[0]]) + rest[1..] == words && rest[0] != []
    ensures |Join(done + [rest[0]])| <= |Join(words)|
  {
    assert words[|done|] == rest[0];
    assert (done + [rest[0]]) + rest[1..] == words;
    JoinPrefix(done + [rest[0]], rest[1..]);
  }

  /** The argument loop: every remaining word of the command goes into the buffer. */
  method BuildArgs(t: Tokenizer, mem: array<byte>, buffer: array<byte>, ghost words: seq<seq<byte>>)
    requires mem != buffer && buffer.Length > 0
    requires Remaining(t.last, mem[..], BLANK, words) && AllWords(words) && |Join(words)| < buffer.Length
    modifies t, mem, buffer
    ensures Built(buffer[..], words)
  {
    buffer[0] := NUL;
    var len := 0;
    ghost var done: seq<seq<byte>>, rest := [], words;
    var token := NextWord(t, mem, rest);
    while token != None
      invariant words == done + rest
      invariant Built(buffer[..], done) && len == |Join(done)| && (len == 0 <==> done == [])
      invariant Pending(token, t.last, mem[..], rest)
      decreases |rest|
    {
      NextDone(words, done, rest);
      len := AppendWord(buffer, len, mem, token.value, done);
      done, rest := done + [rest[0]], rest[1..];
      token := NextWord(t, mem, rest);
    }
    assert done == words;
  }

  /** What execute takes from a command: no name if there is no word or the first one is too long for a file
      name; otherwise the name, and the argument string in the buffer with its length as an 8-bit count. */
  method SplitCommand(t: Tokenizer, mem: array<byte>, command: nat, buffer: array<byte>, ghost text: seq<byte>)
    returns (name: Option<seq<byte>>, count: byte)
    requires mem != buffer && buffer.Length == BUFFER_SIZE
    requires Terminated(mem[..], command) && CStr(mem[..], command) == text && |ArgString(text)| < BUFFER_SIZE
    modifies t, mem, buffer
    ensures name == NameOf(text)
    ensures name.Some? ==> Terminated(buffer[..], 0) && CStr(buffer[..], 0) == ArgString(text)
                           && count as int == |ArgString(text)|
  {
    count := 0;
    var token := FirstWord(t, mem, command, text);
    name := CopyName(mem, token, t, Words(text));
    if name.Some? {
      WordsAreWords(text);
      count := FillArgs(t, mem, buffer, Words(text)[1..]);
    }
  }

  /** The file name, if there is a word and it is short enough. */
  method CopyName(mem: array<byte>, token: Option<nat>, t: Tokenizer, ghost words: seq<seq<byte>>)
    returns (name: Option<seq<byte>>)
    requires Pending(token, t.last, mem[..], words)
    ensures name == if words == [] || |words[0]| >= NAME_LIMIT then None else Some(words[0])
  {
    if token == None {
      return None;
    }
    var len := StrLen(mem, token.value);
    if len >= NAME_LIMIT {
      return None;
    }
    return Some(mem[token.value..token.value + len]);
  }

  method FirstWord(t: Tokenizer, mem: array<byte>, command: nat, ghost text: seq<byte>) returns (token: Option<nat>)
    requires Terminated(mem[..], command) && CStr(mem[..], command) == text
    modifies t, mem
    ensures Pending(token, t.last, mem[..], Words(text))
  {
    token := t.StrTok(mem, Some(command), BLANK);
  }

  /** The argument loop and the 8-bit length of its result. */
  method FillArgs(t: Tokenizer, mem: array<byte>, buffer: array<byte>, ghost words: seq<seq<byte>>)
    returns (count: byte)
    requires mem != buffer && buffer.Length == BUFFER_SIZE
    requires Remaining(t.last, mem[..], BLANK, words) && AllWords(words) && |Join(words)| < BUFFER_SIZE
    modifies t, mem, buffer
    ensures Terminated(buffer[..], 0) && CStr(buffer[..], 0) == Join(words) && count as int == |Join(words)|
  {
    BuildArgs(t, mem, buffer, words);
    BuiltIsCStr(buffer[..], words);
    var n := StrLen(buffer, 0);
    count := n % 0x100;
  }

  function NameOf(command: seq<byte>): Option<seq<byte>> {
    if Words(command) == [] || |Words(command)[0]| >= NAME_LIMIT then None else Some(Words(command)[0])
  }

  // ---------- getargs ----------

  /** What the program receives when it asks for up to `nbytes` characters. */
  function KernelArgs(command: seq<byte>, nbytes: int): Option<seq<byte>> {
    var args := ArgString(command);
    if args == [] || nbytes < |args| then None else Some(args)
  }

  /** A program gets its arguments exactly if there are any and it asks for at least as many characters as they have;
      split again, they are the words behind its name. */
  lemma AnswerIsArguments(command: seq<byte>, nbytes: int)
    ensures var answer := KernelArgs(command, nbytes);
            && (answer.Some? <==> |Words(command)| > 1 && nbytes >= |ArgString(command)|)
            && (answer.Some? ==> answer.value != [] && Words(answer.value) == Words(command)[1..])
  {
    WordsAreWords(command);
    ArgStringRoundTrip(command);
  }

  /** The caller's buffer needs room for the terminator behind the counted characters. */
  method GetArgs(arg: array<byte>, count: byte, buf: array<byte>, nbytes: int, ghost command: seq<byte>)
    returns (rc: int)
    requires arg != buf && Terminated(arg[..], 0) && CStr(arg[..], 0) == ArgString(command)
    requires count as int == |ArgString(command)| < buf.Length
    modifies buf
    ensures rc == if KernelArgs(command, nbytes) == None then -1 else 0
    ensures rc == 0 ==> buf[..] == Put(old(buf[..]), 0, KernelArgs(command, nbytes).value + [NUL])
    ensures rc == -1 ==> buf[..] == old(buf[..])
  {
    if arg[0] == NUL {
      return -1;
    }
    if nbytes < count as int {
      return -1;
    }
    StrCpy(buf, 0, arg, 0);
    return 0;
  }
}
