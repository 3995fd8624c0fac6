/** The line editor: keys are collected in a buffer and echoed on the console, and the two never drift apart. */
module LineEditor {
  import opened Bytes
  import opened Console

  const ASCII_MIN := 0x20
  const ASCII_MAX := 0x7E

  // ---------- what the keys mean ----------

  /** The line typed so far, whether the screen has been cleared, whether the line is complete. */
  datatype Editor = Editor(line: seq<byte>, cleared: bool, entered: bool)

  const FRESH := Editor([], false, false)

  predicate Printable(c: byte) {
    ASCII_MIN <= c <= ASCII_MAX
  }

  function Press(e: Editor, max: nat, key: byte): Editor {
    var c: byte := key % 0x80;
    if e.entered then e
    else if c == NEWLINE || c == RETURN then e.(entered := true)
    else if c == BACKSPACE || c == DELETE then
      if e.line == [] then e else e.(line := e.line[..|e.line| - 1])
    else if c == FORM_FEED then e.(line := [], cleared := true)
    else if |e.line| >= max || !Printable(c) then e
    else e.(line := e.line + [c])
  }

  function PressAll(max: nat, keys: seq<byte>): Editor {
    if keys == [] then FRESH else Press(PressAll(max, keys[..|keys| - 1]), max, keys[|keys| - 1])
  }

  ghost predicate GoodLine(line: seq<byte>, max: nat) {
    |line| <= max && forall i :: 0 <= i < |line| ==> Printable(line[i])
  }

  lemma {:induction false} PressAllGood(max: nat, keys: seq<byte>)
    ensures GoodLine(PressAll(max, keys).line, max)
  {
    if keys != [] {
      PressAllGood(max, keys[..|keys| - 1]);
    }
  }

  /** Typing up to `max` characters between space and tilde and then enter yields just these characters. */
  lemma {:induction false} TypedLine(max: nat, line: seq<byte>)
    requires |line| <= max && forall i :: 0 <= i < |line| ==> 0x20 <= line[i] <= 0x7E
    ensures PressAll(max, line) == Editor(line, false, false)
    ensures PressAll(max, line + [10]) == Editor(line, false, true) == PressAll(max, line + [13])
  {
    if line != [] {
      var m := |line| - 1;
      TypedLine(max, line[..m]);
      assert line[..m] + [line[m]] == line;
      PressLast(max, line[..m], line[m]);
      PressTyped(line[..m], max, line[m]);
    }
    PressLast(max, line, 10);
    PressLast(max, line, 13);
  }

  lemma PressTyped(line: seq<byte>, max: nat, c: byte)
    requires |line| < max && 0x20 <= c <= 0x7E
    ensures Press(Editor(line, false, false), max, c) == Editor(line + [c], false, false)
  {
  }

  /** What the other keys do: backspace and delete take back one character, form feed all of them and the screen;
      any other character, and any character when the line is full, is ignored. The eighth bit does not matter. */
  lemma OtherKeys(e: Editor, max: nat, key: byte)
    requires !e.entered
    ensures Press(e, max, key) == Press(e, max, key % 128)
    ensures key in {8, 127} ==>
              Press(e, max, key) == e.(line := if e.line == [] then [] else e.line[..|e.line| - 1])
    ensures key == 12 ==> Press(e, max, key) == Editor([], true, false)
    ensures key < 32 && key !in {8, 10, 12, 13} ==> Press(e, max, key) == e
    ensures 32 <= key < 127 && |e.line| >= max ==> Press(e, max, key) == e
  {
  }

  // ---------- the echo ----------

  /** The rows that the echo starts from: those before the call, or a cleared screen. */
  function Base(before: seq<seq<byte>>, cleared: bool): (r: seq<seq<byte>>)
    requires before != []
    ensures r != []
  {
    if cleared then [[]] else before
  }

  /** The text shows exactly what was there before the line, followed by the line, and the screen still shows
      the row in which the line starts. */
  ghost predicate Echoed(t: Text, before: seq<seq<byte>>, e: Editor) {
    && t.Good() && GoodRows(before)
    && t.rows == WriteLine(Base(before, e.cleared), e.line)
    && t.top < |Base(before, e.cleared)|
  }

  /** The line can never push its first row off the screen. */
  ghost predicate Fits(before: seq<seq<byte>>, max: nat) {
    before != [] && |before[|before| - 1]| + max < CELLS
  }

  lemma EchoChar(t: Text, before: seq<seq<byte>>, e: Editor, max: nat, c: byte)
    requires Echoed(t, before, e) && Fits(before, max) && |e.line| < max && Printable(c)
    ensures Echoed(Put(t, c), before, e.(line := e.line + [c]))
  {
    var base := Base(before, e.cleared);
    var line' := e.line + [c];
    assert line'[..|e.line|] == e.line;
    PutGood(t, c);
    WriteLineExtent(base, line');
  }

  lemma NotAtCorner(t: Text, before: seq<seq<byte>>, e: Editor)
    requires Echoed(t, before, e) && e.line != []
    ensures !AtCorner(t)
  {
    WriteLineExtent(Base(before, e.cleared), e.line);
  }

  lemma WriteLineErased(rows: seq<seq<byte>>, line: seq<byte>)
    requires GoodRows(rows) && line != []
    ensures Erase(WriteLine(rows, line)) == WriteLine(rows, line[..|line| - 1])
  {
    WriteLineGood(rows, line[..|line| - 1]);
    EraseUndoesAdd(WriteLine(rows, line[..|line| - 1]), line[|line| - 1]);
  }

  /** A backspace takes back the last character of the line, and never meets the top left corner. */
  lemma EchoErase(t: Text, before: seq<seq<byte>>, e: Editor)
    requires Echoed(t, before, e) && e.line != []
    ensures !AtCorner(t)
    ensures Echoed(Put(t, BACKSPACE), before, e.(line := e.line[..|e.line| - 1]))
  {
    NotAtCorner(t, before, e);
    PutGood(t, BACKSPACE);
    WriteLineErased(Base(before, e.cleared), e.line);
  }

  lemma {:induction false} WriteLineGood(rows: seq<seq<byte>>, line: seq<byte>)
    requires GoodRows(rows)
    ensures GoodRows(WriteLine(rows, line))
  {
    if line != [] {
      WriteLineGood(rows, line[..|line| - 1]);
    }
  }

  // ---------- what the loop shows ----------

  /** What one key shows on the console. */
  function Echo(t: Text, e: Editor, max: nat, key: byte): (r: Text)
    requires t.rows != []
    ensures r.rows != []
  {
    var c: byte := key % 0x80;
    if e.entered then t
    else if LineBreak(c) then Put(t, NEWLINE)
    else if c == BACKSPACE || c == DELETE then if e.line == [] then t else Put(t, BACKSPACE)
    else if c == FORM_FEED then EMPTY
    else if |e.line| >= max || !Printable(c) then t
    else Put(t, c)
  }

  function EchoAll(t: Text, max: nat, keys: seq<byte>): (r: Text)
    requires t.rows != []
    ensures r.rows != []
  {
    if keys == [] then t
    else
      var init := keys[..|keys| - 1];
      Echo(EchoAll(t, max, init), PressAll(max, init), max, keys[|keys| - 1])
  }

  lemma PressLast(max: nat, init: seq<byte>, key: byte)
    ensures PressAll(max, init + [key]) == Press(PressAll(max, init), max, key)
  {
    assert (init + [key])[..|init + [key]| - 1] == init;
  }

  lemma EchoLast(t: Text, max: nat, init: seq<byte>, key: byte)
    requires t.rows != []
    ensures EchoAll(t, max, init + [key]) == Echo(EchoAll(t, max, init), PressAll(max, init), max, key)
  {
    assert (init + [key])[..|init + [key]| - 1] == init;
  }

  lemma NextKey(t: Text, max: nat, keys: seq<byte>, i: nat)
    requires t.rows != [] && i < |keys|
    ensures PressAll(max, keys[..i + 1]) == Press(PressAll(max, keys[..i]), max, keys[i])
    ensures EchoAll(t, max, keys[..i + 1]) == Echo(EchoAll(t, max, keys[..i]), PressAll(max, keys[..i]), max, keys[i])
  {
    assert keys[..i + 1] == keys[..i] + [keys[i]];
    PressLast(max, keys[..i], keys[i]);
    EchoLast(t, max, keys[..i], keys[i]);
  }

  /** The rows that should be visible: those from before the call, or none after a clear, then the line. */
  function Expected(before: seq<seq<byte>>, e: Editor): seq<seq<byte>>
    requires before != []
  {
    WriteLine(Base(before, e.cleared), e.line) + if e.entered then [[]] else []
  }

  ghost predicate InStep(t: Text, before: seq<seq<byte>>, e: Editor) {
    && before != [] && t.rows == Expected(before, e)
    && (!e.entered ==> Echoed(t, before, e))
  }

  lemma PutBreak(t: Text)
    requires t.rows != []
    ensures Put(t, NEWLINE).rows == t.rows + [[]]
  {
  }

  /** Every key changes the line and the text in the same way. */
  lemma KeyInStep(t: Text, before: seq<seq<byte>>, e: Editor, max: nat, key: byte)
    requires InStep(t, before, e) && Fits(before, max) && GoodLine(e.line, max)
    ensures InStep(Echo(t, e, max, key), before, Press(e, max, key))
  {
    var c: byte := key % 0x80;
    if e.entered {
    } else if LineBreak(c) {
      PutBreak(t);
    } else if (c == BACKSPACE || c == DELETE) && e.line != [] {
      EchoErase(t, before, e);
    } else if Printable(c) && |e.line| < max {
      EchoChar(t, before, e, max, c);
    }
  }

  lemma {:induction false} EveryKeyInStep(t: Text, max: nat, keys: seq<byte>)
    requires t.Good() && Fits(t.rows, max)
    ensures InStep(EchoAll(t, max, keys), t.rows, PressAll(max, keys))
  {
    if keys != [] {
      var init := keys[..|keys| - 1];
      EveryKeyInStep(t, max, init);
      PressAllGood(max, init);
      KeyInStep(EchoAll(t, max, init), t.rows, PressAll(max, init), max, keys[|keys| - 1]);
    }
  }

  lemma EchoIsExpected(t: Text, max: nat, keys: seq<byte>)
    requires t.Good()
    ensures Fits(t.rows, max) ==> EchoAll(t, max, keys).rows == Expected(t.rows, PressAll(max, keys))
  {
    if Fits(t.rows, max) {
      EveryKeyInStep(t, max, keys);
    }
  }

  // ---------- the loop ----------

  /** The state of the loop: the buffer holds the line. */
  ghost predicate Editing(console: Terminal, buf: array<byte>, lp: nat, max: nat, e: Editor)
    reads console, console.video, buf
  {
    && console.Valid() && console.video != buf && max < buf.Length
    && !e.entered && lp == |e.line| <= max && buf[..lp] == e.line
  }

  /** Every key except the one that ends the line. */
  method HandleKey(console: Terminal, buf: array<byte>, lp: nat, max: nat, key: byte, ghost e: Editor)
    returns (lp': nat)
    requires Editing(console, buf, lp, max, e) && !LineBreak(key % 0x80)
    modifies console, console.video, buf
    ensures Editing(console, buf, lp', max, Press(e, max, key))
    ensures console.text == Echo(old(console.text), e, max, key)
  {
    var c: byte := key % 0x80;
    lp' := lp;
    if c == BACKSPACE || c == DELETE {
      if lp > 0 {
        lp' := lp - 1;
        console.PutC(BACKSPACE);
        assert buf[..lp'] == e.line[..lp'];
      }
    } else if c == FORM_FEED {
      console.Clear();
      lp' := 0;
    } else if lp < max {
      if ASCII_MIN <= c <= ASCII_MAX {
        buf[lp] := c;
        lp' := lp + 1;
        console.PutC(c);
        assert buf[..lp'] == e.line + [c];
      }
    }
  }

  /** Reads keys until the line is complete or the keys run out, in which case the call is still waiting. */
  method GetLine(console: Terminal, buf: array<byte>, max: nat, keys: seq<byte>) returns (len: nat, entered: bool)
    requires console.Valid() && console.video != buf && max < buf.Length
    modifies console, console.video, buf
    ensures console.Valid() && len < buf.Length
    ensures var e := PressAll(max, keys);
            && entered == e.entered && len == |e.line| && buf[..len] == e.line
            && (entered ==> buf[len] == NUL)
    ensures console.text == EchoAll(old(console.text), max, keys)
    ensures Fits(old(console.text).rows, max) ==>
              console.text.rows == Expected(old(console.text).rows, PressAll(max, keys))
  {
    ghost var before, e := console.text, FRESH;
    EchoIsExpected(before, max, keys);
    var lp: nat, i := 0, 0;
    while i < |keys|
      invariant i <= |keys| && e == PressAll(max, keys[..i])
      invariant Editing(console, buf, lp, max, e)
      invariant console.text == EchoAll(before, max, keys[..i])
    {
      NextKey(before, max, keys, i);
      if keys[i] % 0x80 == NEWLINE || keys[i] % 0x80 == RETURN {
        AfterEnter(before, max, keys, i + 1);
        buf[lp] := NUL;
        console.PutC(NEWLINE);
        return lp, true;
      }
      lp := HandleKey(console, buf, lp, max, keys[i], e);
      e := Press(e, max, keys[i]);
      i := i + 1;
    }
    assert keys[..i] == keys;
    return lp, false;
  }

  /** Keys behind the end of the line change nothing. */
  lemma {:induction false} AfterEnter(t: Text, max: nat, keys: seq<byte>, i: nat)
    requires t.rows != [] && i <= |keys| && PressAll(max, keys[..i]).entered
    ensures PressAll(max, keys) == PressAll(max, keys[..i])
    ensures EchoAll(t, max, keys) == EchoAll(t, max, keys[..i])
    decreases |keys|
  {
    if i < |keys| {
      assert keys[..|keys| - 1][..i] == keys[..i];
      AfterEnter(t, max, keys[..|keys| - 1], i);
    } else {
      assert keys[..i] == keys;
    }
  }

  // ---------- how long a line may be ----------

  /** The system call cuts requests to 128 characters, so its lines always fit. */
  lemma TerminalLinesFit(t: Text, max: nat)
    requires t.Good() && max <= 128
    ensures Fits(t.rows, max)
  {
  }

  lemma PressErase(e: Editor, max: nat)
    requires !e.entered && e.line != []
    ensures Press(e, max, BACKSPACE) == e.(line := e.line[..|e.line| - 1])
  {
  }

  /** Typing spaces and taking some of them back. */
  lemma {:induction false} TypedThenErased(max: nat, k: nat)
    requires k <= max
    ensures PressAll(max, Repeat(SPACE, max) + Repeat(BACKSPACE, k)) == Editor(Repeat(SPACE, max - k), false, false)
  {
    if k == 0 {
      assert Repeat(SPACE, max) + Repeat(BACKSPACE, 0) == Repeat(SPACE, max);
      JustTyped(max, max);
    } else {
      var init := Repeat(SPACE, max) + Repeat(BACKSPACE, k - 1);
      assert Repeat(SPACE, max) + Repeat(BACKSPACE, k) == init + [BACKSPACE];
      TypedThenErased(max, k - 1);
      PressLast(max, init, BACKSPACE);
      PressErase(PressAll(max, init), max);
      assert Repeat(SPACE, max - (k - 1))[..max - k] == Repeat(SPACE, max - k);
    }
  }

  lemma {:induction false} JustTyped(max: nat, k: nat)
    requires k <= max
    ensures PressAll(max, Repeat(SPACE, k)) == Editor(Repeat(SPACE, k), false, false)
  {
    if k > 0 {
      assert Repeat(SPACE, k)[..k - 1] == Repeat(SPACE, k - 1);
      JustTyped(max, k - 1);
      assert Repeat(SPACE, k - 1) + [SPACE] == Repeat(SPACE, k);
    }
  }

  lemma EchoSpace(t: Text, e: Editor, max: nat)
    requires t.Good() && !e.entered && |e.line| < max
    ensures Echo(t, e, max, SPACE) == Put(t, SPACE)
    ensures Echo(t, e, max, SPACE).rows == AddChar(t.rows, SPACE)
  {
  }

  lemma WriteLineNext(rows: seq<seq<byte>>, line: seq<byte>, c: byte)
    requires rows != []
    ensures WriteLine(rows, line + [c]) == AddChar(WriteLine(rows, line), c)
  {
    assert (line + [c])[..|line|] == line;
  }

  lemma TypeOne(t: Text, rows: seq<seq<byte>>, e: Editor, max: nat)
    requires t.Good() && rows != [] && t.rows == WriteLine(rows, e.line) && !e.entered && |e.line| < max
    ensures Echo(t, e, max, SPACE).Good() && Echo(t, e, max, SPACE).rows == WriteLine(rows, e.line + [SPACE])
  {
    EchoSpace(t, e, max);
    var r := Echo(t, e, max, SPACE);
    assert r.Good() by {
      PutGood(t, SPACE);
    }
    assert r.rows == WriteLine(rows, e.line + [SPACE]) by {
      WriteLineNext(rows, e.line, SPACE);
    }
  }

  lemma EraseOne(t: Text, e: Editor, max: nat)
    requires t.Good()
    ensures Echo(t, e, max, BACKSPACE).Good() && Echo(t, e, max, BACKSPACE).top == t.top
  {
    PutGood(t, BACKSPACE);
  }

  /** The echo of what is typed is the line itself, and stays a good text. */
  lemma {:induction false} TypedEcho(t: Text, max: nat, k: nat)
    requires t.Good() && k <= max
    ensures var r := EchoAll(t, max, Repeat(SPACE, k));
            r.Good() && r.rows == WriteLine(t.rows, Repeat(SPACE, k))
  {
    if k > 0 {
      var init := Repeat(SPACE, k - 1);
      assert Repeat(SPACE, k) == init + [SPACE];
      TypedEcho(t, max, k - 1);
      JustTyped(max, k - 1);
      EchoLast(t, max, init, SPACE);
      TypeOne(EchoAll(t, max, init), t.rows, Editor(init, false, false), max);
    }
  }

  /** Backspaces do not scroll back. */
  lemma {:induction false} ErasingKeepsTop(t: Text, max: nat, k: nat)
    requires t.Good() && k <= max
    ensures var typed := EchoAll(t, max, Repeat(SPACE, max));
            var r := EchoAll(t, max, Repeat(SPACE, max) + Repeat(BACKSPACE, k));
            r.Good() && r.top == typed.top
  {
    if k == 0 {
      assert Repeat(SPACE, max) + Repeat(BACKSPACE, 0) == Repeat(SPACE, max);
      TypedEcho(t, max, max);
    } else {
      var init := Repeat(SPACE, max) + Repeat(BACKSPACE, k - 1);
      assert Repeat(SPACE, max) + Repeat(BACKSPACE, k) == init + [BACKSPACE];
      ErasingKeepsTop(t, max, k - 1);
      EchoLast(t, max, init, BACKSPACE);
      EraseOne(EchoAll(t, max, init), PressAll(max, init), max);
    }
  }

  /** Beyond that bound the echo does drift: type the longest line, take it all back, and the buffer is empty
      while the screen still has rows that were not there before. */
  lemma LongerLinesDrift(t: Text, max: nat)
    requires t.Good() && !Fits(t.rows, max)
    ensures var keys := Repeat(SPACE, max) + Repeat(BACKSPACE, max);
            PressAll(max, keys) == FRESH && |EchoAll(t, max, keys).rows| > |t.rows|
  {
    TypedThenErased(max, max);
    TypedEcho(t, max, max);
    WriteLineExtent(t.rows, Repeat(SPACE, max));
    ErasingKeepsTop(t, max, max);
  }

  /** The screen text follows the line for every stream of keys if and only if the longest line cannot push its
      own first row off the screen. */
  lemma NeverDriftsIff(t: Text, max: nat)
    requires t.Good()
    ensures (forall keys: seq<byte> :: EchoAll(t, max, keys).rows == Expected(t.rows, PressAll(max, keys))) <==>
            Fits(t.rows, max)
  {
    if Fits(t.rows, max) {
      forall keys: seq<byte>
        ensures EchoAll(t, max, keys).rows == Expected(t.rows, PressAll(max, keys))
      {
        EveryKeyInStep(t, max, keys);
      }
    } else {
      LongerLinesDrift(t, max);
      var keys := Repeat(SPACE, max) + Repeat(BACKSPACE, max);
      assert Expected(t.rows, FRESH) == t.rows;
      assert EchoAll(t, max, keys).rows != Expected(t.rows, PressAll(max, keys));
    }
  }
}
