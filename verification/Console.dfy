/** The text console: an unbounded text of rows, of which the 25 by 80 screen shows the last ones. */
module Console {
  import opened Bytes
  import Memory

  const NUM_COLS := 80
  const NUM_ROWS := 25
  const CELLS := NUM_ROWS * NUM_COLS
  const ATTRIB: byte := 7

  // ---------- the text ----------

  /** All rows ever started, the last one being written; the screen begins at row `top`. */
  datatype Text = Text(rows: seq<seq<byte>>, top: nat) {
    ghost predicate Good() {
      && |rows| >= 1 && top < |rows| <= top + NUM_ROWS
      && GoodRows(rows)
    }

    function Last(): seq<byte>
      requires rows != []
    {
      rows[|rows| - 1]
    }
  }

  ghost predicate GoodRows(rows: seq<seq<byte>>) {
    && |rows| >= 1
    && (forall r :: 0 <= r < |rows| ==> |rows[r]| <= NUM_COLS)
    && |rows[|rows| - 1]| < NUM_COLS
  }

  const EMPTY := Text([[]], 0)

  predicate LineBreak(c: byte) {
    c == NEWLINE || c == RETURN
  }

  predicate Ordinary(c: byte) {
    !LineBreak(c) && c != BACKSPACE
  }

  /** The rows after an ordinary character: a row that becomes full is followed by an empty one. */
  function AddChar(rows: seq<seq<byte>>, c: byte): (r: seq<seq<byte>>)
    requires rows != []
    ensures r != []
  {
    var n := |rows| - 1;
    rows[n := rows[n] + [c]] + if |rows[n]| + 1 >= NUM_COLS then [[]] else []
  }

  /** A row that the cursor re-enters from the right: everything but its last column. */
  function Reentered(row: seq<byte>): (r: seq<byte>)
    ensures |r| == NUM_COLS - 1
    ensures forall c :: 0 <= c < NUM_COLS - 1 ==> r[c] == if c < |row| then row[c] else SPACE
  {
    if |row| >= NUM_COLS - 1 then row[..NUM_COLS - 1] else row + Repeat(SPACE, NUM_COLS - 1 - |row|)
  }

  /** The rows after a backspace that is not at the top left corner. */
  function Erase(rows: seq<seq<byte>>): seq<seq<byte>>
    requires rows != []
  {
    var n := |rows| - 1;
    if rows[n] != [] then rows[n := rows[n][..|rows[n]| - 1]]
    else if n == 0 then rows
    else rows[..n][n - 1 := Reentered(rows[n - 1])]
  }

  predicate AtCorner(t: Text)
    requires t.rows != []
  {
    t.Last() == [] && |t.rows| - 1 == t.top
  }

  function Scroll(t: Text): Text {
    if |t.rows| > t.top + NUM_ROWS then t.(top := t.top + 1) else t
  }

  /** The text after one character. */
  function Put(t: Text, c: byte): Text
    requires t.rows != []
  {
    if LineBreak(c) then Scroll(t.(rows := t.rows + [[]]))
    else if c == BACKSPACE then if AtCorner(t) then t else t.(rows := Erase(t.rows))
    else Scroll(t.(rows := AddChar(t.rows, c)))
  }

  lemma PutGood(t: Text, c: byte)
    requires t.Good()
    ensures Put(t, c).Good()
  {
  }

  lemma EraseUndoesAdd(rows: seq<seq<byte>>, c: byte)
    requires GoodRows(rows)
    ensures Erase(AddChar(rows, c)) == rows
  {
  }

  /** A character and then a backspace leave the rows as they were, even if the character filled a row or
      scrolled the screen. */
  lemma BackspaceUndoes(t: Text, c: byte)
    requires t.Good() && Ordinary(c)
    ensures Put(Put(t, c), BACKSPACE).rows == t.rows
  {
  }

  /** The text after a sequence of characters. */
  function PutAll(t: Text, cs: seq<byte>): (r: Text)
    requires t.rows != []
    ensures r.rows != []
  {
    if cs == [] then t else Put(PutAll(t, cs[..|cs| - 1]), cs[|cs| - 1])
  }

  lemma {:induction false} PutAllAppend(t: Text, a: seq<byte>, b: seq<byte>)
    requires t.rows != []
    ensures PutAll(t, a + b) == PutAll(PutAll(t, a), b)
    decreases |b|
  {
    if b == [] {
      assert a + b == a;
    } else {
      PutAllAppend(t, a, b[..|b| - 1]);
      assert (a + b)[..|a + b| - 1] == a + b[..|b| - 1];
    }
  }

  /** From a cleared screen on, every sequence of characters keeps the cursor on the screen. */
  lemma {:induction false} EveryRunGood(cs: seq<byte>)
    ensures PutAll(EMPTY, cs).Good()
    ensures 0 <= CursorAt(PutAll(EMPTY, cs)) < 2000
  {
    if cs != [] {
      EveryRunGood(cs[..|cs| - 1]);
      PutGood(PutAll(EMPTY, cs[..|cs| - 1]), cs[|cs| - 1]);
    }
  }

  // ---------- the rows that a line adds to a text ----------

  function WriteLine(rows: seq<seq<byte>>, line: seq<byte>): (r: seq<seq<byte>>)
    requires rows != []
    ensures r != []
  {
    if line == [] then rows else AddChar(WriteLine(rows, line[..|line| - 1]), line[|line| - 1])
  }

  /** How far a line reaches. */
  lemma {:induction false} WriteLineExtent(rows: seq<seq<byte>>, line: seq<byte>)
    requires rows != [] && |rows[|rows| - 1]| < 80
    ensures var r := WriteLine(rows, line);
            var extent := |rows[|rows| - 1]| + |line|;
            |r| == |rows| + extent / 80 && |r[|r| - 1]| == extent % 80
  {
    if line != [] {
      WriteLineExtent(rows, line[..|line| - 1]);
    }
  }

  ghost predicate CharIn(r: seq<seq<byte>>, row: nat, column: nat, c: byte) {
    row < |r| && column < |r[row]| && r[row][column] == c
  }

  /** `r` is the text `rows` with `line` behind it, laid out row by row, 80 characters to a row. */
  ghost predicate LaidOut(rows: seq<seq<byte>>, r: seq<seq<byte>>, line: seq<byte>)
    requires rows != []
  {
    var n := |rows| - 1;
    && |r| > n && r[..n] == rows[..n] && rows[n] <= r[n]
    && forall i :: 0 <= i < |line| ==> CharIn(r, n + (|rows[n]| + i) / 80, (|rows[n]| + i) % 80, line[i])
  }

  lemma LayoutNext(rows: seq<seq<byte>>, r: seq<seq<byte>>, line: seq<byte>, c: byte)
    requires rows != [] && |rows[|rows| - 1]| < 80 && LaidOut(rows, r, line)
    requires var extent := |rows[|rows| - 1]| + |line|;
             |r| == |rows| + extent / 80 && |r[|r| - 1]| == extent % 80
    ensures LaidOut(rows, AddChar(r, c), line + [c])
  {
    var n, r' := |rows| - 1, AddChar(r, c);
    forall i | 0 <= i <= |line|
      ensures CharIn(r', n + (|rows[n]| + i) / 80, (|rows[n]| + i) % 80, (line + [c])[i])
    {
      if i < |line| {
        assert CharIn(r, n + (|rows[n]| + i) / 80, (|rows[n]| + i) % 80, line[i]);
      }
    }
  }

  /** Where the characters of a line go: row by row, 80 to a row, from the end of the text on; what was there before
      stays. */
  lemma {:induction false} LineLayout(rows: seq<seq<byte>>, line: seq<byte>)
    requires rows != [] && |rows[|rows| - 1]| < 80
    ensures LaidOut(rows, WriteLine(rows, line), line)
  {
    if line != [] {
      var m := |line| - 1;
      LineLayout(rows, line[..m]);
      WriteLineExtent(rows, line[..m]);
      LayoutNext(rows, WriteLine(rows, line[..m]), line[..m], line[m]);
      assert line[..m] + [line[m]] == line;
    }
  }

  /** Printing ordinary characters writes them as a line. */
  lemma {:induction false} PutAllIsWriteLine(t: Text, line: seq<byte>)
    requires t.rows != [] && forall i :: 0 <= i < |line| ==> line[i] !in {8, 10, 13}
    ensures PutAll(t, line).rows == WriteLine(t.rows, line)
  {
    if line != [] {
      PutAllIsWriteLine(t, line[..|line| - 1]);
    }
  }

  // ---------- the screen ----------

  /** The character at screen position `p`, counted row by row. */
  function CellAt(t: Text, p: nat): byte {
    var r, c := t.top + p / NUM_COLS, p % NUM_COLS;
    if r < |t.rows| && c < |t.rows[r]| then t.rows[r][c] else SPACE
  }

  function CursorAt(t: Text): int
    requires t.rows != []
  {
    (|t.rows| - 1 - t.top) * NUM_COLS + |t.Last()|
  }

  /** The video memory is the window on the text. */
  ghost predicate Shows(video: seq<byte>, t: Text) {
    |video| == 2 * CELLS &&
    forall p :: 0 <= p < CELLS ==> video[2 * p] == CellAt(t, p) && video[2 * p + 1] == ATTRIB
  }

  /** Everything at or behind the cursor is blank. */
  lemma BlankBehindCursor(t: Text, p: nat)
    requires t.Good() && CursorAt(t) <= p < CELLS
    ensures CellAt(t, p) == SPACE
  {
  }

  lemma ShowsWrite(video: seq<byte>, t: Text, c: byte)
    requires Shows(video, t) && t.Good() && Ordinary(c)
    ensures var k := CursorAt(t);
            0 <= k < CELLS && Shows(video[2 * k := c][2 * k + 1 := ATTRIB], t.(rows := AddChar(t.rows, c)))
  {
  }

  lemma CursorRange(t: Text)
    requires t.Good() && !AtCorner(t)
    ensures 0 < CursorAt(t) < CELLS
  {
  }

  lemma EraseCursor(t: Text)
    requires t.Good() && !AtCorner(t)
    ensures var rows := Erase(t.rows);
            if t.Last() != [] then |rows| == |t.rows| && |rows[|rows| - 1]| == |t.Last()| - 1
            else |rows| == |t.rows| - 1 && |rows[|rows| - 1]| == NUM_COLS - 1
  {
  }

  lemma CellErased(t: Text, p: nat)
    requires t.Good() && !AtCorner(t) && p < CELLS
    ensures CellAt(t.(rows := Erase(t.rows)), p) == if p == CursorAt(t) - 1 then SPACE else CellAt(t, p)
  {
  }

  lemma ShowsErase(video: seq<byte>, t: Text)
    requires Shows(video, t) && t.Good() && !AtCorner(t)
    ensures var k := CursorAt(t) - 1;
            && 0 <= k < CELLS
            && Shows(video[2 * k := SPACE][2 * k + 1 := ATTRIB], t.(rows := Erase(t.rows)))
            && CursorAt(t.(rows := Erase(t.rows))) == k
  {
    CursorRange(t);
    EraseCursor(t);
    forall p | 0 <= p < CELLS
      ensures CellAt(t.(rows := Erase(t.rows)), p) == if p == CursorAt(t) - 1 then SPACE else CellAt(t, p)
    {
      CellErased(t, p);
    }
  }

  lemma ShowsNewRow(video: seq<byte>, t: Text)
    requires Shows(video, t) && t.Good()
    ensures Shows(video, t.(rows := t.rows + [[]]))
  {
  }

  ghost predicate RowsMoved(video: seq<byte>, video': seq<byte>) {
    && |video| == |video'| == 2 * CELLS
    && (forall a :: 0 <= a < 2 * (CELLS - NUM_COLS) ==> video'[a] == video[a + 2 * NUM_COLS])
    && (forall i :: 0 <= i < NUM_COLS ==>
          video'[2 * (CELLS - NUM_COLS) + 2 * i] == SPACE && video'[2 * (CELLS - NUM_COLS) + 2 * i + 1] == ATTRIB)
  }

  lemma ShowsScroll(video: seq<byte>, video': seq<byte>, t: Text)
    requires Shows(video, t) && |t.rows| == t.top + NUM_ROWS + 1 && t.Last() == []
    requires RowsMoved(video, video')
    ensures Shows(video', t.(top := t.top + 1))
  {
    var t' := t.(top := t.top + 1);
    forall p | 0 <= p < CELLS
      ensures video'[2 * p] == CellAt(t', p) && video'[2 * p + 1] == ATTRIB
    {
      if p < CELLS - NUM_COLS {
        var q := p + NUM_COLS;
        assert CellAt(t', p) == CellAt(t, q);
        assert video'[2 * p] == video[2 * q] && video'[2 * p + 1] == video[2 * q + 1];
      } else {
        var i := p - (CELLS - NUM_COLS);
        assert 2 * p == 2 * (CELLS - NUM_COLS) + 2 * i;
        assert p / NUM_COLS == NUM_ROWS - 1;
      }
    }
  }

  lemma ScrolledGood(t: Text)
    requires GoodRows(t.rows) && |t.rows| == t.top + NUM_ROWS + 1
    ensures t.(top := t.top + 1).Good()
  {
  }

  // ---------- the screen as 2000 cells ----------

  /** Cell `p` after everything has moved up by one row; the last row is blank. */
  function CellBelow(t: Text, p: nat): byte {
    if p + 80 < 2000 then CellAt(t, p + 80) else 32
  }

  /** An ordinary character goes to the cell under the cursor, and the cursor moves on by one. If that was the last
      cell of the screen, everything moves up by a row. */
  lemma CharOnScreen(t: Text, c: byte, p: nat)
    requires t.Good() && c !in {8, 10, 13} && p < 2000
    ensures var k, t' := CursorAt(t), Put(t, c);
            if k < 1999 then CursorAt(t') == k + 1 && CellAt(t', p) == if p == k then c else CellAt(t, p)
            else CursorAt(t') == 1920 && CellAt(t', p) == if p == 1919 then c else CellBelow(t, p)
  {
    PutGood(t, c);
    CellWritten(t, c, p);
    if p < 1920 {
      CellWritten(t, c, p + 80);
    }
  }

  lemma CellWritten(t: Text, c: byte, p: nat)
    requires t.Good() && c !in {8, 10, 13} && p < 2000
    ensures 0 <= CursorAt(t) < 2000
    ensures CellAt(t.(rows := AddChar(t.rows, c)), p) == if p == CursorAt(t) then c else CellAt(t, p)
  {
  }

  /** A line break moves the cursor to the start of the next row, and everything up by a row if there is none. */
  lemma BreakOnScreen(t: Text, c: byte, p: nat)
    requires t.Good() && c in {10, 13} && p < 2000
    ensures var k, t' := CursorAt(t), Put(t, c);
            if k < 1920 then CursorAt(t') == (k / 80 + 1) * 80 && CellAt(t', p) == CellAt(t, p)
            else CursorAt(t') == 1920 && CellAt(t', p) == CellBelow(t, p)
  {
  }

  /** A backspace moves the cursor back by one and blanks the cell there; in the first cell it does nothing. */
  lemma BackspaceOnScreen(t: Text, p: nat)
    requires t.Good() && p < 2000
    ensures var k, t' := CursorAt(t), Put(t, 8);
            if k == 0 then t' == t
            else CursorAt(t') == k - 1 && CellAt(t', p) == if p == k - 1 then 32 else CellAt(t, p)
  {
    if !AtCorner(t) {
      CursorRange(t);
      EraseCursor(t);
      CellErased(t, p);
    }
  }

  // ---------- the driver ----------

  class Terminal {
    const video: array<byte>
    var screenX: int
    var screenY: int
    ghost var text: Text

    ghost predicate Valid()
      reads this, video
    {
      && text.Good() && Shows(video[..], text)
      && screenX == |text.Last()| && screenY == |text.rows| - 1 - text.top
    }

    constructor (video: array<byte>)
      requires video.Length == 2 * CELLS
      ensures Valid() && this.video == video && text == EMPTY
      modifies video
    {
      this.video := video;
      new;
      Clear();
    }

    method Clear()
      requires video.Length == 2 * CELLS
      modifies this, video
      ensures Valid() && text == EMPTY
    {
      Memory.MemSetWord(video, 0, SPACE, ATTRIB, CELLS);
      screenX, screenY := 0, 0;
      text := EMPTY;
    }

    /** Like Valid, but the cursor may have left the screen at the bottom, on an empty row. */
    ghost predicate Unscrolled()
      reads this, video
    {
      && Shows(video[..], text) && GoodRows(text.rows)
      && text.top < |text.rows| <= text.top + NUM_ROWS + 1
      && screenX == |text.Last()| && screenY == |text.rows| - 1 - text.top
      && (screenY >= NUM_ROWS ==> text.Last() == [])
    }

    /** All rows but the first move up, and the last row is cleared. */
    method MoveRowsUp()
      requires video.Length == 2 * CELLS
      modifies video
      ensures RowsMoved(old(video[..]), video[..])
    {
      Memory.MemMove(video, 0, 2 * NUM_COLS, 2 * (CELLS - NUM_COLS));
      ghost var moved := video[..];
      Memory.MemSetWord(video, 2 * (CELLS - NUM_COLS), SPACE, ATTRIB, NUM_COLS);
      assert forall a :: 0 <= a < 2 * (CELLS - NUM_COLS) ==> video[a] == video[..2 * (CELLS - NUM_COLS)][a];
      assert forall a :: 0 <= a < 2 * (CELLS - NUM_COLS) ==> moved[..2 * (CELLS - NUM_COLS)][a] == moved[a];
    }

    /** The screen moves up by one row when the cursor has left it. */
    method ScrollUp()
      requires Unscrolled()
      modifies this, video
      ensures Valid() && text == Scroll(old(text))
    {
      if screenY >= NUM_ROWS {
        ScrollOnce();
      }
    }

    method ScrollOnce()
      requires Unscrolled() && screenY == NUM_ROWS
      modifies this, video
      ensures Valid() && text == old(text).(top := old(text).top + 1)
    {
      ghost var before := video[..];
      MoveRowsUp();
      ShowsScroll(before, video[..], text);
      ScrolledGood(text);
      screenY := NUM_ROWS - 1;
      text := text.(top := text.top + 1);
    }

    method BreakLine()
      requires Valid()
      modifies this
      ensures Unscrolled() && text == old(text).(rows := old(text).rows + [[]])
    {
      ShowsNewRow(video[..], text);
      screenY := screenY + 1;
      screenX := 0;
      text := text.(rows := text.rows + [[]]);
    }

    method EraseBack()
      requires Valid() && !AtCorner(text)
      modifies this, video
      ensures Valid() && text == old(text).(rows := Erase(old(text).rows))
    {
      PutGood(text, BACKSPACE);
      ShowsErase(video[..], text);
      EraseCursor(text);
      ghost var k := CursorAt(text) - 1;
      screenX := screenX - 1;
      if screenX < 0 {
        screenX := NUM_COLS - 1;
        screenY := if screenY != 0 then screenY - 1 else 0;
      }
      var p := NUM_COLS * screenY + screenX;
      assert p == k;
      video[2 * p] := SPACE;
      video[2 * p + 1] := ATTRIB;
      text := text.(rows := Erase(text.rows));
    }

    method WriteChar(c: byte)
      requires Valid() && Ordinary(c)
      modifies this, video
      ensures Unscrolled() && text == old(text).(rows := AddChar(old(text).rows, c))
    {
      ShowsWrite(video[..], text, c);
      var p := NUM_COLS * screenY + screenX;
      video[2 * p] := c;
      video[2 * p + 1] := ATTRIB;
      screenX := screenX + 1;
      screenY := if screenX >= NUM_COLS then screenY + 1 else screenY;
      screenX := screenX % NUM_COLS;
      text := text.(rows := AddChar(text.rows, c));
    }

    method PutC(c: byte)
      requires Valid()
      modifies this, video
      ensures Valid() && text == Put(old(text), c)
    {
      if LineBreak(c) {
        BreakLine();
      } else if c == BACKSPACE {
        if screenY == 0 && screenX == 0 {
          return;
        }
        EraseBack();
      } else {
        WriteChar(c);
      }
      ScrollUp();
    }
  }
}
