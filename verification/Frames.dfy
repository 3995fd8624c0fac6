/** The fish program's start: two text files are read in lock-step, one character each, and every cell that is
    visible in at least one of them becomes a blinking cell that alternates between the two. */
module Frames {
  import opened Bytes
  import opened BlinkList
  import BlinkPool
  import opened TextLines

  const ROW_WIDTH := 80
  const OFFSET := 40
  const LENGTH: u16 := 15

  /** Lines of a file beyond its end are empty. */
  function Row(lines: seq<seq<byte>>, r: nat): seq<byte> {
    if r < |lines| then lines[r] else []
  }

  /** Cells beyond the end of a line are blank. */
  function Cell(line: seq<byte>, c: nat): byte {
    if c < |line| then line[c] else SPACE
  }

  function Max(a: nat, b: nat): nat {
    if a < b then b else a
  }

  predicate Visible(a: byte, b: byte) {
    a != SPACE || b != SPACE
  }

  datatype Frames = Frames(first: seq<seq<byte>>, second: seq<seq<byte>>) {
    function Height(): nat {
      Max(|first|, |second|)
    }

    function Width(r: nat): nat {
      Max(|Row(first, r)|, |Row(second, r)|)
    }

    predicate VisibleAt(r: nat, c: nat) {
      Visible(Cell(Row(first, r), c), Cell(Row(second, r), c))
    }

    /** The structure handed to the driver for one cell. */
    function UserAt(r: nat, c: nat): Node {
      Node((r * ROW_WIDTH + c + OFFSET) % 0x1_0000, Cell(Row(first, r), c), Cell(Row(second, r), c),
           LENGTH, LENGTH, 0, 0)
    }

    /** The visible columns of row `r` that are below `n`, from left to right. */
    function RowCells(r: nat, n: nat): (cells: seq<(nat, nat)>) {
      if n == 0 then []
      else RowCells(r, n - 1) + if VisibleAt(r, n - 1) then [(r, n - 1)] else []
    }

    /** The visible cells of the first `n` rows, row by row. */
    function CellsAbove(n: nat): (cells: seq<(nat, nat)>) {
      if n == 0 then [] else CellsAbove(n - 1) + RowCells(n - 1, Width(n - 1))
    }

    function Cells(): seq<(nat, nat)> {
      CellsAbove(Height())
    }

    function UsersOf(cells: seq<(nat, nat)>): (users: seq<Node>)
      ensures |users| == |cells|
      ensures forall i :: 0 <= i < |cells| ==> users[i] == UserAt(cells[i].0, cells[i].1)
    {
      seq(|cells|, i requires 0 <= i < |cells| => UserAt(cells[i].0, cells[i].1))
    }

    /** The driver calls that the two files ask for. */
    function AddOps(): seq<Op> {
      Adds(UsersOf(Cells()))
    }

    ghost predicate OnScreen() {
      forall r: nat, c: nat :: VisibleAt(r, c) ==> r * ROW_WIDTH + c + OFFSET < SCREEN_CELLS
    }
  }

  function Parse(f0: seq<byte>, f1: seq<byte>): Frames {
    Frames(Lines(f0), Lines(f1))
  }

  /** A cell is left out exactly if both files show a space there or nothing at all. */
  lemma VisibleIff(f: Frames, r: nat, c: nat)
    ensures !f.VisibleAt(r, c) <==>
            && (r < |f.first| && c < |f.first[r]| ==> f.first[r][c] == 32)
            && (r < |f.second| && c < |f.second[r]| ==> f.second[r][c] == 32)
  {
  }

  predicate Before(a: (nat, nat), b: (nat, nat)) {
    a.0 < b.0 || (a.0 == b.0 && a.1 < b.1)
  }

  ghost predicate RowMajor(cells: seq<(nat, nat)>) {
    forall i, j :: 0 <= i < j < |cells| ==> Before(cells[i], cells[j])
  }

  lemma {:induction false} RowCellsExact(f: Frames, r: nat, n: nat)
    ensures RowMajor(f.RowCells(r, n))
    ensures forall x: (nat, nat) :: x in f.RowCells(r, n) <==> x.0 == r && x.1 < n && f.VisibleAt(r, x.1)
  {
    if n > 0 {
      RowCellsExact(f, r, n - 1);
    }
  }

  lemma {:induction false} CellsAboveExact(f: Frames, n: nat)
    ensures RowMajor(f.CellsAbove(n))
    ensures forall x: (nat, nat) :: x in f.CellsAbove(n) <==> x.0 < n && f.VisibleAt(x.0, x.1)
  {
    if n > 0 {
      CellsAboveExact(f, n - 1);
      var above, row := f.CellsAbove(n - 1), f.RowCells(n - 1, f.Width(n - 1));
      RowCellsExact(f, n - 1, f.Width(n - 1));
      forall i, j | 0 <= i < j < |above + row|
        ensures Before((above + row)[i], (above + row)[j])
      {
        if i < |above| <= j {
          assert above[i] in above && row[j - |above|] in row;
        }
      }
    }
  }

  /** The cells are exactly the visible positions of the two files, once each, in row-major order. */
  lemma CellsExact(f: Frames)
    ensures RowMajor(f.Cells())
    ensures forall r: nat, c: nat :: (r, c) in f.Cells() <==> f.VisibleAt(r, c)
  {
    CellsAboveExact(f, f.Height());
  }

  // ---------- the merge loop ----------

  /** One of the two files while it is being read: the position, the last character, the end-of-file mark. */
  datatype Source = Source(p: nat, last: byte, eof: bool) {
    /** Reading of `text` is about to start on row `r`. */
    ghost predicate AtRow(text: seq<byte>, r: nat) {
      p <= |text| &&
      if eof then r >= |Lines(text)| else r < |Lines(text)| && Lines(text[p..]) == Lines(text)[r..]
    }

    /** `c` columns of row `r` are done. */
    ghost predicate InRow(text: seq<byte>, r: nat, c: nat) {
      p <= |text| &&
      if last == NEWLINE then |Row(Lines(text), r)| <= c && AtRow(text, r + 1)
      else
        && !eof && r < |Lines(text)| && c <= |Lines(text)[r]|
        && Lines(text[p..]) == [Lines(text)[r][c..]] + Lines(text)[r + 1..]
    }

    /** A file that has ended gives newlines for ever; any other starts the row with some other character. */
    function Restart(): Source {
      this.(last := if eof then NEWLINE else FILLER)
    }

    function Padded(): byte {
      if last == NEWLINE then SPACE else last
    }
  }

  const FILLER: byte := 48

  lemma NextChar(text: seq<byte>, p: nat, line: seq<byte>, rest: seq<seq<byte>>)
    requires p <= |text| && Lines(text[p..]) == [line] + rest
    ensures p == |text| ==> line == [] && rest == []
    ensures p < |text| && text[p] == NEWLINE ==> line == [] && rest == Lines(text[p + 1..])
    ensures p < |text| && text[p] != NEWLINE ==>
              line != [] && line[0] == text[p] && Lines(text[p + 1..]) == [line[1..]] + rest
  {
    var lines := [line] + rest;
    assert line == lines[0] && rest == lines[1..];
    if p < |text| {
      assert text[p..][1..] == text[p + 1..];
      var more := Lines(text[p + 1..]);
      assert text[p] != NEWLINE ==> line == [text[p]] + more[0] && rest == more[1..];
      assert more == [more[0]] + more[1..];
    }
  }

  /** One byte of a file, or a newline and the end-of-file mark. */
  method ReadChar(text: seq<byte>, s: Source, ghost r: nat, ghost c: nat) returns (s': Source)
    requires s.InRow(text, r, c)
    ensures s'.InRow(text, r, c + 1)
    ensures Cell(Row(Lines(text), r), c) == s'.Padded()
    ensures s'.last == NEWLINE <==> |Row(Lines(text), r)| <= c
    ensures s.last == NEWLINE ==> s' == s
    ensures s'.last != NEWLINE ==> s'.p > s.p
    ensures s'.p >= s.p
  {
    s' := s;
    if s.last != NEWLINE {
      ghost var lines := Lines(text);
      NextChar(text, s.p, lines[r][c..], lines[r + 1..]);
      if s.p == |text| {
        s' := s.(last := NEWLINE, eof := true);
      } else {
        s' := s.(p := s.p + 1, last := text[s.p]);
      }
    }
  }

  /** One turn of the inner loop: the calls for column `col`; `stop` when both rows are exhausted. */
  method MergeColumn(f0: seq<byte>, f1: seq<byte>, s0: Source, s1: Source, row: nat, col: nat)
    returns (t0: Source, t1: Source, calls: seq<Node>, stop: bool)
    requires s0.InRow(f0, row, col) && s1.InRow(f1, row, col)
    ensures t0.InRow(f0, row, col + 1) && t1.InRow(f1, row, col + 1)
    ensures stop <==> t0.last == NEWLINE && t1.last == NEWLINE
    ensures stop <==> Parse(f0, f1).Width(row) <= col
    ensures t0.p >= s0.p && t1.p >= s1.p
    ensures !stop ==> t0.p > s0.p || t1.p > s1.p
    ensures stop ==> !Parse(f0, f1).VisibleAt(row, col)
    ensures calls == if Parse(f0, f1).VisibleAt(row, col) then [Parse(f0, f1).UserAt(row, col)] else []
  {
    t0 := ReadChar(f0, s0, row, col);
    t1 := ReadChar(f1, s1, row, col);
    stop := t0.last == NEWLINE && t1.last == NEWLINE;
    calls := [];
    if !stop {
      if (t0.last != SPACE && t0.last != NEWLINE) || (t1.last != SPACE && t1.last != NEWLINE) {
        calls := [Node((row * ROW_WIDTH + col + OFFSET) % 0x1_0000, t0.Padded(), t1.Padded(),
                       LENGTH, LENGTH, 0, 0)];
      }
    }
  }

  lemma RowCellsNext(f: Frames, r: nat, n: nat)
    ensures f.UsersOf(f.RowCells(r, n + 1)) ==
            f.UsersOf(f.RowCells(r, n)) + if f.VisibleAt(r, n) then [f.UserAt(r, n)] else []
  {
  }

  /** The inner loop: one row of both files. */
  method MergeRow(f0: seq<byte>, f1: seq<byte>, s0: Source, s1: Source, row: nat)
    returns (t0: Source, t1: Source, calls: seq<Node>)
    requires s0.InRow(f0, row, 0) && s1.InRow(f1, row, 0)
    ensures t0.AtRow(f0, row + 1) && t1.AtRow(f1, row + 1)
    ensures calls == Parse(f0, f1).UsersOf(Parse(f0, f1).RowCells(row, Parse(f0, f1).Width(row)))
  {
    ghost var f := Parse(f0, f1);
    t0, t1, calls := s0, s1, [];
    var col := 0;
    var stop := false;
    while !stop
      invariant t0.InRow(f0, row, col) && t1.InRow(f1, row, col)
      invariant stop ==> t0.last == NEWLINE && t1.last == NEWLINE
      invariant if stop then col == f.Width(row) + 1 else col <= f.Width(row)
      invariant calls == f.UsersOf(f.RowCells(row, if stop then col - 1 else col))
      decreases |f0| - t0.p + |f1| - t1.p + if stop then 0 else 1
    {
      var more;
      RowCellsNext(f, row, col);
      t0, t1, more, stop := MergeColumn(f0, f1, t0, t1, row, col);
      calls := calls + more;
      col := col + 1;
    }
  }

  /** The outer loop has finished the rows above `row`. */
  ghost predicate Merged(f0: seq<byte>, f1: seq<byte>, s0: Source, s1: Source, row: nat, calls: seq<Node>) {
    && s0.AtRow(f0, row) && s1.AtRow(f1, row) && s0 == s0.Restart() && s1 == s1.Restart()
    && row <= Parse(f0, f1).Height() && calls == Parse(f0, f1).UsersOf(Parse(f0, f1).CellsAbove(row))
  }

  /** One turn of the outer loop. */
  method MergeNext(f0: seq<byte>, f1: seq<byte>, s0: Source, s1: Source, row: nat, calls: seq<Node>)
    returns (t0: Source, t1: Source, calls': seq<Node>)
    requires Merged(f0, f1, s0, s1, row, calls) && (!s0.eof || !s1.eof)
    ensures Merged(f0, f1, t0, t1, row + 1, calls')
  {
    StartRow(f0, s0, row);
    StartRow(f1, s1, row);
    var more;
    t0, t1, more := MergeRow(f0, f1, s0, s1, row);
    ghost var f := Parse(f0, f1);
    UsersOfAppend(f, f.CellsAbove(row), f.RowCells(row, f.Width(row)));
    calls' := calls + more;
    t0, t1 := t0.Restart(), t1.Restart();
  }

  lemma MergeStart(f0: seq<byte>, f1: seq<byte>)
    ensures Merged(f0, f1, Source(0, FILLER, false), Source(0, FILLER, false), 0, [])
  {
  }

  /** The merge loop issues exactly one call for each visible cell, in row-major order, and stops. */
  method Merge(f0: seq<byte>, f1: seq<byte>) returns (calls: seq<Node>)
    ensures calls == Parse(f0, f1).UsersOf(Parse(f0, f1).Cells())
  {
    var s0, s1 := Source(0, FILLER, false), Source(0, FILLER, false);
    var row := 0;
    calls := [];
    MergeStart(f0, f1);
    while !s0.eof || !s1.eof
      invariant Merged(f0, f1, s0, s1, row, calls)
      decreases Parse(f0, f1).Height() - row
    {
      s0, s1, calls := MergeNext(f0, f1, s0, s1, row, calls);
      row := row + 1;
    }
    MergeDone(f0, f1, s0, s1, row, calls);
  }

  lemma MergeDone(f0: seq<byte>, f1: seq<byte>, s0: Source, s1: Source, row: nat, calls: seq<Node>)
    requires Merged(f0, f1, s0, s1, row, calls) && s0.eof && s1.eof
    ensures calls == Parse(f0, f1).UsersOf(Parse(f0, f1).Cells())
  {
  }

  lemma UsersOfAppend(f: Frames, a: seq<(nat, nat)>, b: seq<(nat, nat)>)
    ensures f.UsersOf(a + b) == f.UsersOf(a) + f.UsersOf(b)
  {
  }

  lemma StartRow(text: seq<byte>, s: Source, r: nat)
    requires s.AtRow(text, r) && s == s.Restart()
    ensures s.InRow(text, r, 0)
  {
  }

  /** Files of any size: the driver refuses the cells beyond the screen. Only a visible cell whose 16-bit location
      comes out as 0 is excluded, as for every add. */
  method AddFrames(f0: seq<byte>, f1: seq<byte>, blinker: BlinkPool.Blinker)
    requires blinker.Valid() && RunOk(Parse(f0, f1).AddOps())
    modifies blinker`head, blinker`chain, blinker.slots, blinker.video
    ensures blinker.Valid()
    ensures blinker.View() == Run(old(blinker.View()), Parse(f0, f1).AddOps())
  {
    var calls := Merge(f0, f1);
    blinker.Perform(Adds(calls));
  }

  /** The calls are harmless exactly if no visible cell has location 0; on the screen that is always so. */
  lemma AddOpsOkIff(f: Frames)
    ensures RunOk(f.AddOps()) <==> forall r: nat, c: nat :: f.VisibleAt(r, c) ==> f.UserAt(r, c).location != 0
    ensures f.OnScreen() ==> RunOk(f.AddOps())
  {
    CellsExact(f);
    var cells := f.Cells();
    if RunOk(f.AddOps()) {
      forall r: nat, c: nat | f.VisibleAt(r, c)
        ensures f.UserAt(r, c).location != 0
      {
        var i := CellIndex(f, r, c);
        assert NonZeroAdd(f.AddOps()[i]);
      }
    }
    forall i | 0 <= i < |cells|
      ensures f.VisibleAt(cells[i].0, cells[i].1)
    {
      assert cells[i] in cells;
    }
  }

  lemma UserLocation(f: Frames, r: nat, c: nat)
    requires f.OnScreen() && f.VisibleAt(r, c)
    ensures f.UserAt(r, c).location == r * ROW_WIDTH + c + OFFSET
  {
  }

  // ---------- the animation ----------

  ghost predicate WithinRows(f: Frames) {
    forall r: nat, c: nat :: f.VisibleAt(r, c) ==> c < ROW_WIDTH
  }

  lemma BeforeIsBelow(f: Frames, a: (nat, nat), b: (nat, nat))
    requires f.OnScreen() && WithinRows(f) && f.VisibleAt(a.0, a.1) && f.VisibleAt(b.0, b.1) && Before(a, b)
    ensures f.UserAt(a.0, a.1).location < f.UserAt(b.0, b.1).location
  {
    UserLocation(f, a.0, a.1);
    UserLocation(f, b.0, b.1);
  }

  lemma UsersIncreasing(f: Frames)
    requires f.OnScreen() && WithinRows(f)
    ensures Increasing(f.UsersOf(f.Cells()))
  {
    CellsExact(f);
    var cells := f.Cells();
    forall i | 0 <= i < |cells|
      ensures f.VisibleAt(cells[i].0, cells[i].1)
      ensures 1 <= f.UserAt(cells[i].0, cells[i].1).location < SCREEN_CELLS
    {
      assert cells[i] in cells;
      UserLocation(f, cells[i].0, cells[i].1);
    }
    forall i, j | 0 <= i < j < |cells|
      ensures f.UserAt(cells[i].0, cells[i].1).location < f.UserAt(cells[j].0, cells[j].1).location
    {
      assert Before(cells[i], cells[j]);
      BeforeIsBelow(f, cells[i], cells[j]);
    }
  }

  lemma CellIndex(f: Frames, r: nat, c: nat) returns (i: nat)
    requires f.VisibleAt(r, c)
    ensures i < |f.Cells()| && f.UsersOf(f.Cells())[i] == f.UserAt(r, c)
  {
    CellsExact(f);
    assert (r, c) in f.Cells();
    i :| 0 <= i < |f.Cells()| && f.Cells()[i] == (r, c);
  }

  lemma FrameTiming(f: Frames, r: nat, c: nat, t: nat)
    ensures var user := f.UserAt(r, c);
            t % Period(user) < Span(user.onLength) <==> t % 30 < 15
  {
  }

  /** After the frames are added and the clock has ticked `t` times, every visible cell shows the first file
      during the first half of every 30 ticks and the second file during the other half. */
  lemma FishAnimation(d: Display, f: Frames, t: nat, r: nat, c: nat)
    requires Good(d) && d.nodes == []
    requires f.OnScreen() && WithinRows(f) && f.VisibleAt(r, c)
    ensures RunOk(f.AddOps() + Clock(t))
    ensures r * 80 + c + 40 < 2000
    ensures var shown := if t % 30 < 15 then f.first else f.second;
            Run(d, f.AddOps() + Clock(t)).screen[2 * (r * 80 + c + 40)] ==
            if r < |shown| && c < |shown[r]| then shown[r][c] else 32
  {
    UsersIncreasing(f);
    var i := CellIndex(f, r, c);
    UserLocation(f, r, c);
    Animation(d, f.UsersOf(f.Cells()), t, i);
    FrameTiming(f, r, c, t);
  }

  /** The rest of the screen, and every attribute byte, is left as it was. */
  lemma FishBackground(d: Display, f: Frames, t: nat, b: nat)
    requires Good(d) && d.nodes == [] && b < VIDEO_BYTES
    requires f.OnScreen() && WithinRows(f)
    requires forall r: nat, c: nat :: f.VisibleAt(r, c) ==> b != 2 * (r * ROW_WIDTH + c + OFFSET)
    ensures RunOk(f.AddOps() + Clock(t))
    ensures Run(d, f.AddOps() + Clock(t)).screen[b] == d.screen[b]
  {
    var cells := f.Cells();
    UsersIncreasing(f);
    CellsExact(f);
    forall i | 0 <= i < |cells|
      ensures 2 * f.UsersOf(cells)[i].location != b
    {
      assert cells[i] in cells;
      UserLocation(f, cells[i].0, cells[i].1);
    }
    AnimationBackground(d, f.UsersOf(cells), t, b);
  }
}
