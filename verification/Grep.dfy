/** The grep program's scanner: a 1024-byte buffer slides over a file, a partial line is carried down to the
    start of the buffer before the next read, and matching lines are printed. */
module Grep {
  import opened Bytes
  import opened CStrings
  import opened TextLines

  const BUFSIZE := 1024
  const COLON: byte := 58

  // ---------- what the scanner prints ----------

  function NextNewline(f: seq<byte>): (n: nat)
    ensures n <= |f| && NEWLINE !in f[..n]
    ensures n < |f| ==> f[n] == NEWLINE
  {
    if f == [] || f[0] == NEWLINE then 0
    else
      var n := 1 + NextNewline(f[1..]);
      assert f[..n] == [f[0]] + f[1..][..n - 1];
      n
  }

  /** A line, or the part of it that fits the buffer. */
  function PieceLength(f: seq<byte>): (n: nat)
    ensures n <= |f| && n <= BUFSIZE && NEWLINE !in f[..n]
    ensures n < |f| && n < BUFSIZE ==> f[n] == NEWLINE
  {
    var n := NextNewline(f);
    assert n > BUFSIZE ==> forall i :: 0 <= i < BUFSIZE ==> f[i] == f[..n][i];
    if n <= BUFSIZE then n else BUFSIZE
  }

  function AfterPiece(f: seq<byte>): (rest: seq<byte>)
    ensures f != [] ==> |rest| < |f|
  {
    var n := PieceLength(f);
    if n < BUFSIZE && n < |f| then f[n + 1..] else f[n..]
  }

  /** The lines of a file, each cut every 1024 bytes. */
  function Pieces(f: seq<byte>): seq<seq<byte>> {
    if f == [] then [] else [f[..PieceLength(f)]] + Pieces(AfterPiece(f))
  }

  /** The file name, a colon, the line. */
  function OutputLine(fname: seq<byte>, line: seq<byte>): seq<byte> {
    fname + [COLON] + line + [NEWLINE]
  }

  /** One line of output per hit. */
  function Render(fname: seq<byte>, lines: seq<seq<byte>>): seq<byte> {
    if lines == [] then []
    else Render(fname, lines[..|lines| - 1]) + OutputLine(fname, lines[|lines| - 1])
  }

  /** The pieces of a single line. */
  function Cut(line: seq<byte>): seq<seq<byte>> {
    if |line| < BUFSIZE then [line] else [line[..BUFSIZE]] + Cut(line[BUFSIZE..])
  }

  function CutHits(lines: seq<seq<byte>>, pattern: seq<byte>): seq<seq<byte>> {
    if lines == [] then [] else Hits(Cut(lines[0]), pattern) + CutHits(lines[1..], pattern)
  }

  lemma NoHitInEmpty(pattern: seq<byte>)
    requires pattern != []
    ensures Hits([[]], pattern) == []
  {
  }

  lemma CutStepNewline(piece: seq<byte>, rest: seq<byte>, pattern: seq<byte>)
    requires |piece| < BUFSIZE && NEWLINE !in piece
    ensures CutHits(Lines(piece + [NEWLINE] + rest), pattern) ==
            Hits([piece], pattern) + CutHits(Lines(rest), pattern)
  {
    LinesSplit(piece, rest);
    assert ([piece] + Lines(rest))[1..] == Lines(rest);
  }

  lemma CutStepFull(piece: seq<byte>, rest: seq<byte>, pattern: seq<byte>)
    requires |piece| == BUFSIZE && NEWLINE !in piece
    ensures CutHits(Lines(piece + rest), pattern) == Hits([piece], pattern) + CutHits(Lines(rest), pattern)
  {
    LinesPrefix(piece, rest);
    var line, more := Lines(rest)[0], Lines(rest)[1..];
    assert (piece + line)[..BUFSIZE] == piece && (piece + line)[BUFSIZE..] == line;
    HitsAppend([piece], Cut(line), pattern);
    assert ([piece + line] + more)[1..] == more;
  }

  lemma CutStepLast(piece: seq<byte>, pattern: seq<byte>)
    requires |piece| < BUFSIZE && NEWLINE !in piece && pattern != []
    ensures CutHits(Lines(piece), pattern) == Hits([piece], pattern)
  {
    LinesWhole(piece);
  }

  lemma SplitPiece(f: seq<byte>)
    requires f != []
    ensures var n := PieceLength(f);
            f == f[..n] + (if n < BUFSIZE && n < |f| then [NEWLINE] else []) + AfterPiece(f)
  {
  }

  lemma FirstPieceCut(f: seq<byte>, pattern: seq<byte>)
    requires f != [] && pattern != []
    ensures CutHits(Lines(f), pattern) == Hits([f[..PieceLength(f)]], pattern) + CutHits(Lines(AfterPiece(f)), pattern)
  {
    var n := PieceLength(f);
    var piece, rest := f[..n], AfterPiece(f);
    SplitPiece(f);
    if n == BUFSIZE {
      assert f == piece + rest;
      CutStepFull(piece, rest, pattern);
    } else if n < |f| {
      CutStepNewline(piece, rest, pattern);
    } else {
      assert f == piece && rest == [];
      CutStepLast(piece, pattern);
      CutStepLast([], pattern);
      NoHitInEmpty(pattern);
    }
  }

  /** Cutting the file while it is read is the same as cutting each of its lines. */
  lemma {:induction false} PiecesAreCutLines(f: seq<byte>, pattern: seq<byte>)
    requires pattern != []
    ensures Hits(Pieces(f), pattern) == CutHits(Lines(f), pattern)
    decreases |f|
  {
    if f == [] {
      CutStepLast([], pattern);
      NoHitInEmpty(pattern);
    } else {
      HitsAppend([f[..PieceLength(f)]], Pieces(AfterPiece(f)), pattern);
      PiecesAreCutLines(AfterPiece(f), pattern);
      FirstPieceCut(f, pattern);
    }
  }

  lemma {:induction false} CutShort(line: seq<byte>, pattern: seq<byte>)
    requires pattern != [] && |line| <= BUFSIZE
    ensures Hits(Cut(line), pattern) == Hits([line], pattern)
  {
    if |line| == BUFSIZE {
      assert line[..BUFSIZE] == line && line[BUFSIZE..] == [];
      HitsAppend([line], [[]], pattern);
      NoHitInEmpty(pattern);
    }
  }

  lemma NoMatchInPart(line: seq<byte>, lo: nat, hi: nat, pattern: seq<byte>)
    requires lo <= hi <= |line| && !Contains(line, pattern)
    ensures !Contains(line[lo..hi], pattern)
  {
    forall i | 0 <= i <= hi - lo
      ensures !MatchesAt(line[lo..hi], pattern, i)
    {
      if i + |pattern| <= hi - lo {
        var j := lo + i;
        assert !MatchesAt(line, pattern, j);
        SliceOfSlice(line, lo, hi, i, i + |pattern|);
      }
    }
  }

  lemma {:induction false} CutNoMatch(line: seq<byte>, pattern: seq<byte>)
    requires !Contains(line, pattern)
    ensures Hits(Cut(line), pattern) == []
    decreases |line|
  {
    if |line| >= BUFSIZE {
      NoMatchInPart(line, 0, BUFSIZE, pattern);
      NoMatchInPart(line, BUFSIZE, |line|, pattern);
      assert line[BUFSIZE..|line|] == line[BUFSIZE..];
      CutNoMatch(line[BUFSIZE..], pattern);
      HitsAppend([line[..BUFSIZE]], Cut(line[BUFSIZE..]), pattern);
    }
  }

  lemma {:induction false} PiecesAreShort(f: seq<byte>, piece: seq<byte>)
    requires piece in Pieces(f)
    ensures |piece| <= BUFSIZE
    decreases |f|
  {
    if piece != f[..PieceLength(f)] {
      PiecesAreShort(AfterPiece(f), piece);
    }
  }

  ghost predicate MatchingLinesFit(lines: seq<seq<byte>>, pattern: seq<byte>) {
    forall l :: l in lines && Contains(l, pattern) ==> |l| <= 1024
  }

  lemma {:induction false} CutHitsWhenFit(lines: seq<seq<byte>>, pattern: seq<byte>)
    requires pattern != [] && MatchingLinesFit(lines, pattern)
    ensures CutHits(lines, pattern) == Hits(lines, pattern)
  {
    if lines != [] {
      CutHitsWhenFit(lines[1..], pattern);
      var line := lines[0];
      if Contains(line, pattern) {
        CutShort(line, pattern);
      } else {
        CutNoMatch(line, pattern);
      }
      assert [line] + lines[1..] == lines;
      HitsAppend([line], lines[1..], pattern);
    }
  }

  /** A byte as the pattern's signed characters hold it. */
  function SignExtended(b: byte): int {
    if b < 0x80 then b else b - 0x100
  }

  /** The scanner looks for the pattern's first character, which it holds as a signed one, among unsigned bytes. It
      therefore never finds an empty pattern, nor one that starts with a byte from 0x80 on. */
  predicate Searchable(pattern: seq<byte>) {
    pattern != [] && pattern[0] < 0x80
  }

  predicate Finds(line: seq<byte>, pattern: seq<byte>) {
    Searchable(pattern) && Contains(line, pattern)
  }

  /** The lines that the scanner reports. */
  function Reported(lines: seq<seq<byte>>, pattern: seq<byte>): seq<seq<byte>> {
    if Searchable(pattern) then Hits(lines, pattern) else []
  }

  lemma NoHitsIff(lines: seq<seq<byte>>, pattern: seq<byte>)
    ensures Hits(lines, pattern) == [] <==> forall l :: l in lines ==> !Contains(l, pattern)
  {
    forall l
      ensures l in Hits(lines, pattern) <==> l in lines && Contains(l, pattern)
    {
      HitsExact(lines, pattern, l);
    }
    if Hits(lines, pattern) != [] {
      assert Hits(lines, pattern)[0] in Hits(lines, pattern);
    }
  }

  /** The scanner prints exactly the lines that contain the pattern if and only if the pattern is not empty, every
      one of those lines fits the buffer, and, if the pattern starts with a byte from 0x80 on, there are none. */
  lemma PrintsMatchingLinesIff(f: seq<byte>, pattern: seq<byte>)
    ensures Reported(Pieces(f), pattern) == Hits(Lines(f), pattern) <==>
            && pattern != [] && MatchingLinesFit(Lines(f), pattern)
            && (pattern[0] < 0x80 || forall l :: l in Lines(f) ==> !Contains(l, pattern))
  {
    if pattern == [] {
      assert MatchesAt(Lines(f)[0], pattern, 0);
      return;
    }
    if pattern[0] >= 0x80 {
      NoHitsIff(Lines(f), pattern);
      return;
    }
    PiecesAreCutLines(f, pattern);
    if MatchingLinesFit(Lines(f), pattern) {
      CutHitsWhenFit(Lines(f), pattern);
    } else {
      var l :| l in Lines(f) && Contains(l, pattern) && |l| > BUFSIZE;
      HitsExact(Lines(f), pattern, l);
      HitsExact(Pieces(f), pattern, l);
      if l in Pieces(f) {
        PiecesAreShort(f, l);
      }
    }
  }

  /** A line that is the pattern itself is not printed if it starts with a byte from 0x80 on. */
  lemma HighByteIsMissed(c: byte)
    requires c >= 0x80
    ensures Hits(Lines([c]), [c]) == [[c]] && Reported(Pieces([c]), [c]) == []
  {
    LinesWhole([c]);
    assert MatchesAt([c], [c], 0);
  }

  /** The smallest case in which a line is too long: one matching line of 1025 bytes is printed as two. */
  lemma LongLineIsCut(c: byte)
    requires c != NEWLINE && c < 0x80
    ensures var f := Repeat(c, BUFSIZE + 1);
            && Hits(Lines(f), [c]) == [f]
            && Reported(Pieces(f), [c]) == [Repeat(c, BUFSIZE), [c]]
  {
    var f := Repeat(c, BUFSIZE + 1);
    assert f[..BUFSIZE] == Repeat(c, BUFSIZE) && f[BUFSIZE..] == [c];
    LinesWhole(f);
    assert Pieces(f) == [Repeat(c, BUFSIZE)] + [[c]] by {
      PieceKnown(f, BUFSIZE);
      PieceKnown([c], 1);
      assert [c][..1] == [c] && [c][1..] == [];
    }
    assert MatchesAt(f, [c], 0) && MatchesAt(Repeat(c, BUFSIZE), [c], 0) && MatchesAt([c], [c], 0);
    HitsAppend([Repeat(c, BUFSIZE)], [[c]], [c]);
    ReportedOne(f, [c]);
    ReportedOne(Repeat(c, BUFSIZE), [c]);
    ReportedOne([c], [c]);
  }

  // ---------- the scanner ----------

  /** Index of the next newline of the buffer below `last`, or `last`. */
  method FindLineEnd(data: array<byte>, start: nat, last: nat) returns (end: nat)
    requires start <= last < data.Length
    ensures start <= end <= last && NEWLINE !in data[start..end]
    ensures end < last ==> data[end] == NEWLINE
  {
    end := start;
    while end < last && data[end] != NEWLINE
      invariant start <= end <= last
      invariant forall i :: start <= i < end ==> data[i] != NEWLINE
    {
      end := end + 1;
    }
  }

  /** Does the string at `start`, which ends at `end`, contain the pattern? */
  method LineMatches(data: array<byte>, start: nat, end: nat, s: array<byte>, sLen: nat) returns (found: bool)
    requires Terminated(s[..], 0) && sLen == |CStr(s[..], 0)|
    requires start <= end < data.Length && StrEnd(data[..], start) == end
    ensures found == Finds(data[start..end], CStr(s[..], 0))
  {
    ghost var line, pattern := data[start..end], CStr(s[..], 0);
    var check := start;
    while check < end
      invariant start <= check <= end
      invariant Searchable(pattern) ==> forall i :: 0 <= i < check - start ==> !MatchesAt(line, pattern, i)
    {
      StrEndIs(data[..], check, end);
      CompareZero(CStr(data[..], check), pattern, sLen);
      assert CStr(data[..], check) == line[check - start..];
      if pattern != [] {
        MatchIsPrefix(line, pattern, check - start);
      }
      if SignExtended(s[0]) == data[check] {
        var order := StrNCmp(data, check, s, 0, sLen);
        if order == 0 {
          return true;
        }
      }
      check := check + 1;
    }
    return false;
  }

  lemma MatchIsPrefix(line: seq<byte>, pattern: seq<byte>, i: nat)
    requires i < |line| && pattern != []
    ensures MatchesAt(line, pattern, i) <==> Take(line[i..], |pattern|) == Take(pattern, |pattern|)
    ensures MatchesAt(line, pattern, i) ==> line[i] == pattern[0]
  {
    if i + |pattern| <= |line| {
      assert line[i..][..|pattern|] == line[i..i + |pattern|];
      assert line[i..i + |pattern|][0] == line[i];
    }
  }

  /** `rest`, the part of the file that is not scanned yet, is what the buffer holds from `start` to `last`
      followed by the unread `tail`. The byte behind the buffer is not a newline. */
  ghost predicate Buffered(data: seq<byte>, start: nat, last: nat, tail: seq<byte>, rest: seq<byte>) {
    && |data| == BUFSIZE + 1 && data[BUFSIZE] != NEWLINE
    && start <= last <= BUFSIZE
    && rest == data[start..last] + tail
  }

  /** The read system call on an open file: a short count only at the end of the file. */
  method Read(file: seq<byte>, pos: nat, data: array<byte>, at: nat, want: nat) returns (cnt: nat)
    requires pos <= |file| && at + want <= data.Length
    modifies data
    ensures cnt == if want <= |file| - pos then want else |file| - pos
    ensures data[..] == old(data[..at]) + file[pos..pos + cnt] + old(data[at + cnt..])
  {
    cnt := if want <= |file| - pos then want else |file| - pos;
    forall i | 0 <= i < cnt {
      data[at + i] := file[pos + i];
    }
  }

  lemma PieceLengthIs(rest: seq<byte>, n: nat)
    requires n <= |rest| && n <= BUFSIZE && NEWLINE !in rest[..n]
    requires n < |rest| && n < BUFSIZE ==> rest[n] == NEWLINE
    ensures PieceLength(rest) == n
  {
    var m := PieceLength(rest);
    assert forall i :: 0 <= i < n ==> rest[i] == rest[..n][i];
    assert forall i :: 0 <= i < m ==> rest[i] == rest[..m][i];
  }

  lemma PieceKnown(rest: seq<byte>, n: nat)
    requires n <= |rest| && n <= BUFSIZE && NEWLINE !in rest[..n] && rest != []
    requires n < |rest| && n < BUFSIZE ==> rest[n] == NEWLINE
    ensures PieceLength(rest) == n
    ensures Pieces(rest) == [rest[..n]] + Pieces(if n < BUFSIZE && n < |rest| then rest[n + 1..] else rest[n..])
  {
    PieceLengthIs(rest, n);
  }

  /** The hits of a text whose first piece is known. */
  lemma PieceDone(rest: seq<byte>, n: nat, next: seq<byte>, pattern: seq<byte>)
    requires n <= |rest| && n <= BUFSIZE && NEWLINE !in rest[..n]
    requires n < |rest| && n < BUFSIZE ==> rest[n] == NEWLINE
    requires next == if n < BUFSIZE && n < |rest| then rest[n + 1..] else rest[n..]
    ensures Reported(Pieces(rest), pattern) == Reported([rest[..n]], pattern) + Reported(Pieces(next), pattern)
  {
    if Searchable(pattern) {
      if rest == [] {
        NoHitInEmpty(pattern);
      } else {
        PieceKnown(rest, n);
        HitsAppend([rest[..n]], Pieces(next), pattern);
      }
    }
  }

  /** The line in the buffer from `start` to `end` is the first piece of the rest of the file. */
  lemma LineDone(data: seq<byte>, start: nat, end: nat, last: nat, tail: seq<byte>, rest: seq<byte>,
                 pattern: seq<byte>)
    returns (next: seq<byte>)
    requires Buffered(data, start, last, tail, rest)
    requires start <= end <= last && NEWLINE !in data[start..end]
    requires end < last ==> data[end] == NEWLINE
    requires end == last ==> tail == [] || end - start == BUFSIZE
    ensures Buffered(data, if end < last then end + 1 else last, last, tail, next)
    ensures NUL !in rest ==> NUL !in next
    ensures Reported(Pieces(rest), pattern) == Reported([data[start..end]], pattern) + Reported(Pieces(next), pattern)
  {
    var n := end - start;
    var after := if end < last then end + 1 else last;
    next := data[after..last] + tail;
    assert rest[..n] == data[start..end];
    if end < last {
      assert rest[n] == data[end];
      assert next == rest[n + 1..];
    } else {
      assert next == rest[n..];
    }
    PieceDone(rest, n, next, pattern);
  }

  /** Prints the file name and the line at `start`. */
  method PrintHit(fname: seq<byte>, data: array<byte>, start: nat, out: seq<byte>) returns (out': seq<byte>)
    requires Terminated(data[..], start)
    ensures out' == out + Render(fname, [CStr(data[..], start)])
  {
    var len := StrLen(data, start);
    out' := out + fname + [COLON] + data[start..start + len] + [NEWLINE];
    ghost var line := CStr(data[..], start);
    assert data[start..start + len] == line;
    assert Render(fname, [line][..0]) == [];
    assert Render(fname, [line]) == [] + OutputLine(fname, line);
    assert out + fname + [COLON] + line + [NEWLINE] == out + OutputLine(fname, line);
  }

  lemma RenderLast(fname: seq<byte>, lines: seq<seq<byte>>, line: seq<byte>)
    ensures Render(fname, lines + [line]) == Render(fname, lines) + OutputLine(fname, line)
  {
    assert (lines + [line])[..|lines|] == lines;
  }

  lemma {:induction false} RenderAppend(fname: seq<byte>, a: seq<seq<byte>>, b: seq<seq<byte>>)
    ensures Render(fname, a + b) == Render(fname, a) + Render(fname, b)
    decreases |b|
  {
    if b == [] {
      assert a + b == a;
    } else {
      var init, last := b[..|b| - 1], b[|b| - 1];
      RenderAppend(fname, a, init);
      calc {
        Render(fname, a + b);
        { assert a + b == (a + init) + [last]; }
        Render(fname, (a + init) + [last]);
        { RenderLast(fname, a + init, last); }
        (Render(fname, a) + Render(fname, init)) + OutputLine(fname, last);
        Render(fname, a) + (Render(fname, init) + OutputLine(fname, last));
        Render(fname, a) + Render(fname, b);
      }
    }
  }

  /** The output read as lines: the file name, a colon and the hit for each hit, in order, and nothing behind. */
  ghost predicate ListsHits(out: seq<byte>, fname: seq<byte>, hits: seq<seq<byte>>) {
    var shown := Lines(out);
    && |shown| == |hits| + 1 && shown[|hits|] == []
    && forall i :: 0 <= i < |hits| ==> shown[i] == fname + [58] + hits[i]
  }

  lemma {:induction false} RenderedLines(fname: seq<byte>, hits: seq<seq<byte>>)
    requires NEWLINE !in fname && forall i :: 0 <= i < |hits| ==> NEWLINE !in hits[i]
    ensures ListsHits(Render(fname, hits), fname, hits)
  {
    if hits != [] {
      var line, rest := fname + [COLON] + hits[0], Render(fname, hits[1..]);
      assert hits == [hits[0]] + hits[1..];
      RenderAppend(fname, [hits[0]], hits[1..]);
      RenderLast(fname, [], hits[0]);
      assert [] + [hits[0]] == [hits[0]];
      assert Render(fname, hits) == line + [NEWLINE] + rest;
      LinesSplit(line, rest);
      RenderedLines(fname, hits[1..]);
    }
  }

  lemma {:induction false} PiecesHaveNoNewline(f: seq<byte>)
    ensures forall i :: 0 <= i < |Pieces(f)| ==> NEWLINE !in Pieces(f)[i]
    decreases |f|
  {
    if f != [] {
      PiecesHaveNoNewline(AfterPiece(f));
    }
  }

  lemma OutputLists(fname: seq<byte>, f: seq<byte>, pattern: seq<byte>)
    requires NEWLINE !in fname
    ensures ListsHits(Render(fname, Reported(Pieces(f), pattern)), fname, Reported(Pieces(f), pattern))
  {
    var hits := Reported(Pieces(f), pattern);
    PiecesHaveNoNewline(f);
    forall i | 0 <= i < |hits|
      ensures NEWLINE !in hits[i]
    {
      HitsExact(Pieces(f), pattern, hits[i]);
    }
    RenderedLines(fname, hits);
  }

  lemma ReportedOne(line: seq<byte>, pattern: seq<byte>)
    ensures Reported([line], pattern) == if Finds(line, pattern) then [line] else []
  {
    assert Hits([line][1..], pattern) == [];
  }

  /** Searches one line of the buffer and prints it when it matches. The line is terminated first. */
  method SearchLine(s: array<byte>, sLen: nat, fname: seq<byte>, data: array<byte>, start: nat, end: nat,
                    out: seq<byte>)
    returns (out': seq<byte>)
    requires s != data && Terminated(s[..], 0) && sLen == |CStr(s[..], 0)|
    requires start <= end < data.Length && NUL !in data[start..end]
    modifies data
    ensures data[..] == old(data[..])[end := NUL]
    ensures out' == out + Render(fname, Reported([old(data[start..end])], CStr(s[..], 0)))
  {
    ghost var line := data[start..end];
    CutLine(data[..], start, end);
    data[end] := NUL;
    var found := LineMatches(data, start, end, s, sLen);
    ReportedOne(line, CStr(s[..], 0));
    out' := out;
    if found {
      out' := PrintHit(fname, data, start, out);
    }
  }

  lemma PrefixFree(line: seq<byte>, rest: seq<byte>)
    requires line <= rest && NUL !in rest
    ensures NUL !in line
  {
  }

  /** Carries the partial line from `start` on down to the start of the buffer. */
  method CarryDown(data: array<byte>, start: nat, last: nat, ghost tail: seq<byte>, ghost rest: seq<byte>)
    requires data.Length == BUFSIZE + 1 && Buffered(data[..], start, last, tail, rest)
    requires NUL !in rest
    modifies data
    ensures Buffered(data[..], 0, last - start, tail, rest)
  {
    PrefixFree(data[start..last], rest);
    CutLine(data[..], start, last);
    Carried(data[..], start, last, tail, rest);
    data[last] := NUL;
    StrCpy(data, 0, data, start);
  }

  /** Terminating a line makes it a string. */
  lemma CutLine(data: seq<byte>, start: nat, end: nat)
    requires start <= end < |data| && NUL !in data[start..end]
    ensures var data' := data[end := NUL];
            && data'[start..end] == data[start..end]
            && Terminated(data', start) && StrEnd(data', start) == end && CStr(data', start) == data[start..end]
  {
    var line, data' := data[start..end], data[end := NUL];
    assert forall i :: start <= i < end ==> data'[i] == line[i - start];
    StrEndIs(data', start, end);
  }

  lemma Carried(data: seq<byte>, start: nat, last: nat, tail: seq<byte>, rest: seq<byte>)
    requires Buffered(data, start, last, tail, rest)
    ensures Buffered(Put(data[last := NUL], 0, data[start..last] + [NUL]), 0, last - start, tail, rest)
  {
    var data' := Put(data[last := NUL], 0, data[start..last] + [NUL]);
    assert data'[0..last - start] == data[start..last];
  }

  /** Output `out` shows the hits of the part of `text` before `rest`. */
  ghost predicate Printed(fname: seq<byte>, pattern: seq<byte>, text: seq<byte>, rest: seq<byte>,
                          hits: seq<seq<byte>>, out: seq<byte>) {
    && Reported(Pieces(text), pattern) == hits + Reported(Pieces(rest), pattern)
    && out == Render(fname, hits)
  }

  lemma PrintedNext(fname: seq<byte>, pattern: seq<byte>, text: seq<byte>, rest: seq<byte>, next: seq<byte>,
                    hits: seq<seq<byte>>, more: seq<seq<byte>>, out: seq<byte>)
    requires Printed(fname, pattern, text, rest, hits, out)
    requires Reported(Pieces(rest), pattern) == more + Reported(Pieces(next), pattern)
    ensures Printed(fname, pattern, text, next, hits + more, out + Render(fname, more))
  {
    RenderAppend(fname, hits, more);
    Associative(hits, more, Reported(Pieces(next), pattern));
  }

  lemma Associative(a: seq<seq<byte>>, b: seq<seq<byte>>, c: seq<seq<byte>>)
    ensures a + (b + c) == (a + b) + c
  {
  }

  lemma PrintedAll(fname: seq<byte>, pattern: seq<byte>, text: seq<byte>, rest: seq<byte>,
                   hits: seq<seq<byte>>, out: seq<byte>)
    requires Printed(fname, pattern, text, rest, hits, out) && rest == []
    ensures out == Render(fname, Reported(Pieces(text), pattern))
  {
    assert hits + [] == hits;
  }

  /** The terminator behind a finished line does not disturb what is left to scan. */
  lemma LineTerminated(data: seq<byte>, end: nat, last: nat, tail: seq<byte>, rest: seq<byte>)
    requires end <= last && Buffered(data, if end < last then end + 1 else last, last, tail, rest)
    ensures if end + 1 >= last then Buffered(data[end := NUL], 0, 0, tail, rest)
            else Buffered(data[end := NUL], end + 1, last, tail, rest)
  {
  }

  /** Handles one complete line of the buffer: print it if it matches, account for it. */
  method ScanLine(s: array<byte>, sLen: nat, fname: seq<byte>, data: array<byte>, start: nat, end: nat, last: nat,
                  out: seq<byte>, ghost pattern: seq<byte>, ghost text: seq<byte>, ghost tail: seq<byte>,
                  ghost rest: seq<byte>, ghost hits: seq<seq<byte>>)
    returns (out': seq<byte>, ghost rest': seq<byte>, ghost hits': seq<seq<byte>>)
    requires s != data && Terminated(s[..], 0) && pattern == CStr(s[..], 0) && sLen == |pattern|
    requires data.Length == BUFSIZE + 1 && NUL !in rest && Buffered(data[..], start, last, tail, rest)
    requires start <= end <= last && NEWLINE !in data[start..end] && (end < last ==> data[end] == NEWLINE)
    requires end == last ==> tail == [] || end - start == BUFSIZE
    requires Printed(fname, pattern, text, rest, hits, out)
    modifies data
    ensures NUL !in rest' && Printed(fname, pattern, text, rest', hits', out')
    ensures if end + 1 >= last then Buffered(data[..], 0, 0, tail, rest')
            else Buffered(data[..], end + 1, last, tail, rest')
  {
    ghost var before, line := data[..], data[start..end];
    PrefixFree(line, rest);
    rest' := LineDone(before, start, end, last, tail, rest, pattern);
    hits' := hits + Reported([line], pattern);
    PrintedNext(fname, pattern, text, rest, rest', hits, Reported([line], pattern), out);
    out' := SearchLine(s, sLen, fname, data, start, end, out);
    LineTerminated(before, end, last, tail, rest');
  }

  /** The inner loop: prints the hits among the lines in the buffer and moves what is left to its start.
      Parameters `text` and `hits` are the whole file and what has been printed of it so far. */
  method ScanBuffer(s: array<byte>, sLen: nat, fname: seq<byte>, data: array<byte>, filled: nat, cnt: nat,
                    out: seq<byte>, ghost pattern: seq<byte>, ghost text: seq<byte>, ghost tail: seq<byte>,
                    ghost rest: seq<byte>, ghost hits: seq<seq<byte>>)
    returns (last: nat, out': seq<byte>, ghost rest': seq<byte>, ghost hits': seq<seq<byte>>)
    requires s != data && Terminated(s[..], 0) && pattern == CStr(s[..], 0) && sLen == |pattern|
    requires data.Length == BUFSIZE + 1 && NUL !in rest
    requires Buffered(data[..], 0, filled, tail, rest)
    requires tail != [] ==> filled == BUFSIZE && cnt != 0
    requires Printed(fname, pattern, text, rest, hits, out)
    modifies data
    ensures last < BUFSIZE && Buffered(data[..], 0, last, tail, rest') && NUL !in rest'
    ensures cnt == 0 ==> last == 0
    ensures Printed(fname, pattern, text, rest', hits', out')
  {
    last, out', rest', hits' := filled, out, rest, hits;
    var start := 0;
    while true
      invariant start <= last == filled && (start > 0 ==> start < last)
      invariant Buffered(data[..], start, last, tail, rest') && NUL !in rest'
      invariant Printed(fname, pattern, text, rest', hits', out')
      decreases last - start
    {
      var end := FindLineEnd(data, start, last);
      if data[end] != NEWLINE && cnt != 0 && start != 0 {
        CarryDown(data, start, last, tail, rest');
        last := last - start;
        return;
      }
      assert end == last ==> tail == [] || end - start == BUFSIZE;
      out', rest', hits' :=
        ScanLine(s, sLen, fname, data, start, end, last, out', pattern, text, tail, rest', hits');
      start := end + 1;
      if start >= last {
        last := 0;
        return;
      }
    }
  }

  /** A read moves bytes from the unread part of the file to the end of the buffer. */
  lemma BufferedRead(data: seq<byte>, data': seq<byte>, last: nat, cnt: nat, tail: seq<byte>, rest: seq<byte>)
    requires Buffered(data, 0, last, tail, rest) && cnt <= |tail| && last + cnt <= BUFSIZE
    requires data' == data[..last] + tail[..cnt] + data[last + cnt..]
    ensures Buffered(data', 0, last + cnt, tail[cnt..], rest)
  {
  }

  /** Reads as much as the buffer still takes. */
  method Refill(file: seq<byte>, pos: nat, data: array<byte>, last: nat, ghost rest: seq<byte>) returns (cnt: nat)
    requires pos <= |file| && last < BUFSIZE
    requires data.Length == BUFSIZE + 1 && Buffered(data[..], 0, last, file[pos..], rest)
    modifies data
    ensures pos + cnt <= |file| && last + cnt <= BUFSIZE
    ensures Buffered(data[..], 0, last + cnt, file[pos + cnt..], rest)
    ensures file[pos + cnt..] != [] ==> last + cnt == BUFSIZE && cnt != 0
    ensures cnt == 0 ==> pos == |file|
  {
    ghost var before := data[..];
    cnt := Read(file, pos, data, last, BUFSIZE - last);
    assert file[pos..][..cnt] == file[pos..pos + cnt] && file[pos..][cnt..] == file[pos + cnt..];
    BufferedRead(before, data[..], last, cnt, file[pos..], rest);
  }

  /** One turn of the outer loop: a read and a scan. */
  method ScanChunk(s: array<byte>, sLen: nat, fname: seq<byte>, file: seq<byte>, pos: nat, data: array<byte>,
                   last: nat, out: seq<byte>, ghost pattern: seq<byte>, ghost rest: seq<byte>,
                   ghost hits: seq<seq<byte>>)
    returns (pos': nat, last': nat, out': seq<byte>, ghost rest': seq<byte>, ghost hits': seq<seq<byte>>)
    requires s != data && Terminated(s[..], 0) && pattern == CStr(s[..], 0) && sLen == |pattern|
    requires data.Length == BUFSIZE + 1 && last < BUFSIZE && pos <= |file| && NUL !in rest
    requires Buffered(data[..], 0, last, file[pos..], rest) && Printed(fname, pattern, file, rest, hits, out)
    modifies data
    ensures pos <= pos' <= |file| && last' < BUFSIZE && NUL !in rest'
    ensures Buffered(data[..], 0, last', file[pos'..], rest') && Printed(fname, pattern, file, rest', hits', out')
    ensures pos' == pos ==> rest' == []
  {
    var cnt := Refill(file, pos, data, last, rest);
    pos' := pos + cnt;
    last', out', rest', hits' :=
      ScanBuffer(s, sLen, fname, data, last + cnt, cnt, out, pattern, file, file[pos'..], rest, hits);
  }

  /** Scans one open file. The buffer's initial contents do not matter except for the byte behind it. */
  method DoOneFile(s: array<byte>, fname: seq<byte>, file: seq<byte>, data: array<byte>)
    returns (rc: int, out: seq<byte>)
    requires s != data && Terminated(s[..], 0) && NUL !in file
    requires data.Length == BUFSIZE + 1 && data[BUFSIZE] != NEWLINE
    modifies data
    ensures rc == 0
    ensures out == Render(fname, Reported(Pieces(file), old(CStr(s[..], 0))))
    ensures NEWLINE !in fname ==> ListsHits(out, fname, Reported(Pieces(file), old(CStr(s[..], 0))))
  {
    ghost var pattern := CStr(s[..], 0);
    var sLen := StrLen(s, 0);
    var last, pos := 0, 0;
    out := [];
    ghost var hits: seq<seq<byte>>, rest := [], file;
    while true
      invariant last < BUFSIZE && pos <= |file| && NUL !in rest
      invariant Buffered(data[..], 0, last, file[pos..], rest)
      invariant Printed(fname, pattern, file, rest, hits, out)
      decreases |file| - pos
    {
      var was := pos;
      pos, last, out, rest, hits := ScanChunk(s, sLen, fname, file, pos, data, last, out, pattern, rest, hits);
      if pos == was {
        break;
      }
    }
    PrintedAll(fname, pattern, file, rest, hits, out);
    if NEWLINE !in fname {
      OutputLists(fname, file, pattern);
    }
    return 0, out;
  }
}
