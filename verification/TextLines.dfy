/** Texts as sequences of lines, and the lines that contain a pattern. */
module TextLines {
  import opened Bytes

  /** The lines of a text; a final newline is followed by one empty line. */
  function Lines(text: seq<byte>): (r: seq<seq<byte>>)
    ensures |r| >= 1
  {
    if text == [] then [[]]
    else
      var rest := Lines(text[1..]);
      if text[0] == NEWLINE then [[]] + rest else [[text[0]] + rest[0]] + rest[1..]
  }

  lemma {:induction false} LinesPrefix(a: seq<byte>, b: seq<byte>)
    requires NEWLINE !in a
    ensures Lines(a + b) == [a + Lines(b)[0]] + Lines(b)[1..]
  {
    if a == [] {
      assert a + b == b && a + Lines(b)[0] == Lines(b)[0];
    } else {
      assert (a + b)[1..] == a[1..] + b;
      LinesPrefix(a[1..], b);
      assert [a[0]] + (a[1..] + Lines(b)[0]) == a + Lines(b)[0];
    }
  }

  lemma LinesSplit(a: seq<byte>, b: seq<byte>)
    requires NEWLINE !in a
    ensures Lines(a + [NEWLINE] + b) == [a] + Lines(b)
  {
    LinesPrefix(a, [NEWLINE] + b);
    assert a + [NEWLINE] + b == a + ([NEWLINE] + b);
    assert ([NEWLINE] + b)[1..] == b;
    assert a + [] == a;
  }

  lemma LinesWhole(a: seq<byte>)
    requires NEWLINE !in a
    ensures Lines(a) == [a]
  {
    LinesPrefix(a, []);
    assert a + [] == a;
  }

  predicate MatchesAt(line: seq<byte>, pattern: seq<byte>, i: int) {
    0 <= i <= |line| - |pattern| && line[i..i + |pattern|] == pattern
  }

  predicate Contains(line: seq<byte>, pattern: seq<byte>) {
    exists i :: 0 <= i <= |line| && MatchesAt(line, pattern, i)
  }

  /** A line contains the pattern if there is something in front of it and something behind it that make up the line. */
  lemma ContainsIff(line: seq<byte>, pattern: seq<byte>)
    ensures Contains(line, pattern) <==> exists a: seq<byte>, b: seq<byte> :: line == a + pattern + b
  {
    if Contains(line, pattern) {
      var i :| 0 <= i <= |line| && MatchesAt(line, pattern, i);
      assert line == line[..i] + pattern + line[i + |pattern|..];
    }
    if a: seq<byte>, b: seq<byte> :| line == a + pattern + b {
      assert line[|a|..|a| + |pattern|] == pattern;
      assert MatchesAt(line, pattern, |a|);
    }
  }

  /** The lines that contain the pattern, in order. */
  function Hits(lines: seq<seq<byte>>, pattern: seq<byte>): seq<seq<byte>> {
    if lines == [] then []
    else (if Contains(lines[0], pattern) then [lines[0]] else []) + Hits(lines[1..], pattern)
  }

  lemma {:induction false} HitsAppend(a: seq<seq<byte>>, b: seq<seq<byte>>, pattern: seq<byte>)
    ensures Hits(a + b, pattern) == Hits(a, pattern) + Hits(b, pattern)
  {
    if a == [] {
      assert a + b == b;
    } else {
      assert (a + b)[1..] == a[1..] + b;
      HitsAppend(a[1..], b, pattern);
    }
  }

  /** The numbers of the lines that contain the pattern. */
  ghost function HitNumbers(lines: seq<seq<byte>>, pattern: seq<byte>): seq<nat> {
    if lines == [] then []
    else
      var n := |lines| - 1;
      HitNumbers(lines[..n], pattern) + if Contains(lines[n], pattern) then [n] else []
  }

  /** Every line that contains the pattern is listed, once each and in order, and no other is. */
  lemma {:induction false} HitsInOrder(lines: seq<seq<byte>>, pattern: seq<byte>)
    ensures var numbers := HitNumbers(lines, pattern);
            && (forall n :: n in numbers <==> 0 <= n < |lines| && Contains(lines[n], pattern))
            && (forall i, j :: 0 <= i < j < |numbers| ==> numbers[i] < numbers[j])
            && |Hits(lines, pattern)| == |numbers|
            && (forall i :: 0 <= i < |numbers| ==> numbers[i] < |lines| && Hits(lines, pattern)[i] == lines[numbers[i]])
    decreases |lines|
  {
    if lines != [] {
      var n := |lines| - 1;
      HitsInOrder(lines[..n], pattern);
      assert lines == lines[..n] + [lines[n]];
      HitsAppend(lines[..n], [lines[n]], pattern);
      assert Hits([lines[n]][1..], pattern) == [];
      NumbersBelow(lines[..n], pattern);
    }
  }

  lemma {:induction false} NumbersBelow(lines: seq<seq<byte>>, pattern: seq<byte>)
    ensures forall i :: 0 <= i < |HitNumbers(lines, pattern)| ==> HitNumbers(lines, pattern)[i] < |lines|
    decreases |lines|
  {
    if lines != [] {
      NumbersBelow(lines[..|lines| - 1], pattern);
    }
  }

  lemma {:induction false} HitsExact(lines: seq<seq<byte>>, pattern: seq<byte>, l: seq<byte>)
    ensures l in Hits(lines, pattern) <==> l in lines && Contains(l, pattern)
  {
    if lines != [] {
      HitsExact(lines[1..], pattern, l);
      assert lines == [lines[0]] + lines[1..];
    }
  }
}
