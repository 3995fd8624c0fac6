/** Words of a text: the kernel's strtok, which cuts a string in place, and what it enumerates. */
module StringTokens {
  import opened Bytes
  import opened CStrings

  // ---------- words of a text ----------

  /** The first position from `i` on that is not a delimiter. */
  function WordStart(text: seq<byte>, delim: set<byte>, i: nat): (k: nat)
    requires i <= |text|
    ensures i <= k <= |text|
    ensures k < |text| ==> text[k] !in delim
    decreases |text| - i
  {
    if i == |text| || text[i] !in delim then i else WordStart(text, delim, i + 1)
  }

  /** The first position from `i` on that is a delimiter or the end. */
  function WordEnd(text: seq<byte>, delim: set<byte>, i: nat): (k: nat)
    requires i <= |text|
    ensures i <= k <= |text|
    ensures k < |text| ==> text[k] in delim
    decreases |text| - i
  {
    if i == |text| || text[i] in delim then i else WordEnd(text, delim, i + 1)
  }

  lemma {:induction false} WordStartSkips(text: seq<byte>, delim: set<byte>, i: nat)
    requires i <= |text|
    ensures forall m :: i <= m < WordStart(text, delim, i) ==> text[m] in delim
    decreases |text| - i
  {
    if i < |text| && text[i] in delim {
      WordStartSkips(text, delim, i + 1);
    }
  }

  lemma {:induction false} WordEndSkips(text: seq<byte>, delim: set<byte>, i: nat)
    requires i <= |text|
    ensures forall m :: i <= m < WordEnd(text, delim, i) ==> text[m] !in delim
    decreases |text| - i
  {
    if i < |text| && text[i] !in delim {
      WordEndSkips(text, delim, i + 1);
    }
  }

  lemma {:induction false} WordStartIs(text: seq<byte>, delim: set<byte>, i: nat, k: nat)
    requires i <= k <= |text| && forall m :: i <= m < k ==> text[m] in delim
    requires k < |text| ==> text[k] !in delim
    ensures WordStart(text, delim, i) == k
    decreases |text| - i
  {
    if i < k {
      WordStartIs(text, delim, i + 1, k);
    }
  }

  lemma {:induction false} WordEndIs(text: seq<byte>, delim: set<byte>, i: nat, k: nat)
    requires i <= k <= |text| && forall m :: i <= m < k ==> text[m] !in delim
    requires k < |text| ==> text[k] in delim
    ensures WordEnd(text, delim, i) == k
    decreases |text| - i
  {
    if i < k {
      WordEndIs(text, delim, i + 1, k);
    }
  }

  /** The words from position `i` on, as positions. */
  function Spans(text: seq<byte>, delim: set<byte>, i: nat): (spans: seq<(nat, nat)>)
    requires i <= |text|
    ensures forall n :: 0 <= n < |spans| ==> i <= spans[n].0 < spans[n].1 <= |text|
    decreases |text| - i
  {
    var b := WordStart(text, delim, i);
    if b == |text| then []
    else
      var e := WordEnd(text, delim, b);
      [(b, e)] + Spans(text, delim, e)
  }

  /** The words stand from left to right with something between them. */
  lemma {:induction false} SpansOrdered(text: seq<byte>, delim: set<byte>, i: nat)
    requires i <= |text|
    ensures var spans := Spans(text, delim, i);
            && (forall m, n :: 0 <= m < n < |spans| ==> spans[m].1 < spans[n].0)
            && (i < |text| && text[i] in delim && spans != [] ==> spans[0].0 > i)
    decreases |text| - i
  {
    var b := WordStart(text, delim, i);
    if b < |text| {
      SpansOrdered(text, delim, WordEnd(text, delim, b));
    }
  }

  function WordsAt(text: seq<byte>, spans: seq<(nat, nat)>): (words: seq<seq<byte>>)
    requires forall n :: 0 <= n < |spans| ==> spans[n].0 < spans[n].1 <= |text|
    ensures |words| == |spans|
    ensures forall n :: 0 <= n < |spans| ==> words[n] == text[spans[n].0..spans[n].1]
  {
    seq(|spans|, n requires 0 <= n < |spans| => text[spans[n].0..spans[n].1])
  }

  /** The words from position `i` on. */
  function TokensFrom(text: seq<byte>, delim: set<byte>, i: nat): seq<seq<byte>>
    requires i <= |text|
    decreases |text| - i
  {
    var b := WordStart(text, delim, i);
    if b == |text| then []
    else [text[b..WordEnd(text, delim, b)]] + TokensFrom(text, delim, WordEnd(text, delim, b))
  }

  function Tokens(text: seq<byte>, delim: set<byte>): seq<seq<byte>> {
    TokensFrom(text, delim, 0)
  }

  lemma {:induction false} TokensAtSpans(text: seq<byte>, delim: set<byte>, i: nat)
    requires i <= |text|
    ensures TokensFrom(text, delim, i) == WordsAt(text, Spans(text, delim, i))
    decreases |text| - i
  {
    var b := WordStart(text, delim, i);
    if b < |text| {
      var e := WordEnd(text, delim, b);
      TokensAtSpans(text, delim, e);
      WordsAtCons(text, b, e, Spans(text, delim, e));
    }
  }

  lemma WordsAtCons(text: seq<byte>, b: nat, e: nat, spans: seq<(nat, nat)>)
    requires b < e <= |text| && forall n :: 0 <= n < |spans| ==> spans[n].0 < spans[n].1 <= |text|
    ensures WordsAt(text, [(b, e)] + spans) == [text[b..e]] + WordsAt(text, spans)
  {
  }

  /** A run of non-delimiters that cannot be extended on either side. */
  ghost predicate MaximalRun(text: seq<byte>, delim: set<byte>, i: int, j: int) {
    && 0 <= i < j <= |text|
    && (forall k :: i <= k < j ==> text[k] !in delim)
    && (i > 0 ==> text[i - 1] in delim)
    && (j < |text| ==> text[j] in delim)
  }

  lemma {:induction false} SpansExact(text: seq<byte>, delim: set<byte>, s: nat, i: nat, j: nat)
    requires s <= |text| && (s == 0 || s == |text| || text[s] in delim)
    ensures (i, j) in Spans(text, delim, s) <==> s <= i && MaximalRun(text, delim, i, j)
    decreases |text| - s
  {
    var b := WordStart(text, delim, s);
    if b < |text| {
      var e := WordEnd(text, delim, b);
      SpansExact(text, delim, e, i, j);
      WordStartSkips(text, delim, s);
      WordEndSkips(text, delim, b);
      assert b > s ==> text[b - 1] in delim;
      assert s <= i < b && j > i ==> text[i] in delim;
      assert b < i < e && i > 0 ==> text[i - 1] !in delim;
    } else {
      WordStartSkips(text, delim, s);
      assert s <= i < |text| ==> text[i] in delim;
    }
  }

  /** The words are exactly the maximal runs of non-delimiters, each once and from left to right. */
  lemma TokensAreMaximalRuns(text: seq<byte>, delim: set<byte>)
    ensures Tokens(text, delim) == WordsAt(text, Spans(text, delim, 0))
    ensures forall m, n :: 0 <= m < n < |Spans(text, delim, 0)| ==>
              Spans(text, delim, 0)[m].1 < Spans(text, delim, 0)[n].0
    ensures forall i: nat, j: nat :: (i, j) in Spans(text, delim, 0) <==> MaximalRun(text, delim, i, j)
  {
    forall i: nat, j: nat
      ensures (i, j) in Spans(text, delim, 0) <==> MaximalRun(text, delim, i, j)
    {
      SpansExact(text, delim, 0, i, j);
    }
    TokensAtSpans(text, delim, 0);
    SpansOrdered(text, delim, 0);
  }

  /** A word: not empty and without delimiters. */
  ghost predicate IsWord(w: seq<byte>, delim: set<byte>) {
    w != [] && forall i :: 0 <= i < |w| ==> w[i] !in delim
  }

  lemma TokensAreWords(text: seq<byte>, delim: set<byte>, n: nat)
    requires n < |Tokens(text, delim)|
    ensures IsWord(Tokens(text, delim)[n], delim)
  {
    TokensAtSpans(text, delim, 0);
    var (i, j) := Spans(text, delim, 0)[n];
    assert Spans(text, delim, 0)[n] in Spans(text, delim, 0);
    SpansExact(text, delim, 0, i, j);
  }

  lemma {:induction false} WordStartDrop(text: seq<byte>, delim: set<byte>, k: nat, i: nat)
    requires k + i <= |text|
    ensures WordStart(text, delim, k + i) == k + WordStart(text[k..], delim, i)
    decreases |text| - i
  {
    if k + i < |text| {
      assert text[k..][i] == text[k + i];
      if text[k + i] in delim {
        WordStartDrop(text, delim, k, i + 1);
      }
    }
  }

  lemma {:induction false} WordEndDrop(text: seq<byte>, delim: set<byte>, k: nat, i: nat)
    requires k + i <= |text|
    ensures WordEnd(text, delim, k + i) == k + WordEnd(text[k..], delim, i)
    decreases |text| - i
  {
    if k + i < |text| {
      assert text[k..][i] == text[k + i];
      if text[k + i] !in delim {
        WordEndDrop(text, delim, k, i + 1);
      }
    }
  }

  /** The words of the rest of a text, seen as a text of its own. */
  lemma {:induction false} TokensDrop(text: seq<byte>, delim: set<byte>, k: nat, i: nat)
    requires k + i <= |text|
    ensures TokensFrom(text[k..], delim, i) == TokensFrom(text, delim, k + i)
    decreases |text| - i
  {
    var rest := text[k..];
    var b := WordStart(rest, delim, i);
    WordStartDrop(text, delim, k, i);
    if b < |rest| {
      var e := WordEnd(rest, delim, b);
      WordEndDrop(text, delim, k, b);
      assert rest[b..e] == text[k + b..k + e];
      TokensDrop(text, delim, k, e);
    }
  }

  lemma TokensSkipOne(text: seq<byte>, delim: set<byte>, i: nat)
    requires i < |text| && text[i] in delim
    ensures TokensFrom(text, delim, i) == TokensFrom(text, delim, i + 1)
  {
  }

  // ---------- strtok ----------

  /** The words that a tokenizer with the given resume position still has to deliver. */
  ghost predicate Remaining(last: Option<nat>, mem: seq<byte>, delim: set<byte>, words: seq<seq<byte>>) {
    match last
    case None => words == []
    case Some(p) => Terminated(mem, p) && Tokens(CStr(mem, p), delim) == words
  }

  /** The string of `mem` from `b` on, once NUL is written at `e`. */
  lemma CutString(mem: seq<byte>, b: nat, e: nat)
    requires Terminated(mem, b) && b <= e <= StrEnd(mem, b)
    ensures var mem' := mem[e := NUL];
            Terminated(mem', b) && StrEnd(mem', b) == e && CStr(mem', b) == mem[b..e]
  {
    StrEndIs(mem[e := NUL], b, e);
  }

  lemma StrEndFrom(mem: seq<byte>, start: nat, b: nat)
    requires Terminated(mem, start) && start <= b <= StrEnd(mem, start)
    ensures StrEnd(mem, b) == StrEnd(mem, start)
    ensures CStr(mem, b) == CStr(mem, start)[b - start..]
  {
  }

  lemma StrEndBehind(mem: seq<byte>, e: nat, p: nat)
    requires e < p && Terminated(mem, p)
    ensures Terminated(mem[e := NUL], p) && CStr(mem[e := NUL], p) == CStr(mem, p)
  {
    StrEndIs(mem[e := NUL], p, StrEnd(mem, p));
  }

  lemma FirstToken(text: seq<byte>, delim: set<byte>, b: nat, e: nat)
    requires b == WordStart(text, delim, 0) < e <= |text| && e == WordEnd(text, delim, b)
    ensures Tokens(text, delim) == [text[b..e]] + TokensFrom(text, delim, e)
  {
  }

  lemma CutWhere(mem: seq<byte>, start: nat, b: nat, e: nat)
    requires Terminated(mem, start) && start <= b <= e <= StrEnd(mem, start)
    ensures Terminated(mem[e := NUL], b)
    ensures CStr(mem[e := NUL], b) == CStr(mem, start)[b - start..e - start]
  {
    StrEndFrom(mem, start, b);
    CutString(mem, b, e);
    SliceOfSlice(mem, start, StrEnd(mem, start), b - start, e - start);
  }

  /** The first word of the string at `start`, from `b` to `e`, after NUL has been written behind it. */
  lemma CutFirst(mem: seq<byte>, delim: set<byte>, start: nat, b: nat, e: nat)
    requires Terminated(mem, start) && start <= b < e <= StrEnd(mem, start)
    requires b - start == WordStart(CStr(mem, start), delim, 0)
    requires e - start == WordEnd(CStr(mem, start), delim, b - start)
    ensures Terminated(mem[e := NUL], b)
    ensures Tokens(CStr(mem, start), delim) ==
            [CStr(mem[e := NUL], b)] + TokensFrom(CStr(mem, start), delim, e - start)
    ensures |CStr(mem[e := NUL], b)| == e - b
  {
    CutWhere(mem, start, b, e);
    FirstToken(CStr(mem, start), delim, b - start, e - start);
  }

  lemma CutRestAtEnd(mem: seq<byte>, delim: set<byte>, start: nat)
    requires Terminated(mem, start)
    ensures TokensFrom(CStr(mem, start), delim, StrEnd(mem, start) - start) == []
  {
  }

  lemma TailTokens(text: seq<byte>, delim: set<byte>, i: nat)
    requires i < |text| && text[i] in delim
    ensures Tokens(text[i + 1..], delim) == TokensFrom(text, delim, i)
  {
    TokensSkipOne(text, delim, i);
    TokensDrop(text, delim, i + 1, 0);
  }

  lemma CutTail(mem: seq<byte>, start: nat, e: nat)
    requires Terminated(mem, start) && start <= e < StrEnd(mem, start)
    ensures Terminated(mem[e := NUL], e + 1)
    ensures CStr(mem[e := NUL], e + 1) == CStr(mem, start)[e - start + 1..]
  {
    StrEndFrom(mem, start, e + 1);
    StrEndBehind(mem, e, e + 1);
  }

  lemma CharInside(mem: seq<byte>, start: nat, e: nat)
    requires Terminated(mem, start) && start <= e < StrEnd(mem, start)
    ensures e - start < |CStr(mem, start)| && CStr(mem, start)[e - start] == mem[e]
  {
  }

  lemma RemainingTail(mem: seq<byte>, p: nat, text: seq<byte>, i: nat, delim: set<byte>)
    requires Terminated(mem, p) && i < |text| && text[i] in delim && CStr(mem, p) == text[i + 1..]
    ensures Remaining(Some(p), mem, delim, TokensFrom(text, delim, i))
  {
    TailTokens(text, delim, i);
  }

  lemma CutRestInside(mem: seq<byte>, delim: set<byte>, start: nat, e: nat)
    requires Terminated(mem, start) && start <= e < StrEnd(mem, start) && mem[e] in delim
    ensures Remaining(Some(e + 1), mem[e := NUL], delim, TokensFrom(CStr(mem, start), delim, e - start))
  {
    CharInside(mem, start, e);
    CutTail(mem, start, e);
    RemainingTail(mem[e := NUL], e + 1, CStr(mem, start), e - start, delim);
  }

  lemma CutRest(mem: seq<byte>, delim: set<byte>, start: nat, e: nat)
    requires Terminated(mem, start) && start <= e <= StrEnd(mem, start)
    requires e < StrEnd(mem, start) ==> mem[e] in delim
    ensures Remaining(if mem[e] == NUL then None else Some(e + 1), mem[e := NUL], delim,
                      TokensFrom(CStr(mem, start), delim, e - start))
  {
    if e == StrEnd(mem, start) {
      CutRestAtEnd(mem, delim, start);
    } else {
      CutRestInside(mem, delim, start, e);
    }
  }

  /** What a call of strtok does to the memory and its resume position. */
  ghost predicate Delivered(before: seq<byte>, after: seq<byte>, start: Option<nat>, delim: set<byte>,
                            tok: Option<nat>, last: Option<nat>)
  {
    && (start.Some? ==> Terminated(before, start.value))
    && var words := if start.None? then [] else Tokens(CStr(before, start.value), delim);
       if words == [] then tok == None && last == None && after == before
       else
         && tok.Some? && start.value <= tok.value && tok.value + |words[0]| < |before|
         && after == before[tok.value + |words[0]| := NUL]
         && Terminated(after, tok.value) && CStr(after, tok.value) == words[0]
         && (last.Some? ==> last.value > tok.value + |words[0]|)
         && Remaining(last, after, delim, words[1..])
  }

  lemma CutWord(mem: seq<byte>, delim: set<byte>, start: nat, b: nat, e: nat)
    requires Terminated(mem, start) && NUL !in delim && start <= b < e <= StrEnd(mem, start)
    requires b - start == WordStart(CStr(mem, start), delim, 0)
    requires e - start == WordEnd(CStr(mem, start), delim, b - start)
    ensures Delivered(mem, mem[e := NUL], Some(start), delim, Some(b),
                      if mem[e] == NUL then None else Some(e + 1))
  {
    CutFirst(mem, delim, start, b, e);
    EndIsDelimiter(mem, delim, start, b, e);
    CutRest(mem, delim, start, e);
  }

  lemma EndIsDelimiter(mem: seq<byte>, delim: set<byte>, start: nat, b: nat, e: nat)
    requires Terminated(mem, start) && start <= b < e <= StrEnd(mem, start)
    requires e - start == WordEnd(CStr(mem, start), delim, b - start)
    ensures e < StrEnd(mem, start) ==> mem[e] in delim
  {
    assert e < StrEnd(mem, start) ==> mem[e] == CStr(mem, start)[e - start];
  }

  class Tokenizer {
    /** Where the next call resumes; None is the null pointer. */
    var last: Option<nat>

    constructor ()
      ensures last == None
    {
      last := None;
    }

    /** The next word of the string at `s`, or of the string of the previous call. */
    method StrTok(mem: array<byte>, s: Option<nat>, delim: set<byte>) returns (tok: Option<nat>)
      requires NUL !in delim
      requires s.Some? ==> Terminated(mem[..], s.value)
      requires s.None? && last.Some? ==> Terminated(mem[..], last.value)
      modifies this, mem
      ensures Delivered(old(mem[..]), mem[..], if s.Some? then s else old(last), delim, tok, last)
    {
      var from := if s.Some? then s else last;
      if from.None? {
        return None;
      }
      var b := SkipDelimiters(mem, from.value, delim);
      if mem[b] == NUL {
        last := None;
        return None;
      }
      CutToken(mem, from.value, b, delim);
      tok := Some(b);
    }

    /** Ends the word that starts at `b` and remembers where to resume. */
    method CutToken(mem: array<byte>, start: nat, b: nat, delim: set<byte>)
      requires NUL !in delim && Terminated(mem[..], start) && start <= b < StrEnd(mem[..], start)
      requires b - start == WordStart(CStr(mem[..], start), delim, 0) && mem[b] !in delim
      modifies this, mem
      ensures Delivered(old(mem[..]), mem[..], Some(start), delim, Some(b), last)
    {
      ghost var before := mem[..];
      var e := ScanWord(mem, start, b, delim);
      CutWord(before, delim, start, b, e);
      if mem[e] == NUL {
        last := None;
        assert before[e := NUL] == before;
      } else {
        mem[e] := NUL;
        last := Some(e + 1);
      }
    }

    static method SkipDelimiters(mem: array<byte>, start: nat, delim: set<byte>) returns (b: nat)
      requires NUL !in delim && Terminated(mem[..], start)
      ensures start <= b <= StrEnd(mem[..], start) < mem.Length
      ensures b - start == WordStart(CStr(mem[..], start), delim, 0)
    {
      b := start;
      while mem[b] in delim
        invariant start <= b <= StrEnd(mem[..], start)
        invariant forall i :: start <= i < b ==> mem[i] in delim
        decreases StrEnd(mem[..], start) - b
      {
        b := b + 1;
      }
      WordStartIs(CStr(mem[..], start), delim, 0, b - start);
    }

    static method ScanWord(mem: array<byte>, start: nat, b: nat, delim: set<byte>) returns (e: nat)
      requires NUL !in delim && Terminated(mem[..], start)
      requires start <= b < StrEnd(mem[..], start) && mem[b] !in delim
      ensures b < e <= StrEnd(mem[..], start) < mem.Length
      ensures mem[e] == NUL <==> e == StrEnd(mem[..], start)
      ensures e - start == WordEnd(CStr(mem[..], start), delim, b - start)
    {
      e := b + 1;
      while mem[e] != NUL && mem[e] !in delim
        invariant b < e <= StrEnd(mem[..], start)
        invariant forall i :: b <= i < e ==> mem[i] !in delim
        decreases StrEnd(mem[..], start) - e
      {
        e := e + 1;
      }
      WordEndIs(CStr(mem[..], start), delim, b - start, e - start);
    }
  }
}
