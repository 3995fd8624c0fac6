/** NUL-terminated strings inside byte arrays, and the string routines of the user library. */
module CStrings {
  import opened Bytes

  /** Index of the first NUL at or after `p`, or the length of `s`. */
  function StrEnd(s: seq<byte>, p: nat): (e: nat)
    requires p <= |s|
    ensures p <= e <= |s|
    ensures forall i :: p <= i < e ==> s[i] != NUL
    ensures e < |s| ==> s[e] == NUL
    decreases |s| - p
  {
    if p == |s| || s[p] == NUL then p else StrEnd(s, p + 1)
  }

  predicate Terminated(s: seq<byte>, p: nat) {
    p <= |s| && StrEnd(s, p) < |s|
  }

  /** The string that starts at `p`. */
  function CStr(s: seq<byte>, p: nat): (r: seq<byte>)
    requires p <= |s|
    ensures NUL !in r
  {
    s[p..StrEnd(s, p)]
  }

  lemma StrEndIs(s: seq<byte>, p: nat, e: nat)
    requires p <= e < |s| && s[e] == NUL
    requires forall i :: p <= i < e ==> s[i] != NUL
    ensures StrEnd(s, p) == e
  {
  }

  /** `mem` with `text` written over it at `at`. */
  function Put(mem: seq<byte>, at: nat, text: seq<byte>): (r: seq<byte>)
    requires at + |text| <= |mem|
    ensures |r| == |mem|
    ensures forall a :: 0 <= a < |mem| ==> r[a] == if at <= a < at + |text| then text[a - at] else mem[a]
  {
    seq(|mem|, a requires 0 <= a < |mem| => if at <= a < at + |text| then text[a - at] else mem[a])
  }

  /** What has just been written as a string can be read back as one. */
  lemma PutIsCStr(mem: seq<byte>, at: nat, text: seq<byte>)
    requires at + |text| < |mem| && NUL !in text
    ensures var r := Put(mem, at, text + [NUL]);
            StrEnd(r, at) == at + |text| && Terminated(r, at) && CStr(r, at) == text
  {
    var r := Put(mem, at, text + [NUL]);
    assert forall i :: 0 <= i < |text| ==> text[i] in text;
    StrEndIs(r, at, at + |text|);
  }

  lemma SliceOfSlice(mem: seq<byte>, start: nat, end: nat, x: nat, y: nat)
    requires start + x <= start + y <= end <= |mem|
    ensures mem[start..end][x..y] == mem[start + x..start + y]
  {
    var a, b := mem[start..end][x..y], mem[start + x..start + y];
    forall i | 0 <= i < y - x
      ensures a[i] == b[i]
    {
      assert a[i] == mem[start..end][x + i];
    }
  }

  method StrLen(a: array<byte>, p: nat) returns (len: nat)
    requires Terminated(a[..], p)
    ensures len == |CStr(a[..], p)| && p + len < a.Length && a[p + len] == NUL
  {
    len := 0;
    while a[p + len] != NUL
      invariant p + len < a.Length
      invariant p + len <= StrEnd(a[..], p)
      decreases a.Length - len
    {
      assert a[p + len] == a[..][p + len];
      len := len + 1;
    }
    StrEndIs(a[..], p, p + len);
  }

  /** Copies a string, terminator included. The ranges may overlap when the copy moves down. */
  method StrCpy(dst: array<byte>, d: nat, src: array<byte>, s: nat)
    requires Terminated(src[..], s)
    requires d + |CStr(src[..], s)| < dst.Length
    requires dst == src ==> d <= s || s + |CStr(src[..], s)| < d
    modifies dst
    ensures dst[..] == Put(old(dst[..]), d, old(CStr(src[..], s)) + [NUL])
  {
    ghost var text := CStr(src[..], s) + [NUL];
    var i := 0;
    while true
      invariant i < |text|
      invariant forall a :: 0 <= a < dst.Length ==> dst[a] == if d <= a < d + i then text[a - d] else old(dst[a])
      invariant forall j :: i <= j < |text| ==> src[s + j] == text[j]
      decreases |text| - i
    {
      dst[d + i] := src[s + i];
      if dst[d + i] == NUL {
        break;
      }
      i := i + 1;
    }
    assert text[i] == NUL;
  }

  /** The order of two strings by their first `n` characters; 0 when these agree. */
  function Compare(x: seq<byte>, y: seq<byte>, n: nat): int {
    if n == 0 then 0
    else
      var a: int, b: int := if x == [] then 0 else x[0], if y == [] then 0 else y[0];
      if a != b then a - b else if a == 0 || x == [] || y == [] then 0 else Compare(x[1..], y[1..], n - 1)
  }

  function Take(x: seq<byte>, n: nat): seq<byte> {
    if n <= |x| then x[..n] else x
  }

  /** Character `i` of a string, its terminator included. */
  function NthChar(x: seq<byte>, i: nat): byte {
    if i < |x| then x[i] else NUL
  }

  /** The comparison is decided by the first place where the strings, terminators included, differ. */
  lemma {:induction false} CompareFirst(x: seq<byte>, y: seq<byte>, n: nat, i: nat)
    requires NUL !in x && NUL !in y && i < n && i <= |x| && i <= |y|
    requires x[..i] == y[..i] && NthChar(x, i) != NthChar(y, i)
    ensures Compare(x, y, n) == NthChar(x, i) as int - NthChar(y, i) as int
  {
    if i > 0 {
      assert x[0] == x[..i][0] && y[0] == y[..i][0];
      assert x[1..][..i - 1] == x[..i][1..] && y[1..][..i - 1] == y[..i][1..];
      CompareFirst(x[1..], y[1..], n - 1, i - 1);
    }
  }

  lemma TakeFront(x: seq<byte>, n: nat)
    requires x != [] && n > 0
    ensures Take(x, n) == [x[0]] + Take(x[1..], n - 1)
    ensures Take(x, n)[0] == x[0] && Take(x, n)[1..] == Take(x[1..], n - 1)
  {
  }

  lemma {:induction false} CompareZero(x: seq<byte>, y: seq<byte>, n: nat)
    requires NUL !in x && NUL !in y
    ensures Compare(x, y, n) == 0 <==> Take(x, n) == Take(y, n)
  {
    if n > 0 {
      if x != [] && y != [] {
        CompareZero(x[1..], y[1..], n - 1);
        TakeFront(x, n);
        TakeFront(y, n);
      } else if x != [] {
        assert Take(x, n)[0] == x[0];
      } else if y != [] {
        assert Take(y, n)[0] == y[0];
      }
    }
  }

  lemma CharAt(mem: seq<byte>, p: nat, i: nat)
    requires Terminated(mem, p) && i <= |CStr(mem, p)|
    ensures p + i < |mem| && mem[p + i] == NthChar(CStr(mem, p), i)
  {
  }

  /** The comparison of two strings from character `i` on, one step unfolded. */
  ghost function CompareStep(x: seq<byte>, y: seq<byte>, i: nat, m: nat): int
    requires m > 0
  {
    var a: int, b: int := NthChar(x, i), NthChar(y, i);
    if a != b then a - b
    else if a == 0 || i >= |x| || i >= |y| then 0 else Compare(x[i + 1..], y[i + 1..], m - 1)
  }

  lemma CompareNext(x: seq<byte>, y: seq<byte>, i: nat, m: nat)
    requires i <= |x| && i <= |y| && m > 0
    ensures Compare(x[i..], y[i..], m) == CompareStep(x, y, i, m)
    ensures i == 0 ==> Compare(x, y, m) == CompareStep(x, y, i, m)
  {
    assert i < |x| ==> x[i..][1..] == x[i + 1..];
    assert i < |y| ==> y[i..][1..] == y[i + 1..];
    assert i == 0 ==> x[i..] == x && y[i..] == y;
  }

  method StrNCmp(a: array<byte>, p: nat, b: array<byte>, q: nat, n: nat) returns (r: int)
    requires Terminated(a[..], p) && Terminated(b[..], q)
    ensures r == Compare(CStr(a[..], p), CStr(b[..], q), n)
  {
    if n == 0 {
      return 0;
    }
    ghost var x, y := CStr(a[..], p), CStr(b[..], q);
    var i, m := 0, n;
    CharAt(a[..], p, i);
    CharAt(b[..], q, i);
    CompareNext(x, y, i, m);
    while a[p + i] == b[q + i]
      invariant i <= |x| && i <= |y| && m >= 1
      invariant p + i < a.Length && a[p + i] == NthChar(x, i)
      invariant q + i < b.Length && b[q + i] == NthChar(y, i)
      invariant Compare(x, y, n) == CompareStep(x, y, i, m)
      decreases m
    {
      if a[p + i] == NUL {
        return 0;
      }
      m := m - 1;
      if m == 0 {
        return 0;
      }
      i := i + 1;
      CharAt(a[..], p, i);
      CharAt(b[..], q, i);
      CompareNext(x, y, i, m);
    }
    return a[p + i] as int - b[q + i] as int;
  }
}
