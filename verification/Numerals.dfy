/** Numbers as text: digits are generated from the lowest place up and then reversed in place. */
module Numerals {
  import Arith
  import opened Bytes
  import opened CStrings

  /** Radixes for which the digit table has enough entries. */
  type Radix = r: int | 2 <= r <= 36 witness 10

  const ZERO: byte := 48

  /** Entry `d` of the digit table 0-9, A-Z. */
  function DigitChar(d: int): (c: byte)
    requires 0 <= d < 36
    ensures c != NUL
  {
    if d < 10 then 48 + d else 55 + d
  }

  /** What a reader makes of a digit. */
  function DigitValue(c: byte): int {
    if 48 <= c <= 57 then c - 48 else if 65 <= c <= 90 then c - 55 else -1
  }

  const DIGITS := "0123456789ABCDEFGHIJKLMNOPQRSTUVWXYZ"

  /** The digits are those of the table, and a reader gets their places in it. */
  lemma DigitTable(d: nat)
    requires d < 36
    ensures |DIGITS| == 36 && DigitChar(d) == DIGITS[d] as int && DigitValue(DIGITS[d] as int) == d
  {
  }

  /** The number that a digit string denotes, highest place first. */
  function ValueOf(digits: seq<byte>, radix: int): int {
    if digits == [] then 0
    else ValueOf(digits[..|digits| - 1], radix) * radix + DigitValue(digits[|digits| - 1])
  }

  lemma QuotientShrinks(v: nat, radix: Radix)
    requires v > 0
    ensures 0 <= v / radix < v && 2 * (v / radix) <= v && 0 <= v % radix < radix
  {
    Arith.Fundamental(v, radix);
    if v / radix > 0 {
      Arith.AtLeast(radix - 1, v / radix);
      Arith.Distribute(radix, 1, v / radix);
    }
  }

  /** The digits of `v`, lowest place first. */
  function LowFirst(v: nat, radix: Radix): (digits: seq<byte>)
    ensures NUL !in digits
  {
    if v == 0 then []
    else
      QuotientShrinks(v, radix);
      [DigitChar(v % radix)] + LowFirst(v / radix, radix)
  }

  function Reversed(s: seq<byte>): (r: seq<byte>)
    ensures |r| == |s| && forall i :: 0 <= i < |s| ==> r[i] == s[|s| - 1 - i]
  {
    seq(|s|, i requires 0 <= i < |s| => s[|s| - 1 - i])
  }

  function Numeral(v: nat, radix: Radix): (digits: seq<byte>)
    ensures NUL !in digits
  {
    if v == 0 then [ZERO] else Reversed(LowFirst(v, radix))
  }

  lemma {:induction false} ReversedValue(v: nat, radix: Radix)
    ensures ValueOf(Reversed(LowFirst(v, radix)), radix) == v
  {
    if v > 0 {
      QuotientShrinks(v, radix);
      ReversedValue(v / radix, radix);
      var digits := Reversed(LowFirst(v, radix));
      assert digits[..|digits| - 1] == Reversed(LowFirst(v / radix, radix));
      Arith.Fundamental(v, radix);
    }
  }

  /** Reading a printed number gives the number back. */
  lemma NumeralRoundTrip(v: nat, radix: Radix)
    ensures ValueOf(Numeral(v, radix), radix) == v
  {
    ReversedValue(v, radix);
    assert [48 as byte][..0] == [];
  }

  lemma {:induction false} TopDigit(v: nat, radix: Radix)
    requires v > 0
    ensures LowFirst(v, radix) != []
    ensures var d := LowFirst(v, radix)[|LowFirst(v, radix)| - 1]; 1 <= DigitValue(d) < radix
  {
    QuotientShrinks(v, radix);
    Arith.Fundamental(v, radix);
    if v / radix > 0 {
      TopDigit(v / radix, radix);
    }
  }

  /** No leading zeros, except for the number 0 itself. */
  lemma NoLeadingZero(v: nat, radix: Radix)
    ensures Numeral(v, radix) != []
    ensures Numeral(v, radix)[0] == 48 <==> v == 0
    ensures v == 0 ==> |Numeral(v, radix)| == 1
  {
    if v > 0 {
      TopDigit(v, radix);
    }
  }

  ghost predicate DigitsBelow(s: seq<byte>, radix: Radix) {
    forall i :: 0 <= i < |s| ==> 0 <= DigitValue(s[i]) < radix
  }

  lemma {:induction false} AllDigitsValid(v: nat, radix: Radix)
    ensures DigitsBelow(LowFirst(v, radix), radix)
    ensures DigitsBelow(Numeral(v, radix), radix)
  {
    if v > 0 {
      QuotientShrinks(v, radix);
      AllDigitsValid(v / radix, radix);
    }
  }

  function Power(base: nat, k: nat): nat {
    if k == 0 then 1 else base * Power(base, k - 1)
  }

  lemma {:induction false} DigitCount(v: nat, radix: Radix, base: nat, k: nat)
    requires 2 <= base <= radix && v < Power(base, k)
    ensures |LowFirst(v, radix)| <= k
  {
    if v > 0 {
      QuotientShrinks(v, radix);
      Arith.Fundamental(v, radix);
      if v / radix >= Power(base, k - 1) {
        var d := v / radix - Power(base, k - 1);
        assert d * radix >= 0;
        Arith.Distribute(v / radix, Power(base, k - 1), radix);
        AtLeastTimes(Power(base, k - 1), base, radix);
        assert false;
      }
      DigitCount(v / radix, radix, base, k - 1);
    }
  }

  lemma AtLeastTimes(p: nat, base: nat, radix: nat)
    requires base <= radix
    ensures base * p <= p * radix
  {
  }

  /** Every 32-bit number fits 32 digits in any radix, and 8 in radix 16. */
  lemma NumeralLength(v: u32, radix: Radix)
    ensures 1 <= |Numeral(v, radix)| <= 32
    ensures radix == 16 ==> |Numeral(v, radix)| <= 8
  {
    NoLeadingZero(v, radix);
    assert Power(2, 32) == 0x1_0000_0000 by {
      assert Power(2, 8) == 0x100;
      assert Power(2, 16) == 0x1_0000;
      assert Power(2, 24) == 0x100_0000;
    }
    DigitCount(v, radix, 2, 32);
    if radix == 16 {
      assert Power(16, 4) == 0x1_0000;
      assert Power(16, 8) == 0x1_0000_0000;
      DigitCount(v, radix, 16, 8);
    }
  }

  // ---------- the routines ----------

  /** The range of `before` from `at` to `at + len` appears backwards in `after`, except for its middle part
      from `lo` to `hi`, which is as it was; so is everything else. */
  ghost predicate Mirrored(before: seq<byte>, after: seq<byte>, at: int, len: int, lo: int, hi: int) {
    && |before| == |after| && 0 <= at <= at + len <= |before|
    && (forall a, b :: at <= a < at + len && at <= b < at + len && a + b == 2 * at + len - 1 && !(lo <= a < hi) ==>
         after[a] == before[b])
    && (forall a :: 0 <= a < |before| && (a < at || lo <= a < hi || at + len <= a) ==> after[a] == before[a])
  }

  lemma MirroredIsReversed(before: seq<byte>, after: seq<byte>, at: nat, len: nat, lo: int, hi: int)
    requires Mirrored(before, after, at, len, lo, hi) && hi - lo <= 1 && lo + hi == 2 * at + len
    ensures after == Put(before, at, Reversed(before[at..at + len]))
  {
  }

  /** Swaps the ends of a range until they meet. */
  method ReverseRange(s: array<byte>, at: nat, len: nat)
    requires at + len <= s.Length
    modifies s
    ensures s[..] == Put(old(s[..]), at, Reversed(old(s[..])[at..at + len]))
  {
    ghost var before := s[..];
    var beg: int, end: int := at, at + len - 1;
    while beg < end
      invariant at <= beg <= end + 1 && end < at + len && beg + end == 2 * at + len - 1
      invariant Mirrored(before, s[..], at, len, beg, end + 1)
    {
      var tmp := s[end];
      s[end] := s[beg];
      s[beg] := tmp;
      beg, end := beg + 1, end - 1;
    }
    MirroredIsReversed(before, s[..], at, len, beg, end + 1);
  }

  /** In-place reversal of the string at `at`. */
  method StrRev(s: array<byte>, at: nat)
    requires Terminated(s[..], at)
    modifies s
    ensures s[..] == Put(old(s[..]), at, Reversed(old(CStr(s[..], at))))
  {
    var len := StrLen(s, at);
    assert s[..][at..at + len] == CStr(s[..], at);
    ReverseRange(s, at, len);
  }

  lemma ReverseWritten(mem: seq<byte>, at: nat, text: seq<byte>)
    requires at + |text| < |mem|
    ensures Put(Put(mem, at, text + [NUL]), at, Reversed(text)) == Put(mem, at, Reversed(text) + [NUL])
  {
  }

  /** Writes the digits of `value`, lowest place first, and the terminator. */
  method EmitDigits(value: nat, buf: array<byte>, at: nat, radix: Radix)
    requires at + |LowFirst(value, radix)| < buf.Length
    modifies buf
    ensures buf[..] == Put(old(buf[..]), at, LowFirst(value, radix) + [NUL])
  {
    ghost var digits := LowFirst(value, radix);
    var newval: nat, i := value, 0;
    while newval > 0
      invariant i <= |digits| && digits[i..] == LowFirst(newval, radix)
      invariant forall a :: 0 <= a < buf.Length ==>
                  buf[a] == if at <= a < at + i then digits[a - at] else old(buf[a])
      decreases newval
    {
      QuotientShrinks(newval, radix);
      assert digits[i] == digits[i..][0] && digits[i + 1..] == digits[i..][1..];
      buf[at + i] := DigitChar(newval % radix);
      i := i + 1;
      newval := newval / radix;
    }
    buf[at + i] := NUL;
  }

  method Itoa(value: u32, buf: array<byte>, at: nat, radix: Radix)
    requires at + |Numeral(value, radix)| < buf.Length
    modifies buf
    ensures buf[..] == Put(old(buf[..]), at, Numeral(value, radix) + [NUL])
  {
    if value == 0 {
      buf[at], buf[at + 1] := ZERO, NUL;
      return;
    }
    ghost var before, digits := buf[..], LowFirst(value, radix);
    EmitDigits(value, buf, at, radix);
    PutIsCStr(before, at, digits);
    ReverseWritten(before, at, digits);
    StrRev(buf, at);
  }

  /** Zeros from the end of an empty string of length `start` up to position 8. */
  method PadZeros(conv: array<byte>, start: nat)
    requires start <= 8 <= conv.Length
    modifies conv
    ensures conv[..] == Put(old(conv[..]), start, Repeat(ZERO, 8 - start))
  {
    var i := start;
    while i < 8
      invariant start <= i <= 8
      invariant conv[..] == Put(old(conv[..]), start, Repeat(ZERO, i - start))
    {
      conv[i] := ZERO;
      i := i + 1;
    }
  }

  /** The `%#x` conversion: the number is written behind eight bytes of room for zeros and printed from the place
      that makes eight digits. The scratch buffer's contents do not matter. */
  method PrintHex8(value: u32, conv: array<byte>) returns (printed: seq<byte>)
    requires conv.Length == 64
    modifies conv
    ensures |printed| == 8 && DigitsBelow(printed, 16) && ValueOf(printed, 16) == value
  {
    NumeralLength(value, 16);
    ghost var before, digits := conv[..], Numeral(value, 16);
    Itoa(value, conv, 8, 16);
    PutIsCStr(before, 8, digits);
    var start := StrLen(conv, 8);
    ghost var written := conv[..];
    PadZeros(conv, start);
    PaddedCStr(before, written, conv[..], digits);
    PaddedValue(value);
    printed := ReadString(conv, start);
  }

  method ReadString(conv: array<byte>, start: nat) returns (text: seq<byte>)
    requires Terminated(conv[..], start)
    ensures text == CStr(conv[..], start)
  {
    var len := StrLen(conv, start);
    text := conv[start..start + len];
  }

  lemma PaddedValue(value: u32)
    requires |Numeral(value, 16)| <= 8
    ensures var printed := Repeat(ZERO, 8 - |Numeral(value, 16)|) + Numeral(value, 16);
            |printed| == 8 && DigitsBelow(printed, 16) && ValueOf(printed, 16) == value
  {
    PaddedNumeral(value, 16, 8 - |Numeral(value, 16)|);
  }

  /** Leading zeros do not change what a numeral denotes. */
  lemma PaddedNumeral(value: nat, radix: Radix, k: nat)
    ensures var printed := Repeat(ZERO, k) + Numeral(value, radix);
            DigitsBelow(printed, radix) && ValueOf(printed, radix) == value
  {
    NumeralRoundTrip(value, radix);
    ZerosValue(k, Numeral(value, radix), radix);
    AllDigitsValid(value, radix);
    PaddedDigits(k, Numeral(value, radix), radix);
  }

  lemma PaddedDigits(k: nat, digits: seq<byte>, radix: Radix)
    requires DigitsBelow(digits, radix)
    ensures DigitsBelow(Repeat(ZERO, k) + digits, radix)
  {
  }

  lemma PaddedCStr(before: seq<byte>, written: seq<byte>, padded: seq<byte>, digits: seq<byte>)
    requires |before| == 64 && 1 <= |digits| <= 8 && NUL !in digits
    requires written == Put(before, 8, digits + [NUL])
    requires padded == Put(written, |digits|, Repeat(ZERO, 8 - |digits|))
    ensures Terminated(padded, |digits|) && CStr(padded, |digits|) == Repeat(ZERO, 8 - |digits|) + digits
  {
    var text := Repeat(ZERO, 8 - |digits|) + digits;
    assert padded == Put(padded, |digits|, text + [NUL]);
    PutIsCStr(padded, |digits|, text);
  }

  lemma {:induction false} ZerosValue(k: nat, digits: seq<byte>, radix: Radix)
    ensures ValueOf(Repeat(ZERO, k) + digits, radix) == ValueOf(digits, radix)
    decreases |digits|, k
  {
    var all := Repeat(ZERO, k) + digits;
    if digits != [] {
      assert all[..|all| - 1] == Repeat(ZERO, k) + digits[..|digits| - 1];
      ZerosValue(k, digits[..|digits| - 1], radix);
    } else if k > 0 {
      assert all[..|all| - 1] == Repeat(ZERO, k - 1) + [];
      ZerosValue(k - 1, [], radix);
    }
  }
}
