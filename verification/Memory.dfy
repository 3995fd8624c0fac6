/** Byte-addressed memory and the kernel's block operations on it. An index of the array is an address, so the
    alignment of a range is its index modulo 4. */
module Memory {
  import opened Bytes

  /** The memory after `n` bytes from `src` have been placed at `dst`. */
  function Copied(mem: seq<byte>, dst: nat, src: nat, n: nat): (r: seq<byte>)
    requires dst + n <= |mem| && src + n <= |mem|
    ensures |r| == |mem|
    ensures forall a :: 0 <= a < |mem| ==> r[a] == if dst <= a < dst + n then mem[src + (a - dst)] else mem[a]
  {
    seq(|mem|, a requires 0 <= a < |mem| => if dst <= a < dst + n then mem[src + (a - dst)] else mem[a])
  }

  function Filled(mem: seq<byte>, at: nat, c: byte, n: nat): (r: seq<byte>)
    requires at + n <= |mem|
    ensures |r| == |mem|
    ensures forall a :: 0 <= a < |mem| ==> r[a] == if at <= a < at + n then c else mem[a]
  {
    seq(|mem|, a requires 0 <= a < |mem| => if at <= a < at + n then c else mem[a])
  }

  /** One double-word store of four equal bytes. */
  method StoreDword(mem: array<byte>, at: nat, c: byte)
    requires at + 4 <= mem.Length
    modifies mem
    ensures mem[..] == Filled(old(mem[..]), at, c, 4)
  {
    mem[at], mem[at + 1], mem[at + 2], mem[at + 3] := c, c, c, c;
  }

  lemma FilledExtends(mem: seq<byte>, at: nat, c: byte, done: nat, k: nat)
    requires at + done + k <= |mem|
    ensures Filled(Filled(mem, at, c, done), at + done, c, k) == Filled(mem, at, c, done + k)
  {
  }

  /** Stores single bytes while the count lasts and, if asked, only up to an aligned address. */
  method StoreBytes(mem: array<byte>, s: nat, c: byte, n: nat, toAligned: bool) returns (done: nat)
    requires s + n <= mem.Length
    modifies mem
    ensures done <= n && mem[..] == Filled(old(mem[..]), s, c, done)
    ensures if toAligned then done == n || (s + done) % 4 == 0 else done == n
  {
    done := 0;
    while done < n && !(toAligned && (s + done) % 4 == 0)
      invariant done <= n && mem[..] == Filled(old(mem[..]), s, c, done)
    {
      mem[s + done] := c;
      done := done + 1;
    }
  }

  method StoreDwords(mem: array<byte>, s: nat, c: byte, n: nat)
    requires s + 4 * n <= mem.Length
    modifies mem
    ensures mem[..] == Filled(old(mem[..]), s, c, 4 * n)
  {
    var i := 0;
    while i < n
      invariant i <= n && mem[..] == Filled(old(mem[..]), s, c, 4 * i)
    {
      FilledExtends(old(mem[..]), s, c, 4 * i, 4);
      StoreDword(mem, s + 4 * i, c);
      i := i + 1;
    }
  }

  /** Bytes up to an aligned address, then double words, then the last bytes. */
  method MemSet(mem: array<byte>, s: nat, value: int, n: nat)
    requires s + n <= mem.Length
    modifies mem
    ensures mem[..] == Filled(old(mem[..]), s, value % 0x100, n)
  {
    var c: byte := value % 0x100;
    var head := StoreBytes(mem, s, c, n, true);
    if head == n {
      return;
    }
    var dwords, tail := (n - head) / 4, (n - head) % 4;
    FilledExtends(old(mem[..]), s, c, head, 4 * dwords);
    StoreDwords(mem, s + head, c, dwords);
    FilledExtends(old(mem[..]), s, c, head + 4 * dwords, tail);
    var _ := StoreBytes(mem, s + head + 4 * dwords, c, tail, false);
  }

  /** One double-word move: all four bytes are read before any is written. */
  method MoveDword(mem: array<byte>, dst: nat, src: nat)
    requires dst + 4 <= mem.Length && src + 4 <= mem.Length
    modifies mem
    ensures mem[..] == Copied(old(mem[..]), dst, src, 4)
  {
    mem[dst], mem[dst + 1], mem[dst + 2], mem[dst + 3] := mem[src], mem[src + 1], mem[src + 2], mem[src + 3];
  }

  /** Copying the next `k` bytes upwards extends a finished copy, provided no source byte has been overwritten. */
  lemma CopiedExtends(mem: seq<byte>, dst: nat, src: nat, done: nat, k: nat)
    requires dst + done + k <= |mem| && src + done + k <= |mem|
    requires dst <= src || src + done + k <= dst
    ensures Copied(Copied(mem, dst, src, done), dst + done, src + done, k) == Copied(mem, dst, src, done + k)
  {
  }

  lemma CopiedParts(mem: seq<byte>, dst: nat, src: nat, a: nat, b: nat, c: nat, n: nat)
    requires a + b + c == n && dst + n <= |mem| && src + n <= |mem|
    requires dst <= src || src + n <= dst
    ensures var first := Copied(mem, dst, src, a);
            var second := Copied(first, dst + a, src + a, b);
            Copied(second, dst + a + b, src + a + b, c) == Copied(mem, dst, src, n)
  {
    CopiedExtends(mem, dst, src, a, b);
    CopiedExtends(mem, dst, src, a + b, c);
  }

  /** Copies single bytes upwards while the count lasts and, if asked, only up to an aligned destination. */
  method MoveBytes(mem: array<byte>, dst: nat, src: nat, n: nat, toAligned: bool) returns (done: nat)
    requires dst + n <= mem.Length && src + n <= mem.Length
    requires dst <= src || src + n <= dst
    modifies mem
    ensures done <= n && mem[..] == Copied(old(mem[..]), dst, src, done)
    ensures if toAligned then done == n || (dst + done) % 4 == 0 else done == n
  {
    done := 0;
    while done < n && !(toAligned && (dst + done) % 4 == 0)
      invariant done <= n && mem[..] == Copied(old(mem[..]), dst, src, done)
    {
      mem[dst + done] := mem[src + done];
      done := done + 1;
    }
  }

  method MoveDwords(mem: array<byte>, dst: nat, src: nat, n: nat)
    requires dst + 4 * n <= mem.Length && src + 4 * n <= mem.Length
    requires dst <= src || src + 4 * n <= dst
    modifies mem
    ensures mem[..] == Copied(old(mem[..]), dst, src, 4 * n)
  {
    var i := 0;
    while i < n
      invariant i <= n && mem[..] == Copied(old(mem[..]), dst, src, 4 * i)
    {
      CopiedExtends(old(mem[..]), dst, src, 4 * i, 4);
      MoveDword(mem, dst + 4 * i, src + 4 * i);
      i := i + 1;
    }
  }

  /** Correct whenever the destination does not start inside the source, whatever the alignment of either. */
  method MemCpy(mem: array<byte>, dst: nat, src: nat, n: nat)
    requires dst + n <= mem.Length && src + n <= mem.Length
    requires dst <= src || src + n <= dst
    modifies mem
    ensures mem[..] == Copied(old(mem[..]), dst, src, n)
  {
    var head := MoveBytes(mem, dst, src, n, true);
    if head == n {
      return;
    }
    var dwords, tail := (n - head) / 4, (n - head) % 4;
    CopiedParts(old(mem[..]), dst, src, head, 4 * dwords, tail, n);
    MoveDwords(mem, dst + head, src + head, dwords);
    var _ := MoveBytes(mem, dst + head + 4 * dwords, src + head + 4 * dwords, tail, false);
  }

  /** Copies single bytes downwards, the last byte first. */
  method MoveBytesDown(mem: array<byte>, dst: nat, src: nat, n: nat)
    requires dst + n <= mem.Length && src + n <= mem.Length && src <= dst
    modifies mem
    ensures mem[..] == Copied(old(mem[..]), dst, src, n)
  {
    var left: nat := n;
    while left > 0
      invariant left <= n && mem[..] == Copied(old(mem[..]), dst + left, src + left, n - left)
    {
      mem[dst + left - 1] := mem[src + left - 1];
      left := left - 1;
    }
  }

  /** Correct for any two ranges: upwards when the source is above, downwards when it is below. */
  method MemMove(mem: array<byte>, dst: nat, src: nat, n: nat)
    requires dst + n <= mem.Length && src + n <= mem.Length
    modifies mem
    ensures mem[..] == Copied(old(mem[..]), dst, src, n)
  {
    if src >= dst {
      var _ := MoveBytes(mem, dst, src, n, false);
    } else {
      MoveBytesDown(mem, dst, src, n);
    }
  }

  /** Words of two bytes, low byte first. */
  method MemSetWord(mem: array<byte>, s: nat, low: byte, high: byte, n: nat)
    requires s + 2 * n <= mem.Length
    modifies mem
    ensures mem[..s] == old(mem[..s]) && mem[s + 2 * n..] == old(mem[s + 2 * n..])
    ensures forall i :: 0 <= i < n ==> mem[s + 2 * i] == low && mem[s + 2 * i + 1] == high
  {
    for i := 0 to n
      invariant mem[..s] == old(mem[..s]) && mem[s + 2 * i..] == old(mem[s + 2 * i..])
      invariant forall j :: 0 <= j < i ==> mem[s + 2 * j] == low && mem[s + 2 * j + 1] == high
    {
      mem[s + 2 * i], mem[s + 2 * i + 1] := low, high;
    }
  }
}
