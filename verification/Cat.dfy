/** The cat program on the kernel's console: what it passes to write, and what the console then shows. */
module Cat {
  import opened Bytes
  import opened FileSystem
  import opened Descriptors
  import Console
  import CStrings

  const REQUEST := 1024

  // ---------- writing to the console ----------

  /** The part of a request that the console shows: everything in front of the first NUL. */
  function UpToNul(s: seq<byte>): (r: seq<byte>)
    ensures NUL !in r && r <= s && (|r| < |s| ==> s[|r|] == 0)
  {
    CStrings.CStr(s, 0)
  }

  /** The console's write. It stops in front of a NUL and returns how far it came. */
  method TerminalWrite(console: Console.Terminal, buf: array<byte>, n: nat) returns (idx: nat)
    requires console.Valid() && console.video != buf && n <= buf.Length
    modifies console, console.video
    ensures idx == |UpToNul(buf[..n])|
    ensures console.Valid() && console.text == Console.PutAll(old(console.text), UpToNul(buf[..n]))
  {
    idx := 0;
    if n == 0 {
      return;
    }
    ghost var before, request := console.text, buf[..n];
    NextShown(before, request, 0);
    while buf[idx] != NUL
      invariant idx < n && idx <= |UpToNul(request)| && buf[..n] == request
      invariant console.Valid() && console.text == Console.PutAll(before, UpToNul(request)[..idx])
      decreases n - idx
    {
      NextShown(before, request, idx);
      console.PutC(buf[idx]);
      idx := idx + 1;
      if idx == n {
        break;
      }
    }
    NextShown(before, request, idx);
  }

  lemma NextShown(t: Console.Text, request: seq<byte>, i: nat)
    requires t.rows != [] && i <= |UpToNul(request)|
    ensures var shown := UpToNul(request);
            if i < |request| && request[i] != NUL then
              && i < |shown| && shown[i] == request[i]
              && Console.PutAll(t, shown[..i + 1]) == Console.Put(Console.PutAll(t, shown[..i]), request[i])
            else shown[..i] == shown && i == |shown|
  {
    var shown := UpToNul(request);
    if i < |request| && request[i] != NUL {
      assert shown[..i + 1][..i] == shown[..i];
    }
  }

  /** What the console shows of a text that is written in requests of 1024 bytes. */
  function Shown(text: seq<byte>): (r: seq<byte>)
    ensures |r| <= |text|
  {
    if |text| <= REQUEST then UpToNul(text) else UpToNul(text[..REQUEST]) + Shown(text[REQUEST..])
  }

  lemma UpToNulIff(text: seq<byte>)
    ensures UpToNul(text) == text <==> NUL !in text
    ensures NUL in text ==> |UpToNul(text)| < |text|
  {
    if NUL in text {
      assert UpToNul(text) != text;
    }
  }

  /** The console shows a whole text exactly if the text contains no NUL. */
  lemma {:induction false} ShowsAllIff(text: seq<byte>)
    ensures Shown(text) == text <==> NUL !in text
    ensures NUL in text ==> |Shown(text)| < |text|
  {
    if |text| <= REQUEST {
      UpToNulIff(text);
    } else {
      UpToNulIff(text[..REQUEST]);
      ShowsAllIff(text[REQUEST..]);
      assert text == text[..REQUEST] + text[REQUEST..];
    }
  }

  lemma {:induction false} ShownAppend(a: seq<byte>, b: seq<byte>, k: nat)
    requires |a| == k * REQUEST && |b| <= REQUEST
    ensures Shown(a + b) == Shown(a) + UpToNul(b)
  {
    if a == [] {
      assert a + b == b;
    } else if b == [] {
      assert a + b == a;
    } else {
      assert (a + b)[..REQUEST] == a[..REQUEST] && (a + b)[REQUEST..] == a[REQUEST..] + b;
      ShownAppend(a[REQUEST..], b, k - 1);
      ShownFront(a);
    }
  }

  lemma ShownFront(a: seq<byte>)
    requires |a| >= REQUEST
    ensures Shown(a) == UpToNul(a[..REQUEST]) + Shown(a[REQUEST..])
  {
    if |a| == REQUEST {
      assert a[..REQUEST] == a && a[REQUEST..] == [];
    }
  }

  lemma ShownMore(t: Console.Text, a: seq<byte>, b: seq<byte>, k: nat)
    requires t.rows != [] && |a| == k * REQUEST && |b| <= REQUEST
    ensures Console.PutAll(Console.PutAll(t, Shown(a)), UpToNul(b)) == Console.PutAll(t, Shown(a + b))
  {
    ShownAppend(a, b, k);
    Console.PutAllAppend(t, Shown(a), UpToNul(b));
  }

  // ---------- the loop ----------

  /** One read of an open file that continues where the last one stopped. */
  method ReadMore(t: FileArray, fd: int, buf: array<byte>, was: nat, length: u32, ghost inode: u32) returns (n: int)
    requires t.Valid() && WellFormed(t.fs) && 0 < length <= buf.Length
    requires 2 <= fd < 8 && inode < |t.fs.inodes| && was <= t.fs.inodes[inode].length
    requires t.files[fd] == Entry(FileOps, inode, was, FILE_OCCUP)
    modifies t.files, buf
    ensures t.Valid() && n == Min(length, t.fs.inodes[inode].length - was)
    ensures t.files[fd] == Entry(FileOps, inode, was + n, FILE_OCCUP)
    ensures buf[..n] == Content(t.fs, inode)[was..was + n]
  {
    OneRead(t.fs, inode, was, length);
    ghost var before, bytes := buf[..], ReadBytes(t.fs, t.files[fd], length);
    var r := t.Read(fd, buf, 0, length);
    n := r.n;
    PutAtStart(before, bytes);
  }

  lemma PutAtStart(mem: seq<byte>, text: seq<byte>)
    requires |text| <= |mem|
    ensures CStrings.Put(mem, 0, text)[..|text|] == text
  {
  }

  /** Passes one request to the console. */
  method PassOn(console: Console.Terminal, buf: array<byte>, cnt: nat, out: seq<byte>,
                ghost before: Console.Text, ghost writes: nat)
    returns (out': seq<byte>)
    requires console.Valid() && console.video != buf && cnt <= buf.Length && cnt <= REQUEST
    requires before.rows != [] && |out| == writes * REQUEST
    requires console.text == Console.PutAll(before, Shown(out))
    modifies console, console.video
    ensures out' == out + buf[..cnt]
    ensures console.Valid() && console.text == Console.PutAll(before, Shown(out'))
  {
    ghost var request := buf[..cnt];
    var _ := TerminalWrite(console, buf, cnt);
    ShownMore(before, out, request, writes);
    out' := out + buf[..cnt];
  }

  /** The loop of cat, where the first `accepted` writes succeed: it ends, and has passed exactly the file to write,
      unless the file needs more writes than succeed. The console shows of each request what stands in front of its
      first NUL. */
  method CatFile(t: FileArray, fd: int, buf: array<byte>, console: Console.Terminal, accepted: nat)
    returns (rc: int, out: seq<byte>)
    requires t.Valid() && WellFormed(t.fs) && buf.Length >= REQUEST
    requires console.Valid() && console.video != buf
    requires 2 <= fd < 8 && t.files[fd].flags == FILE_OCCUP && t.files[fd].ops == FileOps
    requires t.files[fd].position == 0 && t.files[fd].inodeNum < |t.fs.inodes|
    modifies t.files, buf, console, console.video
    ensures console.Valid() && console.text == Console.PutAll(old(console.text), Shown(out))
    ensures var content := Content(t.fs, old(t.files[fd].inodeNum));
            if |content| <= accepted * REQUEST then rc == 0 && out == content
            else rc == 3 && out == content[..accepted * REQUEST]
  {
    ghost var before := console.text;
    ghost var inode, content := t.files[fd].inodeNum, Content(t.fs, t.files[fd].inodeNum);
    out := [];
    var writes := 0;
    while true
      invariant t.Valid()
      invariant writes <= accepted && |out| == Min(writes * REQUEST, |content|)
      invariant t.files[fd] == Entry(FileOps, inode, |out|, FILE_OCCUP)
      invariant |out| <= |content| && out == content[..|out|]
      invariant console.Valid() && console.text == Console.PutAll(before, Shown(out))
      decreases |content| - |out|
    {
      var cnt := ReadMore(t, fd, buf, |out|, REQUEST, inode);
      if cnt == 0 {
        return 0, out;
      }
      if cnt == -1 {
        return 3, out;
      }
      if writes == accepted {
        return 3, out;
      }
      PrefixGrows(content, |out|, cnt);
      out := PassOn(console, buf, cnt, out, before, writes);
      writes := writes + 1;
    }
  }
}
