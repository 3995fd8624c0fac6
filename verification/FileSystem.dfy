/** The file system image: files are scattered over data blocks, and read_data collects any part of one. */
module FileSystem {
  import opened Bytes
  import CStrings

  const BLOCK := 4096
  const BLOCKS_PER_FILE := 1023
  const NUM_FILES := 63
  const FILENAME_LEN := 32

  const FILE_TYPE_RTC := 0
  const FILE_TYPE_DIR := 1
  const FILE_TYPE_FILE := 2

  datatype Dentry = Dentry(filename: seq<byte>, filetype: int, inodeNum: u32)
  datatype Inode = Inode(length: int, blocks: seq<int>)
  datatype Image = Image(direntries: seq<Dentry>, inodes: seq<Inode>, data: seq<seq<byte>>)

  // ---------- images ----------

  /** The number of blocks that a file of the given length uses. */
  function BlocksFor(length: nat): nat {
    (length + BLOCK - 1) / BLOCK
  }

  /** Sizes are as the format prescribes; block numbers may still be too large. */
  ghost predicate Sane(fs: Image) {
    && |fs.direntries| == NUM_FILES
    && (forall i :: 0 <= i < NUM_FILES ==> |fs.direntries[i].filename| == FILENAME_LEN)
    && (forall i :: 0 <= i < |fs.inodes| ==>
          |fs.inodes[i].blocks| == BLOCKS_PER_FILE && 0 <= fs.inodes[i].length <= BLOCKS_PER_FILE * BLOCK)
    && (forall b :: 0 <= b < |fs.data| ==> |fs.data[b]| == BLOCK)
    && (forall i, k :: 0 <= i < |fs.inodes| && 0 <= k < BLOCKS_PER_FILE && k < BlocksFor(fs.inodes[i].length) ==>
          fs.inodes[i].blocks[k] >= 0)
  }

  /** All blocks in use exist. */
  ghost predicate WellFormed(fs: Image) {
    && Sane(fs)
    && forall i, k :: 0 <= i < |fs.inodes| && 0 <= k < BLOCKS_PER_FILE && k < BlocksFor(fs.inodes[i].length) ==>
         fs.inodes[i].blocks[k] < |fs.data|
  }

  /** The data blocks of the given numbers, one after the other. */
  function Concatenated(data: seq<seq<byte>>, blocks: seq<int>): seq<byte> {
    if blocks == [] then []
    else Concatenated(data, blocks[..|blocks| - 1]) +
         (if 0 <= blocks[|blocks| - 1] < |data| then data[blocks[|blocks| - 1]] else [])
  }

  /** A file as a flat sequence: its blocks in order, cut to its length. */
  ghost function Content(fs: Image, inode: nat): (bytes: seq<byte>)
    requires WellFormed(fs) && inode < |fs.inodes|
    ensures |bytes| == fs.inodes[inode].length
  {
    var node := fs.inodes[inode];
    var used := node.blocks[..BlocksFor(node.length)];
    ConcatenatedAt(fs.data, used, 0);
    Concatenated(fs.data, used)[..node.length]
  }

  /** Byte `k` of a file, found through its block. */
  function ByteAt(fs: Image, inode: nat, k: nat): byte
    requires inode < |fs.inodes|
  {
    var blocks := fs.inodes[inode].blocks;
    if k / BLOCK < |blocks| && 0 <= blocks[k / BLOCK] < |fs.data| && k % BLOCK < |fs.data[blocks[k / BLOCK]]|
    then fs.data[blocks[k / BLOCK]][k % BLOCK] else 0
  }

  lemma {:induction false} ConcatenatedAt(data: seq<seq<byte>>, blocks: seq<int>, k: nat)
    requires forall b :: 0 <= b < |data| ==> |data[b]| == BLOCK
    requires forall i :: 0 <= i < |blocks| ==> 0 <= blocks[i] < |data|
    ensures |Concatenated(data, blocks)| == |blocks| * BLOCK
    ensures k < |blocks| * BLOCK ==> Concatenated(data, blocks)[k] == data[blocks[k / BLOCK]][k % BLOCK]
  {
    if blocks != [] {
      var n := |blocks| - 1;
      ConcatenatedAt(data, blocks[..n], k);
      if n * BLOCK <= k < |blocks| * BLOCK {
        assert k / BLOCK == n && k % BLOCK == k - n * BLOCK;
      }
    }
  }

  /** On a well-formed image a file has its stated length, and its bytes are those of its blocks. */
  lemma ContentBytes(fs: Image, inode: nat)
    requires WellFormed(fs) && inode < |fs.inodes|
    ensures |Content(fs, inode)| == fs.inodes[inode].length
    ensures forall k :: 0 <= k < |Content(fs, inode)| ==>
              && k / 4096 < 1023 && 0 <= fs.inodes[inode].blocks[k / 4096] < |fs.data|
              && Content(fs, inode)[k] == fs.data[fs.inodes[inode].blocks[k / 4096]][k % 4096] == ByteAt(fs, inode, k)
  {
    var node := fs.inodes[inode];
    var used := node.blocks[..BlocksFor(node.length)];
    ConcatenatedAt(fs.data, used, 0);
    forall k | 0 <= k < node.length
      ensures k / BLOCK < BlocksFor(node.length)
      ensures 0 <= node.blocks[k / BLOCK] < |fs.data| && Content(fs, inode)[k] == ByteAt(fs, inode, k)
    {
      ConcatenatedAt(fs.data, used, k);
      assert used[k / BLOCK] == node.blocks[k / BLOCK];
    }
  }

  // ---------- read_data ----------

  /** How many bytes a read can deliver. */
  function ReadCount(fs: Image, inode: nat, offset: nat, length: nat): nat {
    if inode >= |fs.inodes| || offset >= fs.inodes[inode].length then 0
    else if length <= fs.inodes[inode].length - offset then length
    else fs.inodes[inode].length - offset
  }

  /** The blocks that a read looks at: at least the first, even for an empty request. */
  ghost predicate Touches(fs: Image, inode: nat, offset: nat, length: nat, k: int) {
    var n := ReadCount(fs, inode, offset, length);
    offset / BLOCK <= k <= (offset + (if n == 0 then 0 else n - 1)) / BLOCK
  }

  ghost predicate BlockMissing(fs: Image, inode: nat, offset: nat, length: nat) {
    inode < |fs.inodes| && offset < fs.inodes[inode].length &&
    exists k :: 0 <= k < |fs.inodes[inode].blocks| && Touches(fs, inode, offset, length, k) &&
                fs.inodes[inode].blocks[k] >= |fs.data|
  }

  ghost function ReadResult(fs: Image, inode: nat, offset: nat, length: nat): int {
    if inode >= |fs.inodes| || BlockMissing(fs, inode, offset, length) then -1
    else ReadCount(fs, inode, offset, length)
  }

  function FileBytes(fs: Image, inode: nat, offset: nat, n: nat): (bytes: seq<byte>)
    requires inode < |fs.inodes|
    ensures |bytes| == n && forall k :: 0 <= k < n ==> bytes[k] == ByteAt(fs, inode, offset + k)
  {
    seq<byte>(n, k requires 0 <= k < n => ByteAt(fs, inode, offset + k))
  }

  /** Copies out of one block while the request, the block and the file last. */
  method CopyBlock(fs: Image, inode: nat, offset: nat, buf: array<byte>, at: nat, length: nat, count: nat)
    returns (count': nat)
    requires Sane(fs) && inode < |fs.inodes| && at + ReadCount(fs, inode, offset, length) <= buf.Length
    requires offset < fs.inodes[inode].length && count <= ReadCount(fs, inode, offset, length)
    requires offset + count < fs.inodes[inode].length
    requires 0 <= fs.inodes[inode].blocks[(offset + count) / BLOCK] < |fs.data|
    modifies buf
    ensures count <= count' <= ReadCount(fs, inode, offset, length)
    ensures count' == ReadCount(fs, inode, offset, length) || (count' > count && (offset + count') % BLOCK == 0)
    ensures (offset + count' - (if count' > count then 1 else 0)) / BLOCK == (offset + count) / BLOCK
    ensures forall a :: 0 <= a < buf.Length ==>
              buf[a] == if at + count <= a < at + count' then ByteAt(fs, inode, offset + (a - at)) else old(buf[a])
  {
    var size := fs.inodes[inode].length;
    var start, index := (offset + count) / BLOCK, (offset + count) % BLOCK;
    var block := fs.data[fs.inodes[inode].blocks[start]];
    count' := count;
    while count' < length && index < BLOCK && offset + count' < size
      invariant count <= count' <= ReadCount(fs, inode, offset, length)
      invariant index <= BLOCK && offset + count' == start * BLOCK + index
      invariant forall a :: 0 <= a < buf.Length ==>
                  buf[a] == if at + count <= a < at + count' then ByteAt(fs, inode, offset + (a - at)) else old(buf[a])
    {
      assert (offset + count') / BLOCK == start && (offset + count') % BLOCK == index;
      buf[at + count'] := block[index];
      index, count' := index + 1, count' + 1;
    }
  }

  /** Blocks between the start of a read and the byte it has reached are among those it touches. */
  lemma TouchesReached(fs: Image, inode: nat, offset: nat, length: nat, count: nat)
    requires inode < |fs.inodes| && offset < fs.inodes[inode].length
    requires count == 0 || count < ReadCount(fs, inode, offset, length)
    ensures Touches(fs, inode, offset, length, (offset + count) / BLOCK)
  {
  }

  /** When a read has delivered everything, all the blocks it touches were looked at. */
  lemma AllBlocksSeen(fs: Image, inode: nat, offset: nat, length: nat, last: nat)
    requires Sane(fs) && inode < |fs.inodes| && offset < fs.inodes[inode].length
    requires forall k :: offset / BLOCK <= k <= last ==> k < BLOCKS_PER_FILE && fs.inodes[inode].blocks[k] < |fs.data|
    requires var n := ReadCount(fs, inode, offset, length);
             (offset + (if n == 0 then 0 else n - 1)) / BLOCK <= last
    ensures !BlockMissing(fs, inode, offset, length)
  {
  }

  /** Reads from a file; -1 for a bad inode or when a block that the read touches does not exist. Then the part of
      the buffer that the request covers may have been written. */
  method ReadData(fs: Image, inode: nat, offset: nat, buf: array<byte>, at: nat, length: nat) returns (r: int)
    requires Sane(fs) && at + ReadCount(fs, inode, offset, length) <= buf.Length
    modifies buf
    ensures r == ReadResult(fs, inode, offset, length)
    ensures r >= 0 && inode < |fs.inodes| ==> buf[..] == CStrings.Put(old(buf[..]), at, FileBytes(fs, inode, offset, r))
    ensures forall a :: 0 <= a < buf.Length && !(at <= a < at + ReadCount(fs, inode, offset, length)) ==>
              buf[a] == old(buf[a])
  {
    if inode >= |fs.inodes| {
      return -1;
    }
    var node := fs.inodes[inode];
    if offset >= node.length {
      assert buf[..] == CStrings.Put(buf[..], at, FileBytes(fs, inode, offset, 0));
      return 0;
    }
    var count := 0;
    var index := offset / BLOCK;
    while true
      invariant count <= ReadCount(fs, inode, offset, length)
      invariant count == 0 || count < ReadCount(fs, inode, offset, length)
      invariant index == (offset + count) / BLOCK < BLOCKS_PER_FILE
      invariant count > 0 ==> (offset + count) % BLOCK == 0
      invariant forall k :: offset / BLOCK <= k < index ==> node.blocks[k] < |fs.data|
      invariant forall a :: 0 <= a < buf.Length ==>
                  buf[a] == if at <= a < at + count then ByteAt(fs, inode, offset + (a - at)) else old(buf[a])
      decreases node.length - count
    {
      assert index < BlocksFor(node.length);
      TouchesReached(fs, inode, offset, length, count);
      if node.blocks[index] >= |fs.data| {
        return -1;
      }
      count := CopyBlock(fs, inode, offset, buf, at, length, count);
      if count >= length || offset + count >= node.length {
        AllBlocksSeen(fs, inode, offset, length, index);
        assert buf[..] == CStrings.Put(old(buf[..]), at, FileBytes(fs, inode, offset, count));
        return count;
      }
      index := index + 1;
    }
  }

  /** A read fails exactly if the inode does not exist, or one of the bytes it asks for, or the first byte if it asks
      for none, lies in a block that does not exist. */
  lemma ReadFailsIff(fs: Image, inode: nat, offset: nat, length: nat)
    requires Sane(fs)
    ensures ReadResult(fs, inode, offset, length) == -1 <==>
            inode >= |fs.inodes| ||
            exists k :: 0 <= k < 1023 && BlockAsked(fs, inode, offset, length, k) &&
                        fs.inodes[inode].blocks[k] >= |fs.data|
  {
    if inode < |fs.inodes| && offset < fs.inodes[inode].length {
      forall k | 0 <= k < 1023
        ensures BlockAsked(fs, inode, offset, length, k) <==> Touches(fs, inode, offset, length, k)
      {
        AskedIsTouched(fs, inode, offset, length, k);
      }
    }
  }

  /** Some byte of the file that a read asks for, or its first byte, lies in the file's block `k`. */
  ghost predicate BlockAsked(fs: Image, inode: nat, offset: nat, length: nat, k: nat)
    requires inode < |fs.inodes|
  {
    exists q :: offset <= q < fs.inodes[inode].length && q / 4096 == k && (q < offset + length || q == offset)
  }

  lemma AskedIsTouched(fs: Image, inode: nat, offset: nat, length: nat, k: nat)
    requires inode < |fs.inodes| && offset < fs.inodes[inode].length
    ensures BlockAsked(fs, inode, offset, length, k) <==> Touches(fs, inode, offset, length, k)
  {
    if Touches(fs, inode, offset, length, k) {
      var q := if k * 4096 <= offset then offset else k * 4096;
      assert q / 4096 == k;
    }
  }

  /** On a well-formed image a read of an existing file always succeeds and delivers exactly the requested slice
      of its content, cut at the end of the file. */
  lemma ReadIsSlice(fs: Image, inode: nat, offset: nat, length: nat)
    requires WellFormed(fs) && inode < |fs.inodes|
    ensures var content := Content(fs, inode);
            var r := ReadResult(fs, inode, offset, length);
            && r == (if offset >= |content| then 0
                     else if length <= |content| - offset then length else |content| - offset)
            && (offset < |content| ==> FileBytes(fs, inode, offset, r) == content[offset..offset + r])
  {
    ContentBytes(fs, inode);
    var n := ReadCount(fs, inode, offset, length);
    if offset < fs.inodes[inode].length {
      forall k | 0 <= k < BLOCKS_PER_FILE && Touches(fs, inode, offset, length, k)
        ensures fs.inodes[inode].blocks[k] < |fs.data|
      {
        assert k < BlocksFor(fs.inodes[inode].length);
      }
      var slice := Content(fs, inode)[offset..offset + n];
      forall k | 0 <= k < n
        ensures FileBytes(fs, inode, offset, n)[k] == slice[k]
      {
        assert slice[k] == Content(fs, inode)[offset + k];
      }
    }
  }
}
