/** The descriptor table of a process: opening, reading and closing files and directories by number. */
module Descriptors {
  import opened Bytes
  import opened CStrings
  import opened FileSystem

  const NUM_MAX_OPEN_FILES := 8
  const FILE_AVAIL := 1
  const FILE_OCCUP := 0

  datatype Ops = NoOps | TerminalOps | FileOps | DirectoryOps | RtcOps

  datatype Entry = Entry(ops: Ops, inodeNum: u32, position: int, flags: int)

  const BLANK_ENTRY := Entry(NoOps, 0, 0, FILE_AVAIL)
  const STANDARD := Entry(TerminalOps, 0, 0, FILE_OCCUP)

  // ---------- looking up names ----------

  /** The first 32 characters of both names agree; the field may lack a terminator. */
  predicate NameMatches(name: seq<byte>, field: seq<byte>) {
    Take(name, FILENAME_LEN) == Take(CStr(field, 0), FILENAME_LEN)
  }

  /** Index of the first directory entry with the given name, or the number of entries. */
  function FindName(entries: seq<Dentry>, name: seq<byte>): (k: nat)
    ensures k <= |entries|
    ensures k < |entries| ==> NameMatches(name, entries[k].filename)
    ensures forall j :: 0 <= j < k ==> !NameMatches(name, entries[j].filename)
  {
    if entries == [] || NameMatches(name, entries[0].filename) then 0 else 1 + FindName(entries[1..], name)
  }

  function Lookup(fs: Image, name: seq<byte>): Option<Dentry> {
    var k := FindName(fs.direntries, name);
    if name == [] || k == |fs.direntries| then None else Some(fs.direntries[k])
  }

  /** A name of fewer than 32 characters matches an entry exactly if it is the entry's name. */
  lemma ShortNameMatches(name: seq<byte>, field: seq<byte>)
    requires |name| < 32 && |field| == 32
    ensures NameMatches(name, field) <==> name == CStr(field, 0)
  {
    if |CStr(field, 0)| == 32 {
      assert |Take(CStr(field, 0), 32)| == 32;
    }
  }

  ghost predicate IsFirstMatch(fs: Image, name: seq<byte>, k: nat) {
    && k < |fs.direntries| && NameMatches(name, fs.direntries[k].filename)
    && forall j :: 0 <= j < k ==> !NameMatches(name, fs.direntries[j].filename)
  }

  /** The lookup finds the first entry that matches, and fails exactly for the empty name and if none matches. */
  lemma LookupIsFirst(fs: Image, name: seq<byte>, k: nat)
    ensures name != [] && IsFirstMatch(fs, name, k) ==> Lookup(fs, name) == Some(fs.direntries[k])
    ensures Lookup(fs, name) == None <==>
            name == [] || forall j :: 0 <= j < |fs.direntries| ==> !NameMatches(name, fs.direntries[j].filename)
  {
    FirstMatchIs(fs.direntries, name, FindName(fs.direntries, name));
    if IsFirstMatch(fs, name, k) {
      FirstMatchIs(fs.direntries, name, k);
    }
  }

  lemma FirstMatchIs(entries: seq<Dentry>, name: seq<byte>, k: nat)
    requires k <= |entries| && (k < |entries| ==> NameMatches(name, entries[k].filename))
    requires forall j :: 0 <= j < k ==> !NameMatches(name, entries[j].filename)
    ensures FindName(entries, name) == k
  {
  }

  /** Compares at most 32 characters of a name and a directory field. */
  method CompareNames(name: seq<byte>, field: seq<byte>) returns (same: bool)
    requires NUL !in name && |field| == FILENAME_LEN
    ensures same == NameMatches(name, field)
  {
    ghost var text := CStr(field, 0);
    CompareZero(name, text, FILENAME_LEN);
    assert name[0..] == name && text[0..] == text;
    var i := 0;
    while i < FILENAME_LEN
      invariant i <= FILENAME_LEN && i <= |name| && i <= |text|
      invariant Compare(name, text, FILENAME_LEN) == Compare(name[i..], text[i..], FILENAME_LEN - i)
    {
      var c: byte := if i < |name| then name[i] else NUL;
      assert field[i] == NthChar(text, i);
      CompareNext(name, text, i, FILENAME_LEN - i);
      if c != field[i] || c == NUL {
        return c == field[i];
      }
      i := i + 1;
    }
    return true;
  }

  method ReadDentryByName(fs: Image, name: seq<byte>) returns (dentry: Option<Dentry>)
    requires Sane(fs) && NUL !in name
    ensures dentry == Lookup(fs, name)
  {
    if name == [] {
      return None;
    }
    var index := 0;
    while index < NUM_FILES
      invariant index <= NUM_FILES
      invariant forall j :: 0 <= j < index ==> !NameMatches(name, fs.direntries[j].filename)
    {
      var same := CompareNames(name, fs.direntries[index].filename);
      if same {
        return Some(fs.direntries[index]);
      }
      index := index + 1;
    }
    return None;
  }

  // ---------- the table as a value ----------

  ghost predicate Table(files: seq<Entry>) {
    |files| == NUM_MAX_OPEN_FILES && files[0] == STANDARD && files[1] == STANDARD
  }

  /** The lowest descriptor from `fd` on that is available, or 8. */
  function LowestFree(files: seq<Entry>, fd: nat): (k: nat)
    requires fd <= |files| == NUM_MAX_OPEN_FILES
    ensures fd <= k <= NUM_MAX_OPEN_FILES
    ensures k < NUM_MAX_OPEN_FILES ==> files[k].flags == FILE_AVAIL
    ensures forall j :: fd <= j < k ==> files[j].flags != FILE_AVAIL
    decreases NUM_MAX_OPEN_FILES - fd
  {
    if fd == NUM_MAX_OPEN_FILES || files[fd].flags == FILE_AVAIL then fd else LowestFree(files, fd + 1)
  }

  /** Names that can be opened: present, short enough for a terminator, of a known type. */
  predicate Openable(fs: Image, name: seq<byte>) {
    && |name| < FILENAME_LEN
    && Lookup(fs, name).Some?
    && Lookup(fs, name).value.filetype in {FILE_TYPE_RTC, FILE_TYPE_DIR, FILE_TYPE_FILE}
  }

  /** The new entry. The clock's descriptor is handed out without being marked as taken. */
  function NewEntry(free: Entry, dentry: Dentry): Entry {
    if dentry.filetype == FILE_TYPE_RTC then free.(ops := RtcOps, inodeNum := dentry.inodeNum)
    else Entry(if dentry.filetype == FILE_TYPE_DIR then DirectoryOps else FileOps, dentry.inodeNum, 0, FILE_OCCUP)
  }

  function Opened(fs: Image, files: seq<Entry>, name: seq<byte>): (seq<Entry>, int)
    requires |files| == NUM_MAX_OPEN_FILES
  {
    var fd: int := LowestFree(files, 2);
    if !Openable(fs, name) || fd == NUM_MAX_OPEN_FILES then (files, -1)
    else (files[fd := NewEntry(files[fd], Lookup(fs, name).value)], fd)
  }

  function Closed(files: seq<Entry>, fd: int): (seq<Entry>, int)
    requires |files| == NUM_MAX_OPEN_FILES
  {
    if fd < 2 || 7 < fd || files[fd].flags == FILE_AVAIL then (files, -1) else (files[fd := BLANK_ENTRY], 0)
  }

  /** The part of a read that concerns the table: the position moves by what was read. */
  ghost function AfterRead(fs: Image, files: seq<Entry>, fd: int, length: u32): seq<Entry>
    requires |files| == NUM_MAX_OPEN_FILES
  {
    if fd < 0 || 7 < fd || files[fd].flags == FILE_AVAIL then files
    else if files[fd].ops == FileOps then
      // standard input and output are never read as files
      if fd < 2 then files
      else files[fd := files[fd].(position := files[fd].position + FileReadResult(fs, files[fd], length))]
    else if files[fd].ops == DirectoryOps && 0 <= files[fd].position < NUM_FILES then
      files[fd := files[fd].(position := files[fd].position + 1)]
    else files
  }

  ghost function FileReadResult(fs: Image, e: Entry, length: u32): int {
    ReadResult(fs, e.inodeNum, e.position % 0x1_0000_0000, length)
  }

  // ---------- runs ----------

  datatype Op = Open(name: seq<byte>) | Close(fd: int) | Read(fd: int, length: u32)

  ghost function Step(fs: Image, files: seq<Entry>, op: Op): (r: seq<Entry>)
    requires |files| == NUM_MAX_OPEN_FILES
    ensures |r| == NUM_MAX_OPEN_FILES
  {
    match op
    case Open(name) => Opened(fs, files, name).0
    case Close(fd) => Closed(files, fd).0
    case Read(fd, length) => AfterRead(fs, files, fd, length)
  }

  ghost function Run(fs: Image, files: seq<Entry>, ops: seq<Op>): (r: seq<Entry>)
    requires |files| == NUM_MAX_OPEN_FILES
    ensures |r| == NUM_MAX_OPEN_FILES
  {
    if ops == [] then files else Step(fs, Run(fs, files, ops[..|ops| - 1]), ops[|ops| - 1])
  }

  /** A run begins with its first call. */
  lemma {:induction false} RunFront(fs: Image, files: seq<Entry>, op: Op, ops: seq<Op>)
    requires |files| == NUM_MAX_OPEN_FILES
    ensures Run(fs, files, [op] + ops) == Run(fs, Step(fs, files, op), ops)
    decreases |ops|
  {
    if ops == [] {
      assert ([op] + ops)[..0] == [];
    } else {
      assert ([op] + ops)[..|ops|] == [op] + ops[..|ops| - 1];
      RunFront(fs, files, op, ops[..|ops| - 1]);
    }
  }

  lemma StepKeepsTable(fs: Image, files: seq<Entry>, op: Op)
    requires Table(files)
    ensures Table(Step(fs, files, op))
  {
  }

  /** Standard input and output stay open in every run. */
  lemma {:induction false} StandardStaysOpen(fs: Image, files: seq<Entry>, ops: seq<Op>)
    requires Table(files)
    ensures Table(Run(fs, files, ops))
  {
    if ops != [] {
      StandardStaysOpen(fs, files, ops[..|ops| - 1]);
    }
  }

  /** In every reachable table: an open fails exactly if the name cannot be opened or all six descriptors are
      taken, and a successful one returns the lowest free descriptor of 2 to 7 and touches no other. */
  lemma OpenReturnsLowest(fs: Image, files: seq<Entry>, ops: seq<Op>, name: seq<byte>)
    requires Table(files)
    ensures var before := Run(fs, files, ops);
            var (after, rc) := Opened(fs, before, name);
            && (rc == -1 <==> !Openable(fs, name) || forall k :: 2 <= k < 8 ==> before[k].flags != FILE_AVAIL)
            && (rc == -1 ==> after == before)
            && (rc != -1 ==> 2 <= rc < 8 && before[rc].flags == FILE_AVAIL)
            && (rc != -1 ==> forall k :: 2 <= k < rc ==> before[k].flags != FILE_AVAIL)
            && (rc != -1 ==> forall k :: 0 <= k < 8 && k != rc ==> after[k] == before[k])
  {
  }

  /** A successful open takes its descriptor exactly when the name is not that of the clock; after the clock has
      been opened, the next open that succeeds returns the same descriptor. */
  lemma OpenTakesDescriptorIff(fs: Image, files: seq<Entry>, name: seq<byte>, next: seq<byte>)
    requires Table(files) && Opened(fs, files, name).1 != -1
    ensures var (after, fd) := Opened(fs, files, name);
            var clock := Lookup(fs, name).value.filetype == FILE_TYPE_RTC;
            && (0 <= fd < 8 && (after[fd].flags != FILE_AVAIL <==> !clock))
            && (Opened(fs, after, next).1 != -1 ==> (Opened(fs, after, next).1 == fd <==> clock))
  {
  }

  /** A name can be opened exactly if it is not empty, has fewer than 32 characters, and the first entry that matches
      it is the clock, a directory or a regular file. */
  lemma OpenableIff(fs: Image, name: seq<byte>, k: nat)
    requires IsFirstMatch(fs, name, k)
    ensures Openable(fs, name) <==> 0 < |name| < 32 && fs.direntries[k].filetype in {0, 1, 2}
  {
    LookupIsFirst(fs, name, k);
  }

  /** What a successful open leaves in the table: the operations of the file's type, its inode and, except for the
      clock, whose entry stays free, the position at its start. */
  lemma OpenInstalls(fs: Image, files: seq<Entry>, name: seq<byte>, k: nat)
    requires Table(files) && Opened(fs, files, name).1 != -1
    requires IsFirstMatch(fs, name, k)
    ensures var (after, fd) := Opened(fs, files, name);
            var filetype, inode := fs.direntries[k].filetype, fs.direntries[k].inodeNum;
            && 2 <= fd < 8 && filetype in {0, 1, 2}
            && after[fd] == if filetype == 0 then files[fd].(ops := RtcOps, inodeNum := inode)
                            else Entry(if filetype == 1 then DirectoryOps else FileOps, inode, 0, FILE_OCCUP)
  {
    LookupIsFirst(fs, name, k);
  }

  /** Every descriptor from 2 to 7 that is taken can be closed, whatever it is open for and wherever its position is,
      and no other can; closing makes it free. */
  lemma CloseSucceedsIff(files: seq<Entry>, fd: int)
    requires |files| == 8
    ensures var (after, rc) := Closed(files, fd);
            if 2 <= fd < 8 && files[fd].flags != 1 then rc == 0 && after == files[fd := Entry(NoOps, 0, 0, 1)]
            else rc == -1 && after == files
  {
  }

  /** Entries below the lowest free one decide where the lowest free one is. */
  lemma LowestFreeUnchanged(files: seq<Entry>, after: seq<Entry>, from: nat, fd: nat)
    requires |files| == |after| == NUM_MAX_OPEN_FILES && from <= fd < NUM_MAX_OPEN_FILES
    requires LowestFree(files, from) == fd && forall k :: from <= k < fd ==> after[k] == files[k]
    ensures after[fd].flags == FILE_AVAIL ==> LowestFree(after, from) == fd
    ensures after[fd].flags != FILE_AVAIL ==> LowestFree(after, from) > fd
    decreases fd - from
  {
  }

  /** Reading or closing one descriptor leaves every other one alone. */
  lemma OthersUntouched(fs: Image, files: seq<Entry>, op: Op, k: nat)
    requires |files| == NUM_MAX_OPEN_FILES && k < 8 && !op.Open? && op.fd != k
    ensures Step(fs, files, op)[k] == files[k]
  {
  }

  /** Closing what was just opened succeeds exactly if it was not the clock, and then it restores the table, except
      that the entry it frees becomes blank. */
  lemma CloseUndoesOpen(fs: Image, files: seq<Entry>, name: seq<byte>)
    requires Table(files) && Opened(fs, files, name).1 != -1
    ensures var (after, fd) := Opened(fs, files, name);
            var clock := Lookup(fs, name).value.filetype == FILE_TYPE_RTC;
            && 2 <= fd < 8 && Closed(after, fd) == (if clock then (after, -1) else (files[fd := BLANK_ENTRY], 0))
            && (Closed(after, fd) == (files, 0) <==> !clock && files[fd] == BLANK_ENTRY)
  {
    var (after, fd) := Opened(fs, files, name);
    assert after[fd := BLANK_ENTRY] == files[fd := BLANK_ENTRY];
    assert files[fd := BLANK_ENTRY][fd] == BLANK_ENTRY;
    assert files[fd := files[fd]] == files;
  }

  ghost predicate FreeAreBlank(files: seq<Entry>) {
    forall k :: 0 <= k < |files| && files[k].flags == FILE_AVAIL ==> files[k] == BLANK_ENTRY
  }

  /** Does the call open the clock, if it succeeds? */
  predicate OpensClock(fs: Image, op: Op) {
    op.Open? && Lookup(fs, op.name).Some? && Lookup(fs, op.name).value.filetype == FILE_TYPE_RTC
  }

  lemma StepKeepsBlank(fs: Image, files: seq<Entry>, op: Op)
    requires |files| == NUM_MAX_OPEN_FILES && FreeAreBlank(files) && !OpensClock(fs, op)
    ensures FreeAreBlank(Step(fs, files, op))
  {
    if op.Open? {
      var (after, fd) := Opened(fs, files, op.name);
      assert fd == -1 || (after[fd].flags == FILE_OCCUP && after == files[fd := after[fd]]);
    } else if op.Close? {
      var (after, rc) := Closed(files, op.fd);
      assert rc == -1 || after == files[op.fd := BLANK_ENTRY];
    } else {
      forall k | 0 <= k < |files|
        ensures var after := AfterRead(fs, files, op.fd, op.length);
                after[k].flags == files[k].flags && (files[k].flags == FILE_AVAIL ==> after[k] == files[k])
      {
      }
    }
  }

  lemma {:induction false} FreeStayBlank(fs: Image, files: seq<Entry>, ops: seq<Op>)
    requires |files| == NUM_MAX_OPEN_FILES && FreeAreBlank(files)
    requires forall i :: 0 <= i < |ops| ==> !OpensClock(fs, ops[i])
    ensures FreeAreBlank(Run(fs, files, ops))
    decreases |ops|
  {
    if ops != [] {
      FreeStayBlank(fs, files, ops[..|ops| - 1]);
      StepKeepsBlank(fs, Run(fs, files, ops[..|ops| - 1]), ops[|ops| - 1]);
    }
  }

  /** In every run that does not open the clock, closing what was just opened restores the table exactly. */
  lemma CloseUndoesOpenInEveryRun(fs: Image, files: seq<Entry>, ops: seq<Op>, name: seq<byte>)
    requires Table(files) && FreeAreBlank(files)
    requires forall i :: 0 <= i < |ops| ==> !OpensClock(fs, ops[i])
    ensures var before := Run(fs, files, ops);
            var (after, fd) := Opened(fs, before, name);
            fd != -1 && !OpensClock(fs, Open(name)) ==> Closed(after, fd) == (before, 0)
  {
    StandardStaysOpen(fs, files, ops);
    FreeStayBlank(fs, files, ops);
    if Opened(fs, Run(fs, files, ops), name).1 != -1 {
      CloseUndoesOpen(fs, Run(fs, files, ops), name);
    }
  }

  // ---------- reading a file piece by piece ----------

  /** The bytes that successive reads of one open file deliver, and the position they leave. */
  ghost function Delivered(fs: Image, inode: nat, position: nat, sizes: seq<nat>): (seq<byte>, nat)
    requires WellFormed(fs) && inode < |fs.inodes|
  {
    if sizes == [] then ([], position)
    else
      var (bytes, p) := Delivered(fs, inode, position, sizes[..|sizes| - 1]);
      var n := ReadCount(fs, inode, p, sizes[|sizes| - 1]);
      (bytes + FileBytes(fs, inode, p, n), p + n)
  }

  function Sum(sizes: seq<nat>): nat {
    if sizes == [] then 0 else Sum(sizes[..|sizes| - 1]) + sizes[|sizes| - 1]
  }

  function Min(a: nat, b: nat): nat {
    if a < b then a else b
  }

  lemma SliceRead(fs: Image, inode: nat, p: nat, size: nat)
    requires WellFormed(fs) && inode < |fs.inodes| && p <= |Content(fs, inode)|
    ensures var content, n := Content(fs, inode), ReadCount(fs, inode, p, size);
            && n == Min(size, |content| - p) && ReadResult(fs, inode, p, size) == n
            && FileBytes(fs, inode, p, n) == content[p..p + n]
  {
    ReadIsSlice(fs, inode, p, size);
    if p == |Content(fs, inode)| {
      assert FileBytes(fs, inode, p, 0) == Content(fs, inode)[p..p];
    }
  }

  /** Whatever the sizes of the requests, the bytes read so far are a prefix of the file, as long as the requests
      add up to or the whole file, and the position is its length. */
  lemma {:induction false} ReadsAreAPrefix(fs: Image, inode: nat, sizes: seq<nat>)
    requires WellFormed(fs) && inode < |fs.inodes|
    ensures var content := Content(fs, inode);
            var (bytes, p) := Delivered(fs, inode, 0, sizes);
            p == Min(Sum(sizes), |content|) && bytes == content[..p]
  {
    if sizes != [] {
      var content, size := Content(fs, inode), sizes[|sizes| - 1];
      ReadsAreAPrefix(fs, inode, sizes[..|sizes| - 1]);
      var p := Delivered(fs, inode, 0, sizes[..|sizes| - 1]).1;
      SliceRead(fs, inode, p, size);
      PrefixGrows(content, p, ReadCount(fs, inode, p, size));
    }
  }

  /** A non-empty request delivers nothing exactly at the end of the file. */
  lemma NothingOnlyAtEnd(fs: Image, inode: nat, sizes: seq<nat>, size: nat)
    requires WellFormed(fs) && inode < |fs.inodes| && size > 0
    ensures ReadResult(fs, inode, Delivered(fs, inode, 0, sizes).1, size) == 0 <==>
            Sum(sizes) >= |Content(fs, inode)|
  {
    ReadsAreAPrefix(fs, inode, sizes);
    ReadIsSlice(fs, inode, Delivered(fs, inode, 0, sizes).1, size);
  }

  /** The sizes of the reads of one descriptor in a run. */
  function SizesOf(ops: seq<Op>, fd: int): seq<nat> {
    if ops == [] then []
    else
      SizesOf(ops[..|ops| - 1], fd) +
      match ops[|ops| - 1] {
        case Read(d, length) => if d == fd then [length] else []
        case _ => []
      }
  }

  /** One step of a run moves the position of an open file if it reads that file, and not otherwise. */
  lemma StepPosition(fs: Image, files: seq<Entry>, op: Op, fd: nat)
    requires |files| == NUM_MAX_OPEN_FILES && 2 <= fd < 8
    requires files[fd].ops == FileOps && files[fd].flags == FILE_OCCUP && op != Close(fd)
    ensures Step(fs, files, op)[fd] ==
            if op.Read? && op.fd == fd
            then files[fd].(position := files[fd].position + FileReadResult(fs, files[fd], op.length))
            else files[fd]
  {
  }

  lemma ReadAdvances(fs: Image, inode: u32, position: nat, length: u32)
    requires WellFormed(fs) && inode < |fs.inodes| && position <= fs.inodes[inode].length
    ensures var e := Entry(FileOps, inode, position, FILE_OCCUP);
            position + FileReadResult(fs, e, length) == Min(position + length, fs.inodes[inode].length)
  {
  }

  lemma SizesStep(ops: seq<Op>, fd: int)
    requires ops != []
    ensures var before, op := ops[..|ops| - 1], ops[|ops| - 1];
            Sum(SizesOf(ops, fd)) ==
            Sum(SizesOf(before, fd)) + if op.Read? && op.fd == fd then op.length else 0
  {
    var sizes := SizesOf(ops[..|ops| - 1], fd);
    var op := ops[|ops| - 1];
    if op.Read? && op.fd == fd {
      assert (sizes + [op.length])[..|sizes|] == sizes;
    } else {
      assert sizes + [] == sizes;
    }
  }

  /** In every run that does not close it, an open file's position is decided by its own reads alone. */
  lemma {:induction false} PositionInEveryRun(fs: Image, files: seq<Entry>, ops: seq<Op>, fd: nat, inode: u32)
    requires WellFormed(fs) && inode < |fs.inodes|
    requires |files| == NUM_MAX_OPEN_FILES && 2 <= fd < 8 && files[fd] == Entry(FileOps, inode, 0, FILE_OCCUP)
    requires forall i :: 0 <= i < |ops| ==> ops[i] != Close(fd)
    ensures Run(fs, files, ops)[fd] ==
            Entry(FileOps, inode, Min(Sum(SizesOf(ops, fd)), fs.inodes[inode].length), FILE_OCCUP)
    decreases |ops|
  {
    if ops != [] {
      var before, op := ops[..|ops| - 1], ops[|ops| - 1];
      PositionInEveryRun(fs, files, before, fd, inode);
      StepPosition(fs, Run(fs, files, before), op, fd);
      SizesStep(ops, fd);
      if op.Read? && op.fd == fd {
        ReadAdvances(fs, inode, Run(fs, files, before)[fd].position, op.length);
      }
    }
  }

  /** The bytes that a read of an open file stores. */
  ghost function ReadBytes(fs: Image, e: Entry, length: u32): (bytes: seq<byte>) {
    var n := FileReadResult(fs, e, length);
    if n <= 0 || e.inodeNum >= |fs.inodes| then []
    else FileBytes(fs, e.inodeNum, e.position % 0x1_0000_0000, n)
  }

  /** The bytes that the reads of descriptor `fd` have returned in a run, one after the other. */
  ghost function Received(fs: Image, files: seq<Entry>, ops: seq<Op>, fd: int): seq<byte>
    requires |files| == NUM_MAX_OPEN_FILES && 0 <= fd < NUM_MAX_OPEN_FILES
  {
    if ops == [] then []
    else
      var init, op := ops[..|ops| - 1], ops[|ops| - 1];
      Received(fs, files, init, fd) +
      if op.Read? && op.fd == fd then ReadBytes(fs, Run(fs, files, init)[fd], op.length) else []
  }

  /** One read of an open file on a well-formed image. */
  lemma OneRead(fs: Image, inode: u32, position: nat, length: u32)
    requires WellFormed(fs) && inode < |fs.inodes| && position <= fs.inodes[inode].length
    ensures var content, e := Content(fs, inode), Entry(FileOps, inode, position, FILE_OCCUP);
            var n := Min(length, |content| - position);
            && FileReadResult(fs, e, length) == n
            && ReadBytes(fs, e, length) == content[position..position + n]
  {
    var content, e := Content(fs, inode), Entry(FileOps, inode, position, FILE_OCCUP);
    var n := Min(length, |content| - position);
    assert e.position % 0x1_0000_0000 == position;
    SliceRead(fs, inode, position, length);
    if n == 0 {
      assert content[position..position] == [];
    }
  }

  lemma PrefixGrows(content: seq<byte>, p: nat, n: nat)
    requires p + n <= |content|
    ensures content[..p] + content[p..p + n] == content[..p + n]
  {
  }

  lemma ReadExtends(fs: Image, inode: u32, position: nat, length: u32)
    requires WellFormed(fs) && inode < |fs.inodes| && position <= fs.inodes[inode].length
    ensures var content, e := Content(fs, inode), Entry(FileOps, inode, position, FILE_OCCUP);
            content[..position] + ReadBytes(fs, e, length) == content[..Min(position + length, |content|)]
  {
    OneRead(fs, inode, position, length);
    PrefixGrows(Content(fs, inode), position, Min(length, fs.inodes[inode].length - position));
  }

  /** In every run that does not close it, whatever is opened, read or closed besides, the bytes returned for a
      file are its content up to the file's position. */
  lemma {:induction false} EveryRunReadsAPrefix(fs: Image, files: seq<Entry>, ops: seq<Op>, fd: nat, inode: u32)
    requires WellFormed(fs) && inode < |fs.inodes|
    requires |files| == NUM_MAX_OPEN_FILES && 2 <= fd < 8 && files[fd] == Entry(FileOps, inode, 0, FILE_OCCUP)
    requires forall i :: 0 <= i < |ops| ==> ops[i] != Close(fd)
    ensures var content, position := Content(fs, inode), Run(fs, files, ops)[fd].position;
            && position == Min(Sum(SizesOf(ops, fd)), |content|)
            && Received(fs, files, ops, fd) == content[..position]
    decreases |ops|
  {
    PositionInEveryRun(fs, files, ops, fd, inode);
    if ops != [] {
      var before, op := ops[..|ops| - 1], ops[|ops| - 1];
      EveryRunReadsAPrefix(fs, files, before, fd, inode);
      PositionInEveryRun(fs, files, before, fd, inode);
      SizesStep(ops, fd);
      if op.Read? && op.fd == fd {
        ReadExtends(fs, inode, Run(fs, files, before)[fd].position, op.length);
      }
    }
  }

  /** Opening a file by its name and then reading it, with any other calls in between, delivers that file. */
  lemma OpenThenRead(fs: Image, files: seq<Entry>, name: seq<byte>, k: nat, ops: seq<Op>)
    requires WellFormed(fs) && Table(files) && Opened(fs, files, name).1 != -1
    requires IsFirstMatch(fs, name, k) && fs.direntries[k].filetype == 2 && fs.direntries[k].inodeNum < |fs.inodes|
    requires Close(Opened(fs, files, name).1) !in ops
    ensures var (after, fd) := Opened(fs, files, name);
            var content := Content(fs, fs.direntries[k].inodeNum);
            2 <= fd < 8 && Received(fs, after, ops, fd) == content[..Min(Sum(SizesOf(ops, fd)), |content|)]
  {
    OpenInstalls(fs, files, name, k);
    var (after, fd) := Opened(fs, files, name);
    EveryRunReadsAPrefix(fs, after, ops, fd, fs.direntries[k].inodeNum);
  }

  // ---------- reading a directory name by name ----------

  /** The name that a read of an open directory returns, if there are names left. */
  function NextName(fs: Image, e: Entry): Option<seq<byte>>
    requires |fs.direntries| == NUM_FILES
  {
    if 0 <= e.position < NUM_FILES then Some(CStr(fs.direntries[e.position].filename, 0)) else None
  }

  /** The names that the reads of directory descriptor `fd` have returned in a run. */
  ghost function NamesRead(fs: Image, files: seq<Entry>, ops: seq<Op>, fd: int): seq<seq<byte>>
    requires |fs.direntries| == NUM_FILES
    requires |files| == NUM_MAX_OPEN_FILES && 0 <= fd < NUM_MAX_OPEN_FILES
  {
    if ops == [] then []
    else
      var init, op := ops[..|ops| - 1], ops[|ops| - 1];
      var name := NextName(fs, Run(fs, files, init)[fd]);
      NamesRead(fs, files, init, fd) + if op.Read? && op.fd == fd && name.Some? then [name.value] else []
  }

  function AllNames(fs: Image): (names: seq<seq<byte>>)
    ensures |names| == |fs.direntries|
    ensures forall i :: 0 <= i < |names| ==> names[i] == CStr(fs.direntries[i].filename, 0)
  {
    seq(|fs.direntries|, i requires 0 <= i < |fs.direntries| => CStr(fs.direntries[i].filename, 0))
  }

  lemma DirectoryStep(fs: Image, files: seq<Entry>, op: Op, fd: nat)
    requires |files| == NUM_MAX_OPEN_FILES && fd < 8
    requires files[fd].ops == DirectoryOps && files[fd].flags == FILE_OCCUP && op != Close(fd)
    requires 0 <= files[fd].position <= NUM_FILES
    ensures Step(fs, files, op)[fd] ==
            if op.Read? && op.fd == fd then files[fd].(position := Min(files[fd].position + 1, NUM_FILES))
            else files[fd]
  {
  }

  /** In every run that does not close it, the reads of a directory return the 63 names in order, none skipped and
      none twice, and nothing after the last one. */
  lemma {:induction false} EveryRunListsNames(fs: Image, files: seq<Entry>, ops: seq<Op>, fd: nat, inode: u32)
    requires Sane(fs)
    requires |files| == NUM_MAX_OPEN_FILES && fd < 8 && files[fd] == Entry(DirectoryOps, inode, 0, FILE_OCCUP)
    requires forall i :: 0 <= i < |ops| ==> ops[i] != Close(fd)
    ensures var n := Min(|SizesOf(ops, fd)|, 63);
            && Run(fs, files, ops)[fd] == Entry(DirectoryOps, inode, n, FILE_OCCUP)
            && NamesRead(fs, files, ops, fd) == AllNames(fs)[..n]
    decreases |ops|
  {
    if ops != [] {
      var before, op := ops[..|ops| - 1], ops[|ops| - 1];
      EveryRunListsNames(fs, files, before, fd, inode);
      DirectoryStep(fs, Run(fs, files, before), op, fd);
      CountStep(ops, fd);
      NamesStep(fs, Min(|SizesOf(before, fd)|, 63));
    }
  }

  lemma CountStep(ops: seq<Op>, fd: int)
    requires ops != []
    ensures var op := ops[|ops| - 1];
            |SizesOf(ops, fd)| == |SizesOf(ops[..|ops| - 1], fd)| + if op.Read? && op.fd == fd then 1 else 0
  {
  }

  lemma NamesStep(fs: Image, n: nat)
    requires Sane(fs) && n <= 63
    ensures n < 63 ==> AllNames(fs)[..n] + [AllNames(fs)[n]] == AllNames(fs)[..n + 1]
    ensures AllNames(fs)[..n] + [] == AllNames(fs)[..n]
  {
  }

  // ---------- the system calls ----------

  /** Where a read ends up: a byte count or -1, or a driver that this model leaves out. */
  datatype Outcome = Count(n: int) | OtherDriver

  class FileArray {
    const fs: Image
    const files: array<Entry>

    ghost predicate Valid()
      reads this, files
    {
      Sane(fs) && files.Length == NUM_MAX_OPEN_FILES
    }

    constructor (fs: Image)
      requires Sane(fs)
      ensures Valid() && this.fs == fs && fresh(files)
      ensures Table(files[..]) && forall k :: 2 <= k < 8 ==> files[k] == BLANK_ENTRY
    {
      this.fs := fs;
      files := new Entry[NUM_MAX_OPEN_FILES](_ => BLANK_ENTRY);
      new;
      var i := 0;
      while i < NUM_MAX_OPEN_FILES
        invariant i <= NUM_MAX_OPEN_FILES && forall k :: 0 <= k < i ==> files[k] == BLANK_ENTRY
      {
        files[i] := BLANK_ENTRY;
        i := i + 1;
      }
      files[0] := STANDARD;
      files[1] := STANDARD;
    }

    method FileOpen(name: seq<byte>) returns (fd: int)
      requires Valid() && NUL !in name
      modifies files
      ensures (files[..], fd) == Opened(fs, old(files[..]), name)
    {
      if |name| >= FILENAME_LEN {
        return -1;
      }
      var dentry := ReadDentryByName(fs, name);
      if dentry == None {
        return -1;
      }
      var idx := 2;
      while idx < NUM_MAX_OPEN_FILES && files[idx].flags != FILE_AVAIL
        invariant 2 <= idx <= NUM_MAX_OPEN_FILES
        invariant LowestFree(files[..], 2) == LowestFree(files[..], idx)
      {
        idx := idx + 1;
      }
      if idx >= NUM_MAX_OPEN_FILES {
        return -1;
      }
      if dentry.value.filetype == FILE_TYPE_FILE {
        files[idx] := files[idx].(ops := FileOps, inodeNum := dentry.value.inodeNum);
      } else if dentry.value.filetype == FILE_TYPE_DIR {
        files[idx] := files[idx].(ops := DirectoryOps, inodeNum := dentry.value.inodeNum);
      } else if dentry.value.filetype == FILE_TYPE_RTC {
        files[idx] := files[idx].(ops := RtcOps, inodeNum := dentry.value.inodeNum);
        assert files[..] == old(files[..])[idx := NewEntry(old(files[idx]), dentry.value)];
        return idx;
      } else {
        return -1;
      }
      files[idx] := files[idx].(position := 0, flags := FILE_OCCUP);
      assert files[..] == old(files[..])[idx := NewEntry(old(files[idx]), dentry.value)];
      return idx;
    }

    /** Opening a directory looks its name up once more. */
    method DirectoryOpen(name: seq<byte>) returns (fd: int)
      requires Valid() && NUL !in name
      modifies files
      ensures (files[..], fd) == if Lookup(fs, name).Some? && Lookup(fs, name).value.filetype == FILE_TYPE_DIR
                                 then Opened(fs, old(files[..]), name) else (old(files[..]), -1)
    {
      var dentry := ReadDentryByName(fs, name);
      if dentry == None {
        return -1;
      }
      if dentry.value.filetype != FILE_TYPE_DIR {
        return -1;
      }
      fd := FileOpen(name);
    }

    /** The system call: directories are looked up once more, and the clock is opened twice. */
    method Open(name: seq<byte>) returns (fd: int)
      requires Valid() && NUL !in name
      modifies files
      ensures (files[..], fd) == Opened(fs, old(files[..]), name)
    {
      var dentry := ReadDentryByName(fs, name);
      if dentry == None {
        return -1;
      }
      if dentry.value.filetype == FILE_TYPE_DIR {
        fd := DirectoryOpen(name);
      } else if dentry.value.filetype == FILE_TYPE_FILE {
        fd := FileOpen(name);
      } else if dentry.value.filetype == FILE_TYPE_RTC {
        fd := FileOpen(name);
        if fd != -1 {
          ReopenedClock(fs, old(files[..]), name);
          fd := FileOpen(name);
        }
      } else {
        fd := -1;
      }
    }

    method Close(fd: int) returns (rc: int)
      requires Valid()
      modifies files
      ensures (files[..], rc) == Closed(old(files[..]), fd)
    {
      if 7 < fd || fd < 2 {
        return -1;
      }
      if files[fd].flags == FILE_AVAIL {
        return -1;
      }
      files[fd] := BLANK_ENTRY;
      return 0;
    }

    /** The caller's buffer has room for what a read of the descriptor may store. */
    ghost predicate HasRoom(fd: int, size: nat, at: nat, length: u32)
      requires files.Length == NUM_MAX_OPEN_FILES
      reads files
    {
      0 <= fd < 8 && files[fd].flags != FILE_AVAIL ==>
        && (2 <= fd && files[fd].ops == FileOps ==>
              at + ReadCount(fs, files[fd].inodeNum, files[fd].position % 0x1_0000_0000, length) <= size)
        && (files[fd].ops == DirectoryOps ==> at + FILENAME_LEN < size)
    }

    /** The system call on a file or directory: what it returns, what it stores, where the position goes. */
    method Read(fd: int, buf: array<byte>, at: nat, length: u32) returns (r: Outcome)
      requires Valid() && HasRoom(fd, buf.Length, at, length)
      modifies files, buf
      ensures r == Outcome.OtherDriver || files[..] == AfterRead(fs, old(files[..]), fd, length)
      ensures r == OtherDriver ==> files[..] == old(files[..]) && buf[..] == old(buf[..])
      ensures var before := old(files[..]);
              if fd < 0 || 7 < fd || before[fd].flags == FILE_AVAIL then r == Count(-1) && buf[..] == old(buf[..])
              else if before[fd].ops == FileOps && fd < 2 then r == Count(-1) && buf[..] == old(buf[..])
              else if before[fd].ops == FileOps then
                && r == Count(FileReadResult(fs, before[fd], length))
                && (r.n >= 0 ==>
                      |ReadBytes(fs, before[fd], length)| == r.n &&
                      buf[..] == Put(old(buf[..]), at, ReadBytes(fs, before[fd], length)))
              else if before[fd].ops == DirectoryOps then
                if NextName(fs, before[fd]).Some? then
                  var name := NextName(fs, before[fd]).value;
                  r == Count(|name|) && buf[..] == Put(old(buf[..]), at, name + [NUL])
                else r == Count(-1) && buf[..] == old(buf[..])
              else r == OtherDriver
    {
      if 7 < fd || fd < 0 || files[fd].flags == FILE_AVAIL {
        return Count(-1);
      }
      match files[fd].ops {
        case FileOps =>
          if fd == 1 || fd == 0 {
            return Count(-1);
          }
          var read := ReadData(fs, files[fd].inodeNum, files[fd].position % 0x1_0000_0000, buf, at, length);
          files[fd] := files[fd].(position := files[fd].position + read);
          return Count(read);
        case DirectoryOps =>
          if !(0 <= files[fd].position < NUM_FILES) {
            return Count(-1);
          }
          var field := fs.direntries[files[fd].position].filename;
          files[fd] := files[fd].(position := files[fd].position + 1);
          var n := CopyField(field, buf, at);
          return Count(n);
        case _ =>
          return OtherDriver;
      }
    }
  }

  /** Opening the clock a second time finds the same free descriptor. */
  lemma ReopenedClock(fs: Image, files: seq<Entry>, name: seq<byte>)
    requires |files| == NUM_MAX_OPEN_FILES && Opened(fs, files, name).1 != -1
    requires Lookup(fs, name).Some? && Lookup(fs, name).value.filetype == FILE_TYPE_RTC
    ensures Opened(fs, Opened(fs, files, name).0, name) == Opened(fs, files, name)
  {
    var (after, fd) := Opened(fs, files, name);
    assert forall k :: 2 <= k < fd ==> after[k] == files[k];
    LowestFreeUnchanged(files, after, 2, fd);
    assert after[fd := NewEntry(after[fd], Lookup(fs, name).value)] == after;
  }

  /** Copies a name out of its directory field and terminates it. */
  method CopyField(field: seq<byte>, buf: array<byte>, at: nat) returns (i: nat)
    requires |field| == FILENAME_LEN && at + FILENAME_LEN < buf.Length
    modifies buf
    ensures i == |CStr(field, 0)| && buf[..] == Put(old(buf[..]), at, CStr(field, 0) + [NUL])
  {
    ghost var name := CStr(field, 0);
    i := 0;
    while i < FILENAME_LEN && field[i] != NUL
      invariant i <= |name|
      invariant forall a :: 0 <= a < buf.Length ==> buf[a] == if at <= a < at + i then name[a - at] else old(buf[a])
    {
      buf[at + i] := field[i];
      i := i + 1;
    }
    buf[at + i] := NUL;
  }
}
