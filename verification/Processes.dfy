/** Processes: execute starts a child in the next free slot, halt returns to the parent. */
module Processes {
  import opened Bytes
  import CStrings
  import StringTokens
  import Arguments
  import opened FileSystem
  import opened Descriptors

  const NUM_MAX_PROCESSES := 6
  const TABLE_FULL := 256
  const C_4MB := 0x40_0000
  const C_8MB := 0x80_0000
  const PROCESS_OFFSET := 0x2000
  const USER_FLAGS := 0x87
  /** From where a program is loaded to the end of its page. */
  const PROGRAM_ROOM := 0x840_0000 - 0x804_8000
  const MAGIC: seq<byte> := [0x7F, 0x45, 0x4C, 0x46]

  // ---------- addresses ----------

  /** The entry of the page directory that maps a process's program. */
  function MappingOf(pid: nat): nat {
    C_8MB + pid * C_4MB + USER_FLAGS
  }

  /** The top of a process's kernel stack. */
  function KernelStack(pid: nat): int {
    C_8MB - (pid + 1) * PROCESS_OFFSET - 4
  }

  function PcbAddress(pid: nat): int {
    C_8MB - (pid + 2) * PROCESS_OFFSET
  }

  /** Clearing the low 13 bits of any stack address of a process gives the address where execute and halt keep its
      control block, and no other process has stack or block there. */
  lemma StackFindsPcb(pid: nat, other: nat, esp: int)
    requires pid < NUM_MAX_PROCESSES && other < NUM_MAX_PROCESSES
    requires PcbAddress(pid) <= esp <= KernelStack(pid) + 3
    ensures esp - esp % PROCESS_OFFSET == PcbAddress(pid)
    ensures PcbAddress(other) <= esp <= KernelStack(other) + 3 <==> other == pid
  {
  }

  /** The 4 MB pages that different processes are given do not overlap, nor do they reach into the kernel's own,
      which ends at 8 MB. */
  lemma PagesDisjoint(pid: nat, other: nat, a: int)
    requires pid < NUM_MAX_PROCESSES && other < NUM_MAX_PROCESSES
    requires MappingOf(pid) - 0x87 <= a < MappingOf(pid) - 0x87 + 0x40_0000
    ensures a >= 0x80_0000 && MappingOf(pid) % 0x40_0000 == 0x87
    ensures MappingOf(other) - 0x87 <= a < MappingOf(other) - 0x87 + 0x40_0000 <==> other == pid
  {
  }

  // ---------- the state ----------

  /** A control block: the parent, where the parent's execute call is to be resumed, the argument string. */
  datatype Pcb = Pcb(parentNum: nat, resume: nat, args: seq<byte>, argCount: byte, files: seq<Entry>)

  /** `pages` holds the program in each process's page, if one was loaded completely. */
  datatype State = State(active: seq<bool>, current: nat, mapping: nat, esp0: int, pcbs: seq<Pcb>,
                         pages: seq<Option<seq<byte>>>)

  ghost predicate Shaped(s: State) {
    && |s.active| == NUM_MAX_PROCESSES && |s.pcbs| == NUM_MAX_PROCESSES && |s.pages| == NUM_MAX_PROCESSES
    && s.current < NUM_MAX_PROCESSES
    && forall p :: 0 <= p < NUM_MAX_PROCESSES ==> |s.pcbs[p].files| == NUM_MAX_OPEN_FILES
  }

  /** No process is running. */
  ghost predicate Idle(s: State) {
    Shaped(s) && s.current == 0 && forall p :: 0 <= p < NUM_MAX_PROCESSES ==> !s.active[p]
  }

  /** Processes 0 to `current` form one chain of parents and children, and the machine is set up for the last.
      Standard input and output of all of them are open. */
  ghost predicate Running(s: State) {
    && Shaped(s)
    && (forall p :: 0 <= p < NUM_MAX_PROCESSES ==> (s.active[p] <==> p <= s.current))
    && s.pcbs[0].parentNum == 0
    && (forall p :: 1 <= p <= s.current ==> s.pcbs[p].parentNum == p - 1)
    && s.mapping == MappingOf(s.current)
    && s.esp0 == KernelStack(s.current)
    && (forall p :: 0 <= p <= s.current ==> Table(s.pcbs[p].files))
  }

  // ---------- execute ----------

  /** What execute comes to: a result for its caller, a new process, or a page fault, which stops the machine. */
  datatype Result = Returned(code: int) | Started(pid: nat) | Faulted

  /** A file that starts with the four bytes of an executable. */
  ghost predicate IsProgram(fs: Image, inode: nat) {
    ReadResult(fs, inode, 0, 4) == 4 && inode < |fs.inodes| && FileBytes(fs, inode, 0, 4) == MAGIC
  }

  /** The program file that a command names, if it is an executable. */
  ghost function Executable(fs: Image, command: seq<byte>): (file: Option<u32>)
    ensures file.Some? ==> IsProgram(fs, file.value)
  {
    var name := Arguments.NameOf(command);
    if name == None then None
    else
      var dentry := Lookup(fs, name.value);
      if dentry == None || dentry.value.filetype != FILE_TYPE_FILE then None
      else
        if IsProgram(fs, dentry.value.inodeNum) then Some(dentry.value.inodeNum) else None
  }

  /** How much of a file the load reads: all of it, or up to the first byte that falls behind the page. */
  ghost function Attempted(fs: Image, inode: nat): (n: int)
    requires inode < |fs.inodes|
  {
    if fs.inodes[inode].length > PROGRAM_ROOM then PROGRAM_ROOM + 1 else fs.inodes[inode].length
  }

  /** All executables of the image fit the page that they are loaded into. */
  ghost predicate ProgramsFit(fs: Image) {
    forall inode :: 0 <= inode < |fs.inodes| && IsProgram(fs, inode) ==> fs.inodes[inode].length <= PROGRAM_ROOM
  }

  function FirstInactive(active: seq<bool>): (p: nat)
    ensures p <= |active|
    ensures p < |active| ==> !active[p]
    ensures forall q :: 0 <= q < p ==> active[q]
  {
    if active == [] || !active[0] then 0 else 1 + FirstInactive(active[1..])
  }

  const FIRST_FILES: seq<Entry> := [STANDARD, STANDARD, BLANK_ENTRY, BLANK_ENTRY, BLANK_ENTRY,
                                    BLANK_ENTRY, BLANK_ENTRY, BLANK_ENTRY]

  /** The state after execute and what it returned, or the process that now runs. `resume` stands for the stack
      pointers and address at which the caller's execute is to continue. */
  ghost function AfterExecute(fs: Image, s: State, command: seq<byte>, resume: nat): (State, Result)
    requires Shaped(s)
  {
    var file := Executable(fs, command);
    var p := FirstInactive(s.active);
    if file == None then (s, Returned(-1))
    else if p == NUM_MAX_PROCESSES then (s, Returned(TABLE_FULL))
    else
      var inode := file.value;
      var size := Attempted(fs, inode);
      if size < 0 || ReadResult(fs, inode, 0, size) != size then
        // the slot stays marked, only the mapping is put back
        (s.(active := s.active[p := true], mapping := MappingOf(s.current), pages := s.pages[p := None]), Returned(-1))
      else if size > PROGRAM_ROOM then
        (s.(active := s.active[p := true], mapping := MappingOf(p), pages := s.pages[p := None]), Faulted)
      else
        var args := Arguments.ArgString(command);
        (State(s.active[p := true], p, MappingOf(p), KernelStack(p),
               s.pcbs[p := Pcb(s.current, resume, args, |args| % 0x100, FIRST_FILES)],
               s.pages[p := Some(FileBytes(fs, inode, 0, size))]), Started(p))
  }

  /** Halt: the new state, where the parent resumes, and the status it sees. */
  function AfterHalt(s: State, status: byte): (State, nat, int)
    requires s.current < |s.pcbs| && s.current < |s.active|
  {
    var parent := s.pcbs[s.current].parentNum;
    (s.(mapping := MappingOf(parent), esp0 := KernelStack(parent), active := s.active[s.current := false],
        current := parent), s.pcbs[s.current].resume, status)
  }

  // ---------- what single steps keep ----------

  lemma FirstInactiveIs(active: seq<bool>, p: nat)
    requires p <= |active| && (p < |active| ==> !active[p]) && forall q :: 0 <= q < p ==> active[q]
    ensures FirstInactive(active) == p
  {
  }

  /** On a well-formed image no block is missing when a program that passes the checks is loaded. */
  lemma LoadSucceeds(fs: Image, command: seq<byte>)
    requires WellFormed(fs) && Executable(fs, command).Some?
    ensures var inode := Executable(fs, command).value;
            && Attempted(fs, inode) >= 4 && ReadResult(fs, inode, 0, Attempted(fs, inode)) == Attempted(fs, inode)
            && (ProgramsFit(fs) ==> Attempted(fs, inode) == fs.inodes[inode].length)
  {
  }

  /** On a well-formed image execute faults exactly if the program passes the checks, a slot is free, and the file is
      longer than the room behind the load address. */
  lemma FaultsIff(fs: Image, s: State, command: seq<byte>, resume: nat)
    requires WellFormed(fs) && Shaped(s)
    ensures AfterExecute(fs, s, command, resume).1 == Faulted <==>
            && Executable(fs, command).Some?
            && (exists p :: 0 <= p < 6 && !s.active[p])
            && fs.inodes[Executable(fs, command).value].length > 0x3B_8000
  {
    if Executable(fs, command).Some? {
      LoadSucceeds(fs, command);
    }
  }

  /** On a well-formed image an execute that returns to its caller without having started a process changes nothing
      at all. */
  lemma FailureChangesNothing(fs: Image, s: State, command: seq<byte>, resume: nat)
    requires WellFormed(fs) && Shaped(s) && AfterExecute(fs, s, command, resume).1.Returned?
    ensures AfterExecute(fs, s, command, resume).0 == s
  {
    if Executable(fs, command).Some? {
      LoadSucceeds(fs, command);
    }
  }

  /** On an image with missing blocks, a failing execute loses a process slot exactly if the checks of the program
      pass, a slot is free, and a block of what is read of the program does not exist. */
  lemma SlotLostIff(fs: Image, s: State, command: seq<byte>, resume: nat)
    requires Sane(fs) && Shaped(s)
    ensures var (s', r) := AfterExecute(fs, s, command, resume);
            r.Returned? && s'.active != s.active <==>
            && Executable(fs, command).Some?
            && FirstInactive(s.active) < NUM_MAX_PROCESSES
            && BlockMissing(fs, Executable(fs, command).value, 0, Attempted(fs, Executable(fs, command).value))
  {
  }

  /** A slot that is lost is the lowest free one; apart from it and its page, and from the mapping, which is set to the
      caller's own page, everything is as before. */
  lemma LostSlot(fs: Image, s: State, command: seq<byte>, resume: nat, p: nat)
    requires Sane(fs) && Shaped(s) && AfterExecute(fs, s, command, resume).1.Returned?
    requires p < 6 && !s.active[p] && AfterExecute(fs, s, command, resume).0.active[p]
    ensures var (s', r) := AfterExecute(fs, s, command, resume);
            && r == Returned(-1) && s'.mapping == 0x80_0000 + s.current * 0x40_0000 + 0x87
            && s'.current == s.current && s'.esp0 == s.esp0 && s'.pcbs == s.pcbs
            && (forall q :: 0 <= q < p ==> s.active[q])
            && (forall q :: 0 <= q < 6 && q != p ==> s'.active[q] == s.active[q] && s'.pages[q] == s.pages[q])
  {
  }

  /** From a running process, execute starts the next one in the chain; with all six running it fails. */
  lemma ExecuteKeepsChain(fs: Image, s: State, command: seq<byte>, resume: nat)
    requires WellFormed(fs) && ProgramsFit(fs) && Running(s)
    ensures var (s', r) := AfterExecute(fs, s, command, resume);
            && Running(s') && r != Faulted
            && (r.Started? ==> r.pid == s.current + 1 == s'.current < 6)
            && (Executable(fs, command).Some? && s.current == 5 ==> r == Returned(256))
            && (Executable(fs, command).Some? && s.current < 5 ==> r.Started?)
            && (Executable(fs, command) == None ==> r == Returned(-1))
  {
    FirstInactiveIs(s.active, s.current + 1);
    if Executable(fs, command).Some? {
      LoadSucceeds(fs, command);
    }
  }

  /** What counts as an executable: the command's first word has fewer than 31 characters and is the name of a
      regular file whose first four bytes are 0x7F and the letters ELF. */
  lemma ExecutableIff(fs: Image, command: seq<byte>, k: nat)
    requires WellFormed(fs) && Arguments.Words(command) != []
    requires IsFirstMatch(fs, Arguments.Words(command)[0], k) && fs.direntries[k].inodeNum < |fs.inodes|
    ensures var content := Content(fs, fs.direntries[k].inodeNum);
            Executable(fs, command) ==
            if && |Arguments.Words(command)[0]| < 31 && fs.direntries[k].filetype == 2
               && |content| >= 4 && content[..4] == [0x7F, 'E' as int, 'L' as int, 'F' as int]
            then Some(fs.direntries[k].inodeNum) else None
  {
    var inode := fs.direntries[k].inodeNum;
    Arguments.WordsAreWords(command);
    LookupIsFirst(fs, Arguments.Words(command)[0], k);
    SliceRead(fs, inode, 0, 4);
  }

  /** What a child receives: its arguments, the words behind its name, which getargs hands out; six free descriptors;
      the whole program in its page; and its parent's number. */
  lemma ChildReceives(fs: Image, s: State, command: seq<byte>, resume: nat)
    requires WellFormed(fs) && ProgramsFit(fs) && Shaped(s) && |command| <= 129
    requires AfterExecute(fs, s, command, resume).1.Started?
    ensures var (s', r) := AfterExecute(fs, s, command, resume);
            && r.pid < 6 && s'.current == r.pid && s'.active[r.pid]
            && Arguments.Words(s'.pcbs[r.pid].args) == Arguments.Words(command)[1..]
            && s'.pcbs[r.pid].argCount as int == |s'.pcbs[r.pid].args| < 128
            && s'.pcbs[r.pid].parentNum == s.current && s'.pcbs[r.pid].resume == resume
            && (forall fd :: 2 <= fd < 8 ==> s'.pcbs[r.pid].files[fd].flags == FILE_AVAIL)
            && Executable(fs, command).Some?
            && s'.pages[r.pid] == Some(Content(fs, Executable(fs, command).value))
  {
    ChildBlock(fs, s, command, resume);
    Arguments.ArgStringRoundTrip(command);
    Arguments.ArgStringFits(command);
    WholeFile(fs, Executable(fs, command).value);
    assert Arguments.Words(command) != [];
  }

  lemma ChildBlock(fs: Image, s: State, command: seq<byte>, resume: nat)
    requires WellFormed(fs) && ProgramsFit(fs) && Shaped(s)
    requires AfterExecute(fs, s, command, resume).1.Started?
    ensures Executable(fs, command).Some?
    ensures var (s', r) := AfterExecute(fs, s, command, resume);
            var inode, args := Executable(fs, command).value, Arguments.ArgString(command);
            && r.pid < 6 && s'.current == r.pid && s'.active[r.pid]
            && s'.pcbs[r.pid] == Pcb(s.current, resume, args, |args| % 0x100, FIRST_FILES)
            && s'.pages[r.pid] == Some(FileBytes(fs, inode, 0, fs.inodes[inode].length))
  {
  }

  lemma WholeFile(fs: Image, inode: nat)
    requires WellFormed(fs) && inode < |fs.inodes|
    ensures FileBytes(fs, inode, 0, fs.inodes[inode].length) == Content(fs, inode)
  {
    SliceRead(fs, inode, 0, fs.inodes[inode].length);
    assert Content(fs, inode)[0..fs.inodes[inode].length] == Content(fs, inode);
  }

  lemma ExecuteFromIdle(fs: Image, s: State, command: seq<byte>, resume: nat)
    requires WellFormed(fs) && ProgramsFit(fs) && Idle(s)
    ensures var (s', r) := AfterExecute(fs, s, command, resume);
            if Executable(fs, command).Some? then r == Started(0) && Running(s') && s'.current == 0
            else r == Returned(-1) && s' == s
  {
    FirstInactiveIs(s.active, 0);
    if Executable(fs, command).Some? {
      LoadSucceeds(fs, command);
    }
  }

  lemma HaltKeepsChain(s: State, status: byte)
    requires Running(s)
    ensures var s' := AfterHalt(s, status).0;
            if s.current > 0 then Running(s') && s'.current == s.current - 1 else Idle(s')
  {
  }

  // ---------- file calls of the current process ----------

  /** An open, read or close by the current process, which acts on the table in its control block. */
  ghost function AfterCall(fs: Image, s: State, call: Descriptors.Op): (r: State)
    requires Shaped(s)
    ensures Shaped(r)
  {
    var pcb := s.pcbs[s.current];
    s.(pcbs := s.pcbs[s.current := pcb.(files := Descriptors.Step(fs, pcb.files, call))])
  }

  lemma CallKeepsChain(fs: Image, s: State, call: Descriptors.Op)
    requires Running(s)
    ensures Running(AfterCall(fs, s, call)) && AfterCall(fs, s, call).current == s.current
  {
    StepKeepsTable(fs, s.pcbs[s.current].files, call);
  }

  // ---------- runs ----------

  datatype Op = Exec(command: seq<byte>, resume: nat) | Exit(status: byte) | Files(call: Descriptors.Op)

  /** A process must be running to exit or to use files. */
  ghost function Step(fs: Image, s: State, op: Op): (r: State)
    requires Shaped(s)
    ensures Shaped(r)
  {
    match op
    case Exec(command, resume) => AfterExecute(fs, s, command, resume).0
    case Exit(status) => if Running(s) then AfterHalt(s, status).0 else s
    case Files(call) => if Running(s) then AfterCall(fs, s, call) else s
  }

  ghost function Run(fs: Image, s: State, ops: seq<Op>): (r: State)
    requires Shaped(s)
    ensures Shaped(r)
    decreases |ops|
  {
    if ops == [] then s else Step(fs, Run(fs, s, ops[..|ops| - 1]), ops[|ops| - 1])
  }

  lemma StepKeeps(fs: Image, s: State, op: Op)
    requires WellFormed(fs) && ProgramsFit(fs) && (Idle(s) || Running(s))
    ensures Idle(Step(fs, s, op)) || Running(Step(fs, s, op))
  {
    match op {
      case Exec(command, resume) =>
        if Idle(s) {
          ExecuteFromIdle(fs, s, command, resume);
        } else {
          ExecuteKeepsChain(fs, s, command, resume);
        }
      case Exit(status) =>
        if Running(s) {
          HaltKeepsChain(s, status);
        }
      case Files(call) =>
        if Running(s) {
          CallKeepsChain(fs, s, call);
        }
    }
  }

  /** From boot on, every state is idle, or the active processes are exactly 0 to `current`, each the child of the
      one before, and the machine is set up for the last of them. */
  lemma {:induction false} EveryReachableState(fs: Image, boot: State, ops: seq<Op>)
    requires WellFormed(fs) && ProgramsFit(fs) && Idle(boot)
    ensures Idle(Run(fs, boot, ops)) || Running(Run(fs, boot, ops))
    decreases |ops|
  {
    if ops != [] {
      EveryReachableState(fs, boot, ops[..|ops| - 1]);
      StepKeeps(fs, Run(fs, boot, ops[..|ops| - 1]), ops[|ops| - 1]);
    }
  }

  // ---------- balanced runs ----------

  /** What a process does with the kernel: it uses files and runs children, one after the other, each of which is
      such a script itself and then exits. */
  datatype Script =
    | Done
    | Use(call: Descriptors.Op, rest: Script)
    | Child(command: seq<byte>, resume: nat, body: Script, status: byte, rest: Script)

  ghost function Perform(fs: Image, s: State, script: Script): (r: State)
    requires WellFormed(fs) && ProgramsFit(fs) && Running(s)
    ensures Running(r) && r.current == s.current
    decreases script
  {
    match script
    case Done => s
    case Use(call, rest) =>
      CallKeepsChain(fs, s, call);
      Perform(fs, AfterCall(fs, s, call), rest)
    case Child(command, resume, body, status, rest) =>
      var (started, result) := AfterExecute(fs, s, command, resume);
      ExecuteKeepsChain(fs, s, command, resume);
      if result.Started? then
        var finished := Perform(fs, started, body);
        HaltKeepsChain(finished, status);
        Perform(fs, AfterHalt(finished, status).0, rest)
      else
        FailureChangesNothing(fs, s, command, resume);
        Perform(fs, s, rest)
  }

  /** The file calls that a process makes itself. */
  function OwnCalls(script: Script): seq<Descriptors.Op> {
    match script
    case Done => []
    case Use(call, rest) => [call] + OwnCalls(rest)
    case Child(_, _, _, _, rest) => OwnCalls(rest)
  }

  /** The process table, the mapping, the stack pointer and everything that belongs to the process itself and its
      ancestors are as they were, except that the process has the descriptor table `files`. */
  ghost predicate Unaffected(s: State, r: State, files: seq<Entry>)
    requires Running(s) && Running(r)
  {
    && r.active == s.active && r.current == s.current && r.mapping == s.mapping && r.esp0 == s.esp0
    && (forall p :: 0 <= p < s.current ==> r.pcbs[p] == s.pcbs[p])
    && (forall p :: 0 <= p <= s.current ==> r.pages[p] == s.pages[p])
    && r.pcbs[s.current] == s.pcbs[s.current].(files := files)
  }

  ghost function FilesOf(s: State): (files: seq<Entry>)
    requires Running(s)
    ensures |files| == NUM_MAX_OPEN_FILES
  {
    s.pcbs[s.current].files
  }

  /** A child's start, a run that affects at most the child's files, and its exit leave the parent unaffected. */
  lemma StartRunExit(fs: Image, s: State, command: seq<byte>, resume: nat, finished: State, status: byte)
    requires WellFormed(fs) && ProgramsFit(fs) && Running(s) && AfterExecute(fs, s, command, resume).1.Started?
    requires Running(AfterExecute(fs, s, command, resume).0) && Running(finished)
    requires Unaffected(AfterExecute(fs, s, command, resume).0, finished, FilesOf(finished))
    ensures Running(AfterHalt(finished, status).0) && Unaffected(s, AfterHalt(finished, status).0, FilesOf(s))
    ensures AfterHalt(finished, status).1 == resume
  {
  }

  lemma UnaffectedTrans(s: State, m: State, r: State, files: seq<Entry>)
    requires Running(s) && Running(m) && Running(r)
    requires Unaffected(s, m, FilesOf(m)) && Unaffected(m, r, files)
    ensures Unaffected(s, r, files)
  {
  }

  /** Any balanced run of children and file calls restores the caller exactly, except for its own descriptor table,
      which is what its own calls alone make of it, whatever its children open, read or close. */
  lemma {:induction false} BalancedRunRestores(fs: Image, s: State, script: Script)
    requires WellFormed(fs) && ProgramsFit(fs) && Running(s)
    ensures Unaffected(s, Perform(fs, s, script), Descriptors.Run(fs, FilesOf(s), OwnCalls(script)))
    decreases script
  {
    match script {
      case Done =>
      case Use(call, rest) =>
        CallKeepsChain(fs, s, call);
        var next := AfterCall(fs, s, call);
        BalancedRunRestores(fs, next, rest);
        RunFront(fs, FilesOf(s), call, OwnCalls(rest));
        UnaffectedTrans(s, next, Perform(fs, next, rest), Descriptors.Run(fs, FilesOf(next), OwnCalls(rest)));
      case Child(command, resume, body, status, rest) =>
        ExecuteKeepsChain(fs, s, command, resume);
        if AfterExecute(fs, s, command, resume).1.Started? {
          var finished := Perform(fs, AfterExecute(fs, s, command, resume).0, body);
          BalancedRunRestores(fs, AfterExecute(fs, s, command, resume).0, body);
          StartRunExit(fs, s, command, resume, finished, status);
          var next := AfterHalt(finished, status).0;
          BalancedRunRestores(fs, next, rest);
          UnaffectedTrans(s, next, Perform(fs, next, rest), Descriptors.Run(fs, FilesOf(next), OwnCalls(rest)));
        } else {
          FailureChangesNothing(fs, s, command, resume);
          BalancedRunRestores(fs, s, rest);
        }
    }
  }

  /** When a child exits, after whatever it did itself, the parent continues in the execute call that started the
      child, with the child's status, and unaffected. */
  lemma ChildReturnsToItsExecute(fs: Image, s: State, command: seq<byte>, resume: nat, body: Script, status: byte)
    requires WellFormed(fs) && ProgramsFit(fs) && Running(s) && AfterExecute(fs, s, command, resume).1.Started?
    ensures Running(AfterExecute(fs, s, command, resume).0)
    ensures var finished := Perform(fs, AfterExecute(fs, s, command, resume).0, body);
            var (back, where, code) := AfterHalt(finished, status);
            && where == resume && code == status as int
            && Running(back) && Unaffected(s, back, FilesOf(s))
  {
    ExecuteKeepsChain(fs, s, command, resume);
    var started := AfterExecute(fs, s, command, resume).0;
    BalancedRunRestores(fs, started, body);
    StartRunExit(fs, s, command, resume, Perform(fs, started, body), status);
  }

  /** A file that a process reads piece by piece is where the process left it, whatever children it runs between
      the reads. */
  lemma PositionSurvivesChildren(fs: Image, s: State, script: Script, fd: nat, inode: u32)
    requires WellFormed(fs) && ProgramsFit(fs) && Running(s)
    requires inode < |fs.inodes| && 2 <= fd < 8 && FilesOf(s)[fd] == Entry(FileOps, inode, 0, FILE_OCCUP)
    requires Close(fd) !in OwnCalls(script)
    ensures var read := Sum(SizesOf(OwnCalls(script), fd));
            FilesOf(Perform(fs, s, script))[fd] ==
            Entry(FileOps, inode, Min(read, fs.inodes[inode].length), FILE_OCCUP)
  {
    BalancedRunRestores(fs, s, script);
    PositionInEveryRun(fs, FilesOf(s), OwnCalls(script), fd, inode);
  }

  // ---------- the system calls ----------

  lemma NameIsNulFree(text: seq<byte>)
    requires NUL !in text && Arguments.NameOf(text).Some?
    ensures NUL !in Arguments.NameOf(text).value
  {
  }

  lemma ChecksFail(fs: Image, s: State, command: seq<byte>, resume: nat)
    requires Shaped(s) && Executable(fs, command) == None
    ensures AfterExecute(fs, s, command, resume) == (s, Returned(-1))
  {
  }

  class Kernel {
    const fs: Image
    const pidArray: array<byte>
    const pcbs: array<Pcb>
    const pages: array<Option<seq<byte>>>
    var currProcess: nat
    var mapping: nat
    var esp0: int

    ghost predicate Valid()
      reads this, pidArray, pcbs, pages
    {
      && Sane(fs)
      && pidArray.Length == NUM_MAX_PROCESSES && pcbs.Length == NUM_MAX_PROCESSES && pages.Length == NUM_MAX_PROCESSES
      && currProcess < NUM_MAX_PROCESSES
      && forall p :: 0 <= p < NUM_MAX_PROCESSES ==> |pcbs[p].files| == NUM_MAX_OPEN_FILES
    }

    ghost function View(): State
      reads this, pidArray, pcbs, pages
    {
      State(seq(pidArray.Length, p requires 0 <= p < pidArray.Length reads pidArray => pidArray[p] != 0),
            currProcess, mapping, esp0, pcbs[..], pages[..])
    }

    method GetNextProcessNumber() returns (p: int)
      requires Valid()
      modifies pidArray
      ensures var next := FirstInactive(old(View()).active);
              if next == NUM_MAX_PROCESSES then p == -1 && View() == old(View())
              else p == next && View() == old(View()).(active := old(View()).active[next := true])
    {
      var i := 0;
      while i < NUM_MAX_PROCESSES
        invariant i <= NUM_MAX_PROCESSES && forall q :: 0 <= q < i ==> View().active[q]
        invariant View() == old(View())
      {
        if pidArray[i] == 0 {
          FirstInactiveIs(View().active, i);
          ghost var before := View();
          pidArray[i] := 1;
          assert View().active == before.active[i := true];
          return i;
        }
        i := i + 1;
      }
      FirstInactiveIs(View().active, NUM_MAX_PROCESSES);
      return -1;
    }

    /** Is there an executable with this name? Its inode, if so. */
    method FindProgram(name: seq<byte>, ghost text: seq<byte>) returns (file: Option<u32>)
      requires Sane(fs) && NUL !in text && Arguments.NameOf(text) == Some(name)
      ensures file == Executable(fs, text)
    {
      NameIsNulFree(text);
      var dentry := ReadDentryByName(fs, name);
      if dentry == None || dentry.value.filetype != FILE_TYPE_FILE {
        return None;
      }
      var inode := dentry.value.inodeNum;
      var header := new byte[4];
      var n := ReadData(fs, inode, 0, header, 0, 4);
      if n != 4 {
        return None;
      }
      assert header[..] == FileBytes(fs, inode, 0, 4);
      var elf := IsElf(header);
      return if elf then Some(inode) else None;
    }

    static method IsElf(header: array<byte>) returns (elf: bool)
      requires header.Length == 4
      ensures elf <==> header[..] == MAGIC
    {
      if header[0] != 0x7F || header[1] != 0x45 || header[2] != 0x4C || header[3] != 0x46 {
        assert header[..] != MAGIC;
        return false;
      }
      assert header[..] == MAGIC;
      return true;
    }

    /** The whole file, or None if a block is missing. Of a file that does not fit the page it reads one byte more
        than fits, which is where the code faults. */
    method LoadProgram(inode: u32) returns (image: Option<seq<byte>>)
      requires Sane(fs) && inode < |fs.inodes|
      ensures var size := Attempted(fs, inode);
              image == if ReadResult(fs, inode, 0, size) != size then None else Some(FileBytes(fs, inode, 0, size))
    {
      var size := fs.inodes[inode].length;
      if size > PROGRAM_ROOM {
        size := PROGRAM_ROOM + 1;
      }
      var page := new byte[size];
      var n := ReadData(fs, inode, 0, page, 0, size);
      if n != size {
        return None;
      }
      assert page[..] == FileBytes(fs, inode, 0, size);
      return Some(page[..]);
    }

    /** The command's text is cut up in place by the tokenizer. */
    method Execute(t: StringTokens.Tokenizer, mem: array<byte>, command: nat, resume: nat, ghost text: seq<byte>)
      returns (r: Result)
      requires Valid() && mem != pidArray
      requires CStrings.Terminated(mem[..], command) && CStrings.CStr(mem[..], command) == text
      requires |Arguments.ArgString(text)| < Arguments.BUFFER_SIZE
      modifies this, pidArray, pcbs, pages, t, mem
      ensures Valid() && (View(), r) == AfterExecute(fs, old(View()), text, resume)
    {
      ghost var s := View();
      var file, args, count := Identify(t, mem, command, text);
      assert View() == s;
      if file == None {
        ChecksFail(fs, s, text, resume);
        return Returned(-1);
      }
      r := StartProgram(file.value, args, count, resume, text);
    }

    /** The checks that execute makes first: the program file, if there is one, and the argument string. */
    method Identify(t: StringTokens.Tokenizer, mem: array<byte>, command: nat, ghost text: seq<byte>)
      returns (file: Option<u32>, args: seq<byte>, count: byte)
      requires Sane(fs)
      requires CStrings.Terminated(mem[..], command) && CStrings.CStr(mem[..], command) == text
      requires |Arguments.ArgString(text)| < Arguments.BUFFER_SIZE
      modifies t, mem
      ensures file == Executable(fs, text)
      ensures file.Some? ==> args == Arguments.ArgString(text) && count as int == |args|
    {
      file, args := None, [];
      var buffer := new byte[Arguments.BUFFER_SIZE];
      var name;
      name, count := Arguments.SplitCommand(t, mem, command, buffer, text);
      if name.Some? {
        file := FindProgram(name.value, text);
        var len := CStrings.StrLen(buffer, 0);
        args := buffer[..len];
      }
    }

    method StartProgram(inode: u32, args: seq<byte>, count: byte, resume: nat, ghost text: seq<byte>)
      returns (r: Result)
      requires Valid() && Executable(fs, text) == Some(inode)
      requires args == Arguments.ArgString(text) && count as int == |args| < Arguments.BUFFER_SIZE
      modifies this, pidArray, pcbs, pages
      ensures Valid() && (View(), r) == AfterExecute(fs, old(View()), text, resume)
    {
      ghost var s := View();
      var next := GetNextProcessNumber();
      if next == -1 {
        return Returned(TABLE_FULL);
      }
      ghost var marked := s.active[next := true];
      var image := LoadPage(next, inode);
      if image == None {
        mapping := C_8MB + currProcess * C_4MB + USER_FLAGS;
        assert View() == s.(active := marked, mapping := MappingOf(s.current), pages := s.pages[next := None]);
        return Returned(-1);
      }
      if |image.value| > PROGRAM_ROOM {
        assert View() == s.(active := marked, mapping := MappingOf(next), pages := s.pages[next := None]);
        return Faulted;
      }
      SwitchTo(next, args, count, resume);
      assert View().active == marked[next := true] == marked;
      return Started(next);
    }

    /** Maps the page of the process and reads the program into it. */
    method LoadPage(next: nat, inode: u32) returns (image: Option<seq<byte>>)
      requires Valid() && next < NUM_MAX_PROCESSES && inode < |fs.inodes|
      modifies this`mapping, pages
      ensures Valid()
      ensures var size := Attempted(fs, inode);
              image == if ReadResult(fs, inode, 0, size) != size then None else Some(FileBytes(fs, inode, 0, size))
      ensures var page := if image.Some? && |image.value| > PROGRAM_ROOM then None else image;
              View() == old(View()).(mapping := MappingOf(next), pages := old(View()).pages[next := page])
    {
      ghost var s := View();
      mapping := C_8MB + next * C_4MB + USER_FLAGS;
      image := LoadProgram(inode);
      pages[next] := if image.Some? && |image.value| > PROGRAM_ROOM then None else image;
      assert View().active == s.active && View().pages == s.pages[next := pages[next]];
    }

    /** Fills the new control block and makes its process the current one. */
    method SwitchTo(next: nat, args: seq<byte>, count: byte, resume: nat)
      requires Valid() && next < NUM_MAX_PROCESSES
      modifies this, pidArray, pcbs
      ensures Valid()
      ensures View() == old(View()).(active := old(View()).active[next := true], current := next,
                                     esp0 := KernelStack(next),
                                     pcbs := old(View()).pcbs[next := Pcb(old(currProcess), resume, args, count,
                                                                          FIRST_FILES)])
    {
      ghost var s := View();
      esp0 := C_8MB - (next + 1) * PROCESS_OFFSET - 4;
      pcbs[next] := Pcb(currProcess, resume, args, count, FIRST_FILES);
      currProcess := next;
      pidArray[next] := 1;
      assert View().active == s.active[next := true];
    }

    /** The return to the parent: where it continues and the status it receives. */
    method Halt(status: byte) returns (resume: nat, code: int)
      requires Valid() && pcbs[currProcess].parentNum < NUM_MAX_PROCESSES
      modifies this, pidArray
      ensures Valid() && (View(), resume, code) == AfterHalt(old(View()), status)
    {
      ghost var s := View();
      var parent := pcbs[currProcess].parentNum;
      resume := pcbs[currProcess].resume;
      mapping := C_8MB + parent * C_4MB + USER_FLAGS;
      esp0 := C_8MB - (parent + 1) * PROCESS_OFFSET - 4;
      pidArray[currProcess] := 0;
      assert View().active == s.active[currProcess := false];
      currProcess := parent;
      code := status;
      assert View().active == s.active[s.current := false];
      assert View().pcbs == s.pcbs && View().pages == s.pages;
    }
  }
}
