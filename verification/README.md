# CheetOS verification

A Dafny model of the parts of CheetOS that carry real algorithms, with proofs of what they are for. CheetOS is a
small teaching kernel with a handful of user programs; the model covers

* the blinker engine of the fish program: a linked list threaded through a fixed pool, a clock that toggles every
  node, and the two-file merge that feeds it (`BlinkList`, `BlinkPool`, `Frames`);
* the grep program, which slides a 1024-byte buffer over a file (`TextLines`, `Grep`);
* the console, the line editor and the one-slot mailbox between the keyboard interrupt and its reader (`Console`,
  `LineEditor`, `Keyboard`);
* the file system image, the descriptor table and the read loop of cat (`FileSystem`, `Descriptors`, `Cat`);
* the life of a process, from execute to halt, and the files it uses meanwhile (`Processes`);
* the text and memory routines underneath: strtok and the argument string, the emulation layer's own splitter and
  joiner, number formatting, block copies (`CStrings`, `StringTokens`, `Arguments`, `Emulator`, `Numerals`,
  `Memory`). `Bytes` and `Arith` are shared definitions and division facts.

Routines that change memory are methods over arrays or classes whose fields are the routine's static variables. Each
is proved equal to a function of the old state, and the main results are lemmas about that function: over every run
of calls, every input or every interleaving.

Conventions. A byte is an integer below 256 and a machine word an integer below its limit, so wrap-around and signed
comparison are written out where they occur (the blinker's 16-bit countdown is decremented and then compared as a
signed word). In the blinker pool a pointer is the index of a slot or NULL, and a slot cleared to zeros holds NULL.
Block operations see memory as one array whose indices are addresses. C strings are the bytes up to the first NUL.

Where the code and its comments differ, the model follows the code. Four such places matter for the results:

* a blink length of 0 or above 0x8000 lasts one tick, because of the signed comparison; the closed form covers these;
* sync always draws the off character (the conditional move behind the test never happens), so its target shows the
  wrong character if the source is on, until it toggles; the display theorem says exactly which cells are wrong when;
* opening the clock device hands out a descriptor without marking it as taken, so the next open returns the same one;
* control with enter pushes a carriage return from the key table, not the newline that was set just before.

Some properties that one might expect fail, and are stated with the exact condition under which they hold:

* an add at location 0 succeeds but breaks the list (`BlinkPool.AddKeepsShapeIff`);
* grep never finds an empty pattern, nor one whose first byte is 0x80 or more, because it compares that byte as a
  signed character with unsigned ones, and it cuts lines longer than its buffer. So it prints exactly the matching
  lines if and only if the pattern is not empty, all of these lines fit, and there are none if the pattern starts with
  such a byte (`Grep.PrintsMatchingLinesIff`; inputs that fail are in `Grep.LongLineIsCut` and
  `Grep.HighByteIsMissed`);
* the console stops each write at the first NUL, and cat ignores that, so cat shows the whole file if and only if it
  contains no NUL (`Cat.ShowsAllIff`);
* on a well-formed image execute faults if and only if the program is longer than the 0x3B8000 bytes between its load
  address and the end of its page (`Processes.FaultsIff`); the theorems about runs are about images whose programs fit;
* the line editor's echo follows its buffer for every stream of keys if and only if the longest line cannot push its
  own first row off the screen (`LineEditor.NeverDriftsIff`); the system call's limit of 128 characters ensures that;
* closing what was just opened undoes the open, except for the clock and for stale fields of a free entry
  (`Descriptors.CloseUndoesOpen`).

`dafny verify dfyconfig.toml` checks the project.

## Model

| member | source | states |
|---|---|---|
| BlinkList.ClosedForm | fish/blink.S:58-90 | after any number of ticks a started node is on during the first part of its period and off during the rest, with the exact remaining phase as countdown, for all 16-bit lengths |
| BlinkList.SameTimingStays | fish/blink.S:64-86 | nodes with equal timing fields have equal status and countdown after every number of ticks |
| BlinkList.RunIsolated | fish/blink.S:58-90 | in every run that does not add, remove or re-time at a location, the first node there changes only by the clock |
| BlinkList.BlinkingInEveryRun | fish/blink.S:131-162 | from a successful add on, in every run that leaves its location alone, the node follows the closed form |
| BlinkList.SyncedForever | fish/blink.S:248-275 | after a sync, source and target keep equal status and countdown in every run until one of them is touched again |
| BlinkList.SyncTouchesOneNode | fish/blink.S:267-275 | a sync changes the first match of its target and no other node |
| BlinkList.RemoveTakesFirst | fish/blink.S:206-226 | a remove takes the first node at its location out of the list and changes no other node and no byte of the screen; without such a node it changes nothing |
| BlinkList.RemovedStaysGone | fish/blink.S:187-237 | after a remove at distinct locations, in every run that leaves the location alone, no node is there |
| BlinkList.SucceedsIff | fish/blink.S:131-150 | an add succeeds exactly if its location is below 2000 and fewer than 2000 nodes are live, the other calls exactly if the nodes they name exist; what does not succeed changes nothing |
| BlinkList.StepDisplayed | fish/blink.S:277-285 | one driver call keeps the rule that a cell shows the character of its status exactly if it is not stale, where only a sync to a node that is on makes a cell stale and a toggle, another sync or a new add repairs it |
| BlinkList.DisplayInEveryRun | fish/blink.S:68-86 | in every run with distinct locations the displayed characters match the statuses exactly outside the stale cells |
| BlinkList.NoSyncNoStale | fish/blink.S:49-99 | without syncs no cell is ever stale |
| BlinkList.Animation | fish/fish.c:36-44 | after a batch of adds and any number of ticks each cell shows its on character in the on part of its period and its off character otherwise |
| BlinkList.AnimationBackground | fish/fish.c:36-44 | the same run changes no byte of the screen that does not hold one of the characters |
| BlinkPool.ChainUnique | fish/blink.S:357-367 | the memory determines the list: a well-shaped pool has only one chain from its head |
| BlinkPool.PoolConserved | fish/fish.c:160-175 | live and free slots always add up to 2000 |
| BlinkPool.FullWhenNoneFree | fish/fish.c:160-170 | allocation finds a slot exactly if fewer than 2000 nodes are live |
| BlinkPool.AddKeepsShapeIff | fish/blink.S:131-162 | after an add that reports success the list is well shaped if and only if the location is not 0 |
| BlinkPool.ZeroLocationTwiceLoops | fish/fish.c:163-166 | two adds at location 0 get the same slot, whose link then points to itself |
| BlinkPool.Blinker.constructor | fish/fish.c:21-28 | a zeroed pool with a null head is the empty list |
| BlinkPool.Blinker.Malloc | fish/fish.c:160-170 | returns the first slot with location 0, or NULL if there is none |
| BlinkPool.Blinker.FindHelper | fish/blink.S:351-379 | returns the first node of the list at the location, or NULL |
| BlinkPool.Blinker.Add | fish/blink.S:105-184 | succeeds exactly if the location is on the screen and a slot is free; then the node is prepended, started and drawn |
| BlinkPool.Blinker.FindLink | fish/blink.S:206-212 | finds the link that holds a node of the list |
| BlinkPool.Blinker.Remove | fish/blink.S:187-237 | deletes the first node at the location, clears its slot and keeps the list well shaped; fails exactly if there is none |
| BlinkPool.Blinker.Find | fish/blink.S:302-349 | returns a copy of the first node at the location, its next pointer included |
| BlinkPool.Blinker.Sync | fish/blink.S:240-300 | copies the timing of the first match of the high half to that of the low half and draws the off character |
| BlinkPool.Blinker.TickSlot | fish/blink.S:64-86 | counts one node down and, when its phase ends, toggles and redraws it |
| BlinkPool.Blinker.Tick | fish/blink.S:49-99 | ticks every node of the list once, in list order |
| BlinkPool.Blinker.Perform | fish/blink.S:101-103 | any sequence of driver calls keeps the list acyclic, on exactly the slots with non-zero location, and equal to the run on a plain sequence |
| Frames.CellsExact | fish/fish.c:98-130 | the cells are exactly the positions where either file is visible, once each, in row-major order |
| Frames.VisibleIff | fish/fish.c:122 | a cell is left out exactly if both files show a space or nothing there |
| Frames.ReadChar | fish/fish.c:102-116 | one column of one file: its character, or a newline at the end of the row or of the file |
| Frames.MergeColumn | fish/fish.c:102-129 | one column of both rows: the call it issues, if any, with the shorter row padded by spaces |
| Frames.MergeRow | fish/fish.c:99-130 | one row of both files: its calls, and both files advanced to the next row |
| Frames.Merge | fish/fish.c:98-147 | the merge loop terminates for any two files and issues exactly one call for each visible cell, in row-major order |
| Frames.AddFrames | fish/fish.c:78-148 | for files of any size the driver's state afterwards is that of the plain list after those adds, of which it refuses those beyond the screen |
| Frames.AddOpsOkIff | fish/fish.c:118-128 | no call has location 0, which the driver must not get, exactly if no visible cell's 16-bit location is 0; on the screen that is always so |
| Frames.FishAnimation | fish/fish.c:36-44 | on a screen-sized pair of files every visible cell alternates every 15 ticks between the characters of the two files, at row*80+col+40 |
| Frames.FishBackground | fish/fish.c:36-44 | all other bytes of the screen keep their value |
| CStrings.StrLen | syscalls/ece391support.c:6-12 | the length of the string at a position |
| CStrings.StrCpy | syscalls/ece391support.c:14-17 | the string and its terminator appear at the destination and nothing else changes, also when the copy moves down in one buffer |
| CStrings.CompareZero | syscalls/ece391support.c:35-46 | the comparison is 0 exactly if the first n characters of both strings agree |
| CStrings.CompareFirst | syscalls/ece391support.c:39-45 | the comparison is the difference of the characters at the first place where the strings differ |
| CStrings.StrNCmp | syscalls/ece391support.c:35-46 | returns the difference at the first place where the first n characters differ, or 0 |
| Grep.PiecesAreCutLines | syscalls/ece391grep.c:28-57 | cutting a file at newlines and at every 1024 bytes finds the same hits as cutting each of its lines |
| Grep.PrintsMatchingLinesIff | syscalls/ece391grep.c:20-60 | the pieces printed are exactly the lines that contain the pattern if and only if the pattern is not empty, all of those lines are at most 1024 bytes long, and the pattern starts with a byte below 0x80 or there are no such lines |
| Grep.HighByteIsMissed | syscalls/ece391grep.c:42-44 | a line that consists of one byte from 0x80 on is not printed for the pattern that consists of the same byte |
| Grep.LongLineIsCut | syscalls/ece391grep.c:20-60 | a single matching line of 1025 bytes, of a character below 0x80, is printed as two |
| TextLines.ContainsIff | syscalls/ece391grep.c:42-51 | a line contains a pattern exactly if it is something, the pattern and something else, one after the other |
| TextLines.HitsInOrder | syscalls/ece391grep.c:28-57 | the hits are the lines that contain the pattern, each listed once and in order |
| Grep.RenderedLines | syscalls/ece391grep.c:45-48 | the output read as lines is the file name, a colon and the hit for each hit, in order, if none of these has a newline |
| Grep.FindLineEnd | syscalls/ece391grep.c:30-32 | the next newline in the buffer, or its end |
| Grep.LineMatches | syscalls/ece391grep.c:42-51 | reports whether the line in the buffer contains the pattern; an empty pattern, or one that starts with a byte from 0x80 on, is never found |
| Grep.SearchLine | syscalls/ece391grep.c:40-51 | terminates the line and prints it once if the pattern is found in it |
| Grep.CarryDown | syscalls/ece391grep.c:33-38 | moves the partial line to the start of the buffer without changing what is left to scan |
| Grep.Refill | syscalls/ece391grep.c:22-27 | a read moves bytes from the file to the buffer; afterwards the buffer is full or the file is exhausted |
| Grep.ScanBuffer | syscalls/ece391grep.c:28-57 | prints exactly the hits of the complete pieces in the buffer and keeps the rest |
| Grep.DoOneFile | syscalls/ece391grep.c:9-66 | for every NUL-free file and every pattern, one that is empty or starts with a byte from 0x80 on included, the scanner terminates and its output is the file name, a colon and the piece, for exactly the pieces in which the pattern is found, once each and in order; read as lines, the output lists just these if the name has no newline |
| Console.BackspaceUndoes | student-distrib/lib.c:226-250 | an ordinary character followed by a backspace leaves the text unchanged, across wraps and scrolls |
| Console.EveryRunGood | student-distrib/lib.c:220-267 | after any sequence of characters from a cleared screen the cursor is on the screen and the rows fit it |
| Console.BlankBehindCursor | student-distrib/lib.c:220-267 | every cell at or behind the cursor is blank |
| Console.LineLayout | student-distrib/lib.c:237-249 | a line is laid out from the end of the text on, row by row with 80 characters each, and what was there before stays |
| Console.CharOnScreen | student-distrib/lib.c:237-263 | an ordinary character goes to the cell under the cursor and moves the cursor on by one cell; behind the last cell everything moves up by a row |
| Console.BreakOnScreen | student-distrib/lib.c:221-223 | a line break moves the cursor to the start of the next row, and everything up by a row if there is none |
| Console.BackspaceOnScreen | student-distrib/lib.c:226-236 | a backspace moves the cursor back by one cell and blanks that cell; in the first cell it does nothing |
| Console.Terminal.Clear | student-distrib/lib.c:49-57 | the screen shows the empty text |
| Console.Terminal.PutC | student-distrib/lib.c:220-267 | the 2000 cells are the window on the text after the character, with wrap, scroll and backspace |
| Console.Terminal.ScrollUp | student-distrib/lib.c:253-263 | moves the window down one row when the cursor has left it |
| LineEditor.EchoErase | student-distrib/keyboard.c:218-224 | while the line is not empty a backspace is not at the top left corner and takes back exactly the last character of the echo |
| LineEditor.EchoChar | student-distrib/keyboard.c:231-237 | a printable key extends buffer and echo together and the first row of the line stays on the screen |
| LineEditor.HandleKey | student-distrib/keyboard.c:209-238 | for any line length a key changes the buffer as the editor function says and the screen as the echo function says |
| LineEditor.EveryKeyInStep | student-distrib/keyboard.c:205-239 | for every stream of keys within the bound the echo of the keys is the text before the line, or the empty one after a clear, followed by the line that they leave in the buffer |
| LineEditor.GetLine | student-distrib/keyboard.c:205-239 | for every stream of keys and any line length the buffer is the fold of the keys and the screen shows their echo; within the bound that is the old text, or the empty one after a clear, followed by the line |
| LineEditor.TypedLine | student-distrib/keyboard.c:209-238 | typing up to max characters from 0x20 to 0x7E and then enter yields just these characters |
| LineEditor.OtherKeys | student-distrib/keyboard.c:218-237 | backspace and delete take back one character, form feed all; other control characters, and any character when the line is full, change nothing; the eighth bit does not matter |
| LineEditor.TerminalLinesFit | student-distrib/terminal.c:48-58 | requests through the system call are cut to 128 characters and therefore always within the bound |
| LineEditor.LongerLinesDrift | student-distrib/keyboard.c:218-237 | beyond the bound there are keys after which the buffer is empty but their echo has left rows on the screen |
| LineEditor.NeverDriftsIff | student-distrib/keyboard.c:205-239 | the echo follows the line for every stream of keys if and only if the line is within the bound |
| Keyboard.TableIsAscii | student-distrib/keyboard.c:20-29 | all characters of the key table are below 128, and the shifted form of a letter is its capital |
| Keyboard.TableRows | student-distrib/keyboard.c:20-29 | the characters of the key table, row by row as the keys lie |
| Keyboard.PushedIsAscii | student-distrib/keyboard.c:99-157 | the handler pushes only values that the reader accepts |
| Keyboard.LetterCase | student-distrib/keyboard.c:133-142 | a letter is a capital exactly if one of shift and caps lock is on; caps lock affects nothing else |
| Keyboard.ControlKeys | student-distrib/keyboard.c:108-131 | with control held down only backspace, enter and L push anything, and with alt held down as well only backspace |
| Keyboard.AltKeys | student-distrib/keyboard.c:99-107 | with alt held down only backspace pushes anything |
| Keyboard.ModifierKeys | student-distrib/keyboard.c:71-98 | what each modifier key does on press and release; no other key changes a modifier, and no release pushes anything |
| Keyboard.Driver.HandleCharpress | student-distrib/keyboard.c:65-157 | the handler's branches amount to the function of modifiers and scan code that the lemmas speak of |
| Keyboard.RunInv | student-distrib/keyboard.c:179-194 | in every interleaving the mailbox holds the newest key or nothing, and what the reader has fetched was pushed in that order |
| Keyboard.DeliveredIsSubsequence | student-distrib/keyboard.c:179-194 | the delivered keys are a subsequence of the pushed ones, none delivered twice |
| Keyboard.NeverDiscards | student-distrib/keyboard.c:186-192 | the reader's discard path is never taken |
| Keyboard.KeysConserved | student-distrib/keyboard.c:154-194 | every pushed key is delivered, on its way, or was lost because it collided with another one on its way |
| Keyboard.NothingLostIff | student-distrib/keyboard.c:154-194 | when the reader is idle everything pushed has been delivered if and only if there was no collision |
| Keyboard.DeliveredWithinFour | student-distrib/keyboard.c:179-194 | in every state a key on its way is delivered by the next four steps of the reader if no interrupt comes between them |
| FileSystem.ContentBytes | student-distrib/filesys.c:284-308 | on a well-formed image a file is the concatenation of its blocks cut to its length: byte k is byte k%4096 of its block number k/4096 |
| FileSystem.CopyBlock | student-distrib/filesys.c:304-310 | copies from one block until the request, the block or the file ends |
| FileSystem.ReadData | student-distrib/filesys.c:269-320 | terminates on every image whose inodes have 1023 block numbers and a length within them and whose used block numbers are not negative, missing blocks included; -1 exactly for a bad inode or a missing block among those touched, otherwise the count, with exactly those bytes of the file in the buffer and no other buffer byte changed |
| FileSystem.ReadIsSlice | student-distrib/filesys.c:269-320 | on a well-formed image a read delivers exactly the requested slice of the content, cut at its end, and 0 past it |
| FileSystem.ReadFailsIff | student-distrib/filesys.c:277-300 | a read fails exactly if the inode does not exist or a byte that it asks for, or the first one if it asks for none, lies in a missing block |
| Descriptors.ReadDentryByName | student-distrib/filesys.c:219-242 | the first of the 63 entries with the name, if there is one |
| Descriptors.LookupIsFirst | student-distrib/filesys.c:219-242 | the lookup finds the first entry that matches and fails exactly for the empty name and if none matches |
| Descriptors.ShortNameMatches | student-distrib/filesys.c:236 | a name of fewer than 32 characters matches an entry exactly if it is the name of the entry |
| Descriptors.CompareNames | student-distrib/lib.c:503-517 | two names match if their first 32 characters agree, whether or not the field is terminated |
| Descriptors.StandardStaysOpen | student-distrib/syscalls.c:52-68 | descriptors 0 and 1 stay open in every run |
| Descriptors.OpenReturnsLowest | student-distrib/filesys.c:22-70 | in every reachable table an open fails exactly if the name is unusable or all six descriptors are taken, and otherwise returns the lowest free one and touches no other |
| Descriptors.OpenTakesDescriptorIff | student-distrib/filesys.c:43-69 | a successful open takes its descriptor exactly if the file is not the clock; after the clock the next open returns the same descriptor |
| Descriptors.OpenInstalls | student-distrib/filesys.c:43-69 | a successful open installs the operations for the type of the first matching entry, its inode and position 0, and marks the entry as taken except for the clock |
| Descriptors.OpenableIff | student-distrib/filesys.c:28-64 | a name can be opened exactly if it has 1 to 31 characters and the first entry that matches has one of the three known types |
| Descriptors.CloseSucceedsIff | student-distrib/syscalls.c:52-68 | exactly the taken descriptors from 2 to 7 can be closed, and become blank |
| Descriptors.OthersUntouched | student-distrib/syscalls.c:52-93 | reading or closing one descriptor never changes another |
| Descriptors.CloseUndoesOpen | student-distrib/filesys.c:79-89 | closing what was just opened succeeds exactly if it was not the clock and then frees its entry; it restores the table exactly if that entry was blank before |
| Descriptors.CloseUndoesOpenInEveryRun | student-distrib/filesys.c:79-89 | in every run that does not open the clock, closing a file that was just opened restores the table |
| Descriptors.ReadsAreAPrefix | student-distrib/filesys.c:98-111 | the bytes of successive reads are the prefix of the file whose length is the smaller of the sum of the requests and the file length, and so is the position |
| Descriptors.NothingOnlyAtEnd | student-distrib/filesys.c:287-289 | a non-empty request returns 0 exactly at the end of the file |
| Descriptors.PositionInEveryRun | student-distrib/filesys.c:98-111 | in every run of calls that does not close it, a file's position depends on its own reads alone |
| Descriptors.EveryRunReadsAPrefix | student-distrib/filesys.c:98-111 | in every run of calls that does not close it, whatever happens to other descriptors, the bytes returned for a file, one read after the other, are its content up to its position |
| Descriptors.OpenThenRead | student-distrib/filesys.c:22-111 | opening a file by its name and reading it, with any calls on other descriptors in between, delivers that file's content |
| Descriptors.EveryRunListsNames | student-distrib/filesys.c:177-198 | in every run of calls that does not close it, the reads of a directory return its 63 names in order, none skipped and none twice, and nothing behind them |
| Descriptors.FileArray.constructor | student-distrib/filesys.c:347-367 | a new table has standard input and output open and six free entries |
| Descriptors.FileArray.FileOpen | student-distrib/filesys.c:22-70 | the table and result are those of the open function |
| Descriptors.FileArray.Open | student-distrib/syscalls.c:18-43 | so are those of the system call, in spite of its further lookup for directories and its second open for the clock |
| Descriptors.FileArray.DirectoryOpen | student-distrib/filesys.c:145-156 | opens a directory and fails for anything else |
| Descriptors.FileArray.Close | student-distrib/syscalls.c:52-68 | frees an open descriptor from 2 to 7, and fails otherwise |
| Descriptors.FileArray.Read | student-distrib/syscalls.c:77-93 | dispatches to the file and moves its position by what was read, refuses standard input and output as files, or returns the next name of a directory |
| Descriptors.CopyField | student-distrib/filesys.c:190-197 | copies a directory name and terminates it |
| Cat.TerminalWrite | student-distrib/terminal.c:77-105 | shows the bytes of a request in front of its first NUL and returns their number |
| Cat.ShowsAllIff | student-distrib/terminal.c:93-99 | a text written in requests of 1024 bytes is shown as a whole if and only if it contains no NUL |
| Cat.CatFile | syscalls/ece391cat.c:21-28 | the read loop terminates and has passed exactly the content of the file to write, or, if a write fails, exactly what was passed before; the console shows of each request what stands in front of its first NUL |
| Processes.StackFindsPcb | student-distrib/syscalls.c:402-407 | masking any kernel stack address of a process gives its control block, and stacks and blocks of different processes do not overlap |
| Processes.PagesDisjoint | student-distrib/syscalls.c:249-250 | the 4 MB pages of different processes do not overlap and do not reach into the kernel's |
| Processes.LoadSucceeds | student-distrib/syscalls.c:253-258 | on a well-formed image the failing-load path is unreachable, and if programs fit their page the whole file is loaded |
| Processes.FaultsIff | student-distrib/syscalls.c:250-258 | on a well-formed image execute faults exactly if the checks pass, a slot is free, and the file is longer than the room behind the load address |
| Processes.FailureChangesNothing | student-distrib/syscalls.c:206-248 | on a well-formed image an execute that returns without having started a process changes nothing, including the table-full result 256 |
| Processes.SlotLostIff | student-distrib/syscalls.c:243-258 | on other images a failing execute leaves a slot marked exactly if its checks pass, a slot is free and a block of what is read of the program is missing |
| Processes.LostSlot | student-distrib/syscalls.c:255-258 | a lost slot is the lowest free one; the mapping is the caller's and everything else is as before |
| Processes.ExecutableIff | student-distrib/syscalls.c:206-226 | a command names an executable exactly if its first word has fewer than 31 characters and the first matching entry is a regular file that starts with 0x7F and ELF |
| Processes.ChildReceives | student-distrib/syscalls.c:250-288 | a child has the words behind its name as arguments, their length as count, six free descriptors, its parent's number and resume point, and the whole program file in its page |
| Processes.ExecuteKeepsChain | student-distrib/syscalls.c:242-288 | if programs fit their page, from a running process execute starts the next one of the chain, or fails with 256 when six are running |
| Processes.HaltKeepsChain | student-distrib/syscalls.c:130-160 | halt makes the parent current again, or leaves the system idle |
| Processes.EveryReachableState | student-distrib/syscalls.c:130-288 | if programs fit their page, in every state reachable by executes, halts and file calls with a process running the active ones are 0 to the current one, each the child of the one before, mapping and stack pointer belong to the current one, and standard input and output of all of them are open |
| Processes.BalancedRunRestores | student-distrib/syscalls.c:130-288 | if programs fit their page, any balanced run of child executes, halts and file calls restores the process table, mapping and stack pointer and leaves control blocks and programs of the caller and its ancestors alone, except that the caller's descriptor table is what its own calls make of it, whatever its children open, read or close |
| Processes.PositionSurvivesChildren | student-distrib/syscalls.c:77-93 | a file's position is decided by the process's own reads, whatever children it runs between them |
| Processes.ChildReturnsToItsExecute | student-distrib/syscalls.c:155-156 | a child's exit resumes the parent in the execute call that started the child, with the child's status and its own files untouched |
| Processes.Kernel.GetNextProcessNumber | student-distrib/syscalls.c:171-185 | marks and returns the first inactive slot, or -1 |
| Processes.Kernel.FindProgram | student-distrib/syscalls.c:214-226 | finds the inode of a regular file with the name and the executable magic number |
| Processes.Kernel.Execute | student-distrib/syscalls.c:194-292 | the new state and the result are those of the execute function |
| Processes.Kernel.Halt | student-distrib/syscalls.c:130-160 | the new state, the place to resume and the status are those of the halt function |
| StringTokens.TokensAreMaximalRuns | student-distrib/lib.c:564-604 | the words are exactly the maximal runs of non-delimiters, each once, from left to right |
| StringTokens.Tokenizer.StrTok | student-distrib/lib.c:564-604 | each call delivers the next word, writes one terminator behind it, and leaves exactly the other words for later calls |
| Arguments.JoinSplits | student-distrib/syscalls.c:232-240 | splitting words that were joined by single spaces gives the same words |
| Arguments.ArgStringRoundTrip | student-distrib/syscalls.c:228-240 | re-splitting the argument string gives exactly the arguments |
| Arguments.ArgStringFits | student-distrib/syscalls.c:281-282 | for commands of up to 129 characters the argument string and its terminator fit 128 bytes and an 8-bit count |
| Arguments.BuildArgs | student-distrib/syscalls.c:228-240 | the buffer holds the remaining words joined by single spaces |
| Arguments.SplitCommand | student-distrib/syscalls.c:206-240 | the program name, unless it is missing or too long, and the argument string with its length |
| Arguments.AnswerIsArguments | student-distrib/syscalls.c:309-333 | getargs succeeds exactly if there are arguments and at least as many characters are asked for as they have; the answer, split again, is the words behind the program's name |
| Arguments.GetArgs | student-distrib/syscalls.c:309-333 | fails exactly if there are no arguments or fewer characters are asked for than there are; otherwise copies the string |
| Emulator.Split | fish/ece391emulate.c:67-100 | the argument vector points at the words of the command, cut in place; only commands over 1023 characters fail |
| Emulator.GetArgs | fish/ece391emulate.c:131-157 | succeeds exactly if the joined arguments and their terminator fit, and then delivers them |
| Emulator.SameSplit | fish/ece391emulate.c:81-99 | for a newline-free command that starts with a word both splitters find the same arguments |
| Emulator.TrailingNewline | fish/ece391emulate.c:88-98 | a newline at the end of a command does not change how it is split |
| Emulator.KernelAndEmulatorAgreeIff | fish/ece391emulate.c:131-157 | for such commands with fewer than 128 characters of arguments, the exact condition for a program to receive the same from kernel and emulator, with the kernel's limit of 30 characters for its name and the emulator's of 1023 for the command |
| Numerals.NumeralRoundTrip | student-distrib/lib.c:275-305 | reading the digits of a number gives the number back, in every radix from 2 to 36 |
| Numerals.NoLeadingZero | student-distrib/lib.c:281-298 | a numeral starts with a zero only if it is the numeral of 0 |
| Numerals.AllDigitsValid | student-distrib/lib.c:293-298 | every digit is below the radix |
| Numerals.DigitTable | student-distrib/lib.c:276 | the digits are 0 to 9 and A to Z, and a reader gets their places in the table |
| Numerals.NumeralLength | student-distrib/lib.c:275-305 | a 32-bit number has at most 32 digits, and at most 8 in radix 16 |
| Numerals.StrRev | student-distrib/lib.c:311-324 | the string is reversed in place and nothing else changes |
| Numerals.EmitDigits | student-distrib/lib.c:293-301 | the digits appear lowest place first, terminated |
| Numerals.Itoa | syscalls/ece391support.c:49-81 | the buffer holds the numeral, terminated, and nothing else changes |
| Numerals.PrintHex8 | student-distrib/lib.c:128-147 | the alternate hexadecimal conversion prints exactly 8 digits that denote the value |
| Memory.MemSet | student-distrib/lib.c:343-377 | for every alignment and length exactly the range is filled |
| Memory.MemCpy | student-distrib/lib.c:426-463 | for every alignment and length the source bytes are copied whenever the destination does not start inside the source |
| Memory.MemMove | student-distrib/lib.c:472-490 | the old source bytes are at the destination for any overlap and nothing else changes |
| Memory.MemSetWord | student-distrib/lib.c:386-398 | exactly the given number of words is written |

## Left out

- Grep.DoOneFile: does not model the messages for a file that cannot be opened, read or closed; the file is open and reads fall short only at its end. Files with NUL bytes and the contents of the byte behind the uninitialised buffer being a newline are excluded.
- LineEditor.GetLine: takes the keys as a finite stream and reports that the call is still waiting when they run out, instead of blocking.
- Keyboard.Driver.HandleCharpress: takes the scan code as a parameter; the port read is not modelled.
- Descriptors.FileArray.Read: reports that a read belongs to the terminal or the clock driver and does not model these drivers' reads.
- Descriptors.FileArray.FileOpen: the clock is opened without its frequency set-up, which is port input and output.
- Processes.FaultsIff: supposes that no program has mapped video memory behind the program page, which the vidmap call does. A fault stops the machine, so nothing is said about what follows it.
- Processes.Kernel.Execute: the saved stack pointers and return address are one opaque value, and the switch to user mode, the entry point and the flush of address translations are not modelled. A program page is the loaded file.
- Processes.Kernel.Halt: returns the place to resume and the status instead of jumping.
- Frames.AddFrames: excludes files with a visible cell whose 16-bit location is 0, since such an add breaks the list; collects the driver calls of the merge loop and then performs them in that order; the loop's reads do not depend on them. Failing opens and reads are not modelled.
- Arguments.SplitCommand: builds the argument string before the program file is looked up; the order does not affect the result. An argument string of 128 bytes or more overruns the buffer and is excluded, here and in Processes.Kernel.Execute.
- Arguments.GetArgs: takes the control block's argument field as a parameter, and asks for a caller's buffer with room for the terminator, which the code stores behind the counted characters.
- Console.Terminal.PutC: the hardware cursor is not modelled; its position is the pair of coordinates.
- Memory.MemCpy: says nothing about a destination that starts inside the source, where the result depends on the alignment.
- BlinkPool.Blinker.Add: the 16-byte structure copies are copies of one value, because they cannot fail.
- The fish program after its first 100 ticks (one more node, a sync and a removal) is an instance of the run theorems.
- printf apart from the alternate hexadecimal conversion: its other conversions print a character, a string or what itoa produced. The kernel library has its own strcpy and strlen, which do what those of the user library do.
- Interrupt tables, paging set-up, the interrupt controller, the clock's frequency writes, register-level context switching and the stub system calls are hardware glue.
- The remaining user programs and the in-kernel tests only call system calls in a fixed order.
- fork, exec, mmap and readdir in the emulation layer are foreign calls.
