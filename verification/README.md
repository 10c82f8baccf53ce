# Penguin OS in Dafny

A Dafny 4.11 model of the parts of Penguin OS, a small x86 kernel in C, that are state machines over
global tables, with proofs of what those parts are for. `dafny verify dfyconfig.toml` checks the
whole project. Each module has one shape: functions say what a step does to a value, lemmas prove what
follows for every input and every run, and a class with the kernel's own variables has one method for each
routine (loops and updates in place included), proved to make exactly that step.

| file | models |
|---|---|
| `CLib.dfy` | C strings and lines, truncating division |
| `FileStore.dfy` | the file system seen from outside: files, free lists, directory, operations, whole runs |
| `FileSys.dfy` | `filesys.c` over its memory image, refining `FileStore` |
| `Descriptors.dfy` | `open`, `close`, `read` and `write` on files and directories, and the loops of `cat` and `ls` |
| `Processes.dfy` | `execute`, `halt`, `pit_handler` and `terminal_shift` on the process tables and the mapping |
| `Grep.dfy` | the streaming scanner of the grep program |
| `Screen.dfy` | the 80 by 25 text screen against an unbounded transcript |
| `Terminals.dfy` | three terminals multiplexed over one screen |
| `LineEditor.dfy` | the keyboard buffer and `terminal_read` |
| `Blink.dfy` | the blink list of the fish program, threaded through its pool |
| `Numbers.dfy` | `itoa`, `strrev`, the `%#x` branch of `printf` |
| `Rtc.dfy` | the virtual real-time clock |

## Main results

- **File system.** Every operation on the image is a step of the abstract store; every run keeps all blocks
  either free, or owned by one file at one place, or neither; both free lists are conserved, so no block or inode
  number is handed out twice, even after an allocator has run dry; a read finds the bytes that the last write to its file
  stored, all of them or as many as there was space for, whatever happened in between. The list built at start-up is the
  exact complement of the blocks in use. Through the system calls, however a file is cut into reads, the buffers make up its
  bytes; so what is written to a new file is what a reader who opens it gets.
- **Grep.** The fixed-buffer scanner prints exactly the matching *pieces* of a file, a piece being a line cut every
  1024 bytes. It equals the filter over whole lines if and only if every matching line has at most 1024 bytes, for
  every NUL-free file. The empty pattern matches nothing. A failed read cuts the output short and nothing else.
- **Processes.** In every reachable state each live terminal has a duplicate-free chain of callers down to a
  root, and chains of different terminals are disjoint. The mapping follows the running process after every step,
  except after a launch from a terminal that is not the one shown; which events put it right again is stated too. A process
  is lost, busy for good but in no chain, by exactly one kind of event, a launch while `parent_array` does not name the process
  on top of the displayed terminal: that is proved for every event and for every run from the first shell, and such a launch
  is reached in four steps. Round robin is fair.
- **Screen and terminals.** The scrolling cells are the window on the wrapped transcript, for every stream without
  backspace; on a screen of its own every stream, backspaces included, stays in the 2000 cells. With three terminals,
  what every switch, shift, start, write and key makes of each terminal is given exactly, for every mapping of video
  memory that occurs: an event leaves the terminals that it is not about as they were, but for the cursor of the displayed
  one when a prompt comes from the background. So in every run each terminal's screen is what happened to this terminal made
  of a blank one; that is the window on its own transcript if it was only typed on. What the shared `enter_or_overflow` does to
  a backspace is characterised, and so are the events after which output goes to the wrong page.
- **Line editor, blink list, numbers, clock.** Reads deliver the edited line; the list and the pool agree, and each location is a
  stack, over every run that enters no record for location 0; numerals and numbers correspond one to one; the divider raises its flag exactly as often as it
  should.

## Where the code does not do what one would expect

Each of these is proved, with the condition under which the expectation holds.

- `write_data` sets the length to the byte count whatever the offset, so a write at the end of a file appends only
  when that end is offset 0 (`AppendsOnlyAtZero`), and a write is read back at its own offset only there (`ReadBackOnlyAtZero`).
- Creating a file whose name exists adds an entry that the older one hides, and removing that name then removes the
  older file (`CreatedIsFound`, `RemoveUndoesCreate`).
- `file_write` and `write` both advance the position, so two writes through one descriptor make up the file only if one of
  them is empty (`WritesJoinOnlyIfEmpty`); the second one stores nothing, and cuts the file when at most half of the first
  could be stored (`SecondWrite`).
- `ls` stops at an empty name (`ListingIsComplete`), which a new file has if and only if it was opened under a name that begins
  with a newline (`CreatedName`).
- Grep misses or truncates matching lines longer than its buffer (`GrepIsTheFilter`), and finds nothing for the empty pattern
  (`EmptyPattern`).
- `halt` stores the grandparent in `parent_array` (`HaltForgetsTheCaller`), so that a launch can strand its caller
  (`StepLoses`, `LaunchStrandsTheCaller`, `StrandingIsReached`).
- `execute` writes the slots of the terminal on display, not of the caller's (`StepKeepsMapped`, `CallerIsParent`,
  `HiddenLaunchIsReached`).
- `terminal_shift` to the running terminal, or to a new one whose shell cannot be started while the running terminal is
  displayed, leaves video memory mapped to the running terminal's backing page until the next switch, key or start
  (`MappingBreaks`, `MappingAfter`, `MisplacedIsReached`, `OutputMissesTheScreen`).
- `enter_or_overflow` is one variable for three terminals: another terminal's value changes what a backspace does in the first
  two columns (`FlagMatters`), and at the first cell it sends the write off the page (`EraseStaysOnPage`,
  `OffPageIsReached`).
- A prompt printed by a background terminal breaks the line of the displayed one, unless its cursor is at the start of the
  last row (`StepIsolated`), and moves the prompting terminal's rows up when that cursor is on the last row
  (`BackgroundNewline`). In the background NUL is drawn (`NulMatters`).
- A key typed between Enter and the read overwrites the waiting line (`TypedTooSoon`).
- A blink record for location 0 corrupts the list (`AddBreaksAtZero`): its cell is handed out again and then linked to
  itself (`ZeroIsReused`). A face with length 0, or above 0x8000, lasts one tick (`LastsAsSaid`). `sync` always draws the off character.
- `rtc_write` accepts 0, which then faults in a division, and the most negative integer (`AcceptedFrequencies`, `ExactDivider`).

## Assumptions

Integers are unbounded except where a width matters and is written out (the 16-bit countdown, the 32-bit clock counter,
the 32-bit frequency, the unsigned read count). `ceil((double)n / 4096)` is an integer ceiling, which is exact for 32-bit `n`.
Preconditions are what the code leaves to its callers. For the file system: an inode number other than `Num_Inodes`,
which the range check lets through; at most 1023 blocks in a write; names that fit the 32-byte buffers; no read at
exactly the largest file size, where the block index is fetched too early; no read of bytes that a write which ran out of
space never stored; a boot image whose files in use own disjoint blocks, whose regular entries name distinct inodes in use, and
whose lists fit the static arrays; no further listing of a directory that has lost its last entry since the listing
began, where the unsigned bound lets every index through. For grep: a NUL-free file and a stack buffer whose last byte is not a newline. Uninitialised
memory (`slot`, `junk`, `keys`, `stale`) and outcomes outside the model (`loadable`, `live`, `ok`, `good`, `closes`, and
`dev`, what the terminal or the clock answers behind a descriptor) are parameters. For terminals: no backspace that leaves
the page. For the blink list: no record for location 0 in a run.

## Model

| member | source | states |
|---|---|---|
| FileSys.FreeListIsComplement | student-distrib/filesys.c:258-275 | the start-up free list is strictly increasing and holds exactly the block numbers that no file in use has among its first ceil(length/4096) entries |
| FileSys.EmptyInodesExact | student-distrib/filesys.c:245-249 | the free inode list is strictly increasing and holds exactly the zero-length inodes |
| FileSys.BusyExact | student-distrib/filesys.c:245-255 | a block is on the busy list exactly if some inode in use lists it |
| FileSys.FileSystem.CollectBusy | student-distrib/filesys.c:245-255 | the first loop leaves the busy blocks, in order, in the scratch list and the free inodes in their list |
| FileSys.FileSystem.CollectFree | student-distrib/filesys.c:259-275 | the second loop leaves exactly the free blocks in the free list |
| FileSys.FileSystem.FreeListInit | student-distrib/filesys.c:234-278 | both lists and both lengths after start-up |
| FileSys.FileSystem.constructor | student-distrib/filesys.c:34-45 | a well-formed boot image gives a valid file system with those lists and the image's files and entries |
| FileSys.BootStoreInv | student-distrib/filesys.c:34-45 | the store that a well-formed image holds satisfies the invariant that all operations keep |
| FileSys.FileSystem.PopBlock | student-distrib/filesys.c:288-296 | the length always goes down by one; the result is the last free block, or -1 once the length is negative |
| FileSys.FileSystem.PopInode | student-distrib/filesys.c:306-314 | the same for inodes, and the list without its last entry |
| FileSys.FileSystem.FillBlock | student-distrib/filesys.c:210-215 | the bytes copied into one block, how many, and no other byte of the disk changed |
| FileSys.LandedStep | student-distrib/filesys.c:207-215 | filling one more block keeps all earlier bytes of the write in place and touches only popped blocks |
| FileSys.FileSystem.StoreBlock | student-distrib/filesys.c:205-215 | one turn of the write loop links the popped block into the inode and extends the bytes stored |
| FileSys.FileSystem.WriteTurn | student-distrib/filesys.c:201-221 | one turn of the loop pops, links and fills a block, and goes on unless the blocks or the bytes ran out |
| FileSys.FileSystem.WriteBlocks | student-distrib/filesys.c:200-222 | the loop pops as many blocks as are needed and free, links them in order, and stores the bytes that fit |
| FileSys.WriteRefines | student-distrib/filesys.c:167-223 | the in-place effect of a write on inodes and disk is a write step of the abstract store, other files untouched |
| FileSys.FileSystem.WriteData | student-distrib/filesys.c:167-223 | every call is a write step, error cases included, and keeps the file system valid |
| FileSys.FileSystem.CopyOut | student-distrib/filesys.c:135-155 | the block-crossing copy loop delivers the file's bytes from the offset on and leaves the rest of the buffer alone |
| FileSys.FileSystem.ReadData | student-distrib/filesys.c:120-156 | result and buffer are the reply of the abstract store, and nothing but the buffer changes |
| FileSys.FileSystem.Strncmp | student-distrib/lib.c:777-791 | zero exactly when the stored name, up to its terminator or 32 characters, is the given one |
| FileSys.FileSystem.ReadDentryByName | student-distrib/filesys.c:56-80 | the first entry of that name, or -1, and -1 for a name over 32 characters |
| FileSys.FileSystem.Strncpy | student-distrib/lib.c:814-825 | the string up to its terminator or the count, then NULs, and no byte beyond the count |
| FileSys.FileSystem.ReadDentryByIndex | student-distrib/filesys.c:91-107 | the entry at an index; with an unsigned bound, any index in an empty directory |
| FileSys.FileSystem.FileCreate | student-distrib/filesys.c:316-352 | a new regular entry with the name cut at a newline and the last free inode; -1 without change when the directory or the inode list is exhausted |
| FileSys.FileSystem.ShiftDown | student-distrib/filesys.c:541-543 | the shifting loop removes exactly the entry found and keeps the order of the others |
| FileSys.FileSystem.FileRemove | student-distrib/filesys.c:534-546 | the first entry of that name is removed, or -1; files, blocks and inodes are not released |
| FileSys.FileSystem.Perform | student-distrib/filesys.c:120-352 | any of the four operations on the image is a step of the abstract store |
| FileStore.WriteKeepsExclusive | student-distrib/filesys.c:199-223 | a write, short ones included, keeps every block free, or owned once, or neither |
| FileStore.StepKeepsInv | student-distrib/filesys.c:120-352 | every operation keeps block and inode exclusivity and the directory's invariant |
| FileStore.RunKeepsInv | student-distrib/filesys.c:120-352 | so does every run |
| FileStore.ListsConserved | student-distrib/filesys.c:288-314 | over every run each free list at the start is what is left followed by everything handed out, last first |
| FileStore.BlocksHandedOutOnce | student-distrib/filesys.c:288-296 | no block is handed out twice, nor one that a file owned at the start |
| FileStore.InodesHandedOutOnce | student-distrib/filesys.c:306-314 | no inode number is handed out twice, nor one that a regular entry had at the start |
| FileStore.WriteAtStart | student-distrib/filesys.c:190-222 | a write at offset 0 reports min(length, 4096 * free blocks), and that prefix of the buffer is what the file then holds |
| FileStore.WriteAnywhere | student-distrib/filesys.c:167-223 | a write at any offset: how many bytes it stores, the length, the blocks it takes, and that nothing else changes |
| FileStore.WriteAnywhereBytes | student-distrib/filesys.c:193-214 | where its bytes land, and which bytes of the file stay |
| FileStore.Refusals | student-distrib/filesys.c:122-132 | reads and writes are refused with -1 for an inode out of range and with 0 for an offset beyond the file |
| FileStore.ReadsLastWrite | student-distrib/filesys.c:120-223 | in every run a read finds what the last write to its file stored, all of the buffer or as much as the free blocks held, whatever other operations came between |
| FileStore.UntouchedSince | student-distrib/filesys.c:120-352 | a file that no write names is unchanged over any stretch of a run |
| FileStore.CreatedIsFound | student-distrib/filesys.c:316-352 | a created file is found under its name if and only if that name was new; otherwise the older entry is found |
| FileStore.RemoveUndoesCreate | student-distrib/filesys.c:534-546 | removing the name takes back the entry just created, though not its inode, if and only if the name was new |
| FileStore.RemoveIsExact | student-distrib/filesys.c:534-546 | a removal takes out the first entry of its name and no other: every other name is found as before, and that name at its next entry |
| FileStore.CreateIsExact | student-distrib/filesys.c:316-352 | a create appends a regular entry of that name with the last free inode number, or is refused when the directory is full or no number is left |
| FileStore.AppendsOnlyAtZero | student-distrib/filesys.c:190-194 | writing at the end of a file appends if and only if the file is empty |
| FileStore.ReadBackOnlyAtZero | student-distrib/filesys.c:190-214 | a nonempty write for which there is space is read back at its own offset if and only if that offset is 0 |
| FileStore.TrimIs | student-distrib/lib.c:777-791 | comparing up to the first difference or terminator decides equality of names |
| Descriptors.ReadCallsMakeUpTheFile | student-distrib/systemcall.c:489-527 | for every sequence of sizes the buffers that read calls return concatenate to the file's bytes from the position on |
| Descriptors.ReadCallEmptyOnlyAtTheEnd | student-distrib/systemcall.c:489-527 | a read call of a positive size returns nothing exactly when everything has been returned |
| Descriptors.ReadOnFile | student-distrib/filesys.c:382-409 | one read call returns the bytes at the position, as many as were asked for or are left, and advances the position by them |
| Descriptors.OpenCases | student-distrib/systemcall.c:366-418 | when open is refused, which descriptor it takes, and what a name not in the directory becomes |
| Descriptors.CloseCases | student-distrib/systemcall.c:453-481 | close frees and clears one descriptor of a file in use, and is refused otherwise |
| Descriptors.ReadCases | student-distrib/systemcall.c:489-527 | which reads are refused, and that a read changes one descriptor's position only |
| Descriptors.FileReadCases | student-distrib/filesys.c:382-409 | a read of a file answers as the store does and moves the position by the answer |
| Descriptors.DirectoryReadCases | student-distrib/filesys.c:485-524 | a read of a directory gives the name at the position, cut to the count, or nothing at the end, or is refused beyond it |
| Descriptors.WriteCases | student-distrib/systemcall.c:535-573 | which writes are refused, what a device answers, and that a file still to be created is created first |
| Descriptors.FileWriteCases | student-distrib/systemcall.c:561-567 | a write to a file is a write of the store at the position, which moves by twice the bytes stored |
| Descriptors.WriteUncreated | student-distrib/systemcall.c:556-567 | a write to a file that cannot be created is refused |
| Descriptors.OpenExisting | student-distrib/systemcall.c:410-441 | a name in the directory is opened on the table of its own kind, at the start, or not at all for an unknown kind |
| Descriptors.OpenedOnDirectory | student-distrib/systemcall.c:425-427 | a directory opened by name is where a listing starts |
| Descriptors.OpenedOnClock | student-distrib/systemcall.c:422-424 | reads and writes of the clock opened by name are answered by the device |
| Descriptors.NewFileRoundTrip | student-distrib/systemcall.c:366-573 | open of a new name, write, open again and any sequence of reads deliver the bytes written |
| Descriptors.WritesJoinOnlyIfEmpty | student-distrib/systemcall.c:563-567 | space permitting, two writes through one descriptor make up the file if and only if one of them is empty |
| Descriptors.SecondWrite | student-distrib/systemcall.c:563-567 | what each of two writes reports, and the length afterwards: the second stores nothing unless the first was empty, and cuts the file exactly if at most half of the first could be stored |
| Descriptors.OpenThenClose | student-distrib/systemcall.c:395-471 | a descriptor opened and closed again is the next one handed out, and the others are untouched |
| Descriptors.Process.constructor | student-distrib/systemcall.c:59-72 | the terminal's two descriptors are busy, the others free |
| Descriptors.Process.FindFd | student-distrib/systemcall.c:395-408 | the lowest free descriptor, or -1 |
| Descriptors.Process.Open | student-distrib/systemcall.c:366-445 | the descriptor's table, inode and position for the entry found, or the name kept for the first write; the error cases |
| Descriptors.Process.Close | student-distrib/systemcall.c:453-481 | the entry is freed and cleared, or -1 without change |
| Descriptors.Process.Read | student-distrib/systemcall.c:489-527 | a read returns what its file, directory or device answers and advances the position; the error cases; a file not yet created is closed |
| Descriptors.Process.Write | student-distrib/systemcall.c:535-573 | a file not yet created is created, the write is a step of the store at the current position, and the position afterwards; devices and error cases |
| Descriptors.Process.CloseAll | student-distrib/systemcall.c:315-319 | every descriptor of a halting process is freed |
| Descriptors.Process.AdvanceTwice | student-distrib/filesys.c:445 | the position after a write, advanced by file_write and again by write |
| Descriptors.Process.DirRead | student-distrib/filesys.c:485-524 | one name, cut to the count and terminated, and the position on the next entry |
| Descriptors.Ls | syscalls/ece391ls.c:18-27 | the loop ends and writes a line for each name, in order, up to the first empty one |
| Descriptors.LsMain | syscalls/ece391ls.c:8-28 | the whole program, from opening "." on |
| Descriptors.ListingIsComplete | syscalls/ece391ls.c:18-27 | that listing is complete if and only if no name is empty |
| Descriptors.CreatedName | student-distrib/systemcall.c:385-417 | the name a new file gets through open and the first write, empty if and only if it was opened under a name that begins with a newline |
| Descriptors.Cat | syscalls/ece391cat.c:21-28 | the loop ends and writes out exactly the file |
| Processes.LaunchKeepsChains | student-distrib/systemcall.c:170-208 | execute keeps the chain invariant: the new process stands on the one that parent_array names |
| Processes.HaltKeepsChains | student-distrib/systemcall.c:267-311 | halt takes the top process off its chain and keeps the invariant |
| Processes.LaunchIsExact | student-distrib/systemcall.c:170-208 | execute in full: the refusals, the number, the slots written and the control block |
| Processes.HaltIsExact | student-distrib/systemcall.c:267-311 | halt in full: a root stays, another process gives its place to its parent |
| Processes.TickIsExact | student-distrib/pit.c:25-63 | a tick in full: the next live terminal of the two others, or the same one, with its top process mapped and its kernel stack; the tables stay |
| Processes.ShiftIsExact | student-distrib/terminal.c:229-305 | a shift in full: a live terminal is displayed and nothing else changes, a new one gets a shell, a refused shell leaves everything as it was |
| Processes.TickKeepsChains | student-distrib/pit.c:34-43 | the scheduler leaves the chains alone |
| Processes.ShiftKeepsChains | student-distrib/terminal.c:229-305 | terminal_shift starts a one-process chain on a new terminal, or changes no chain, failures included |
| Processes.StepKeepsInv | student-distrib/systemcall.c:170-322 | every step keeps the process-chain invariant |
| Processes.Run | student-distrib/systemcall.c:170-322 | so does every run of steps, with no condition on which terminal is displayed |
| Processes.BootInv | student-distrib/kernel.c:174-176 | the first shell gives a state with the invariant and the right mapping |
| Processes.MappingAfter | student-distrib/systemcall.c:184-331 | the mapping after every event, whatever it was before |
| Processes.DisplayAfter | student-distrib/terminal.c:229-275 | which terminal is displayed and which runs after every event |
| Processes.StepKeepsMapped | student-distrib/systemcall.c:184-331 | execute, halt and pit_handler compute the same mapping by three formulas; it follows the running process after a step if and only if that is not a successful launch from a terminal that is not shown |
| Processes.HiddenLaunchIsReached | student-distrib/systemcall.c:184-208 | such a launch is reached from the first shell by a shift and a tick, and leaves the mapping wrong |
| Processes.MappedInEveryRun | student-distrib/pit.c:44-63 | the mapping follows the running process through every run without such launches |
| Processes.RegionsApart | student-distrib/systemcall.c:36-38 | kernel stacks and user frames of distinct processes never overlap |
| Processes.CallerIsParent | student-distrib/systemcall.c:203-208 | a launched process's parent is its caller exactly if the caller's terminal is shown and parent_array names the caller |
| Processes.HaltForgetsTheCaller | student-distrib/systemcall.c:305-306 | after a halt parent_array names the resumed process exactly if that is a root |
| Processes.StepLoses | student-distrib/systemcall.c:170-322 | for every event, no process is lost by it if and only if it is not a launch while parent_array does not name the process on top of the displayed terminal |
| Processes.RunLoses | student-distrib/systemcall.c:170-322 | for every run, no process is lost at its end if and only if there was no such launch in it |
| Processes.LossesFromBoot | student-distrib/systemcall.c:170-322 | that holds of every run from the first shell |
| Processes.LaunchStrandsTheCaller | student-distrib/systemcall.c:204-208 | such a launch takes that process out of every chain while it stays busy, and no other launch does |
| Processes.LaunchStrandsForGood | student-distrib/systemcall.c:171-311 | in every run after such a launch that number stays busy and in no chain |
| Processes.StrandingIsReached | student-distrib/systemcall.c:170-322 | the first shell running two programs, the second of which halts, is such a state |
| Processes.StrandedInEveryRun | student-distrib/systemcall.c:171-311 | such a process is never released and never reused, in any run |
| Processes.RoundRobin | student-distrib/pit.c:34-37 | among any consecutive ticks, as many as there are live terminals, each live terminal runs exactly once |
| Processes.TicksDecide | student-distrib/pit.c:34-43 | in every run that starts no terminal the running terminal is the one its ticks alone select |
| Processes.Kernel.constructor | student-distrib/systemcall.c:5-8 | the initial tables with the first shell executed |
| Processes.Kernel.AllocateId | student-distrib/systemcall.c:170-181 | the lowest free process number is found and marked busy, or -1 |
| Processes.Kernel.Install | student-distrib/systemcall.c:184-227 | the page entry, control block, tables and stack pointer for a new process |
| Processes.Kernel.Execute | student-distrib/systemcall.c:84-260 | the launch step on the kernel's variables, chains kept |
| Processes.Kernel.Halt | student-distrib/systemcall.c:267-311 | the halt step on the process tables and the mapping, chains kept; the descriptors are Descriptors.Process.CloseAll |
| Processes.Kernel.NextTerminal | student-distrib/pit.c:34-37 | the skip loop ends at the next live terminal |
| Processes.Kernel.PitHandler | student-distrib/pit.c:25-47 | the tick step on the process tables, the page entry and tss.esp0, chains kept; video memory is Terminals.Console.PitSwitch |
| Processes.Kernel.TerminalShift | student-distrib/terminal.c:229-305 | the shift step on the kernel's variables, chains kept, everything put back when no shell can be started |
| Grep.DoOneFile | syscalls/ece391grep.c:9-66 | the writes are the four-part announcements of exactly the selected pieces, in order; each failure of open, read or close gives -1 and its message, a read after a prefix of them |
| Grep.ScanFile | syscalls/ece391grep.c:20-60 | the outer loop accounts for the whole file, however lines straddle the buffer, or for a prefix when a read fails, and ends |
| Grep.ScanBuffer | syscalls/ece391grep.c:28-57 | the inner loop accounts for what is in the buffer; what it carries over still fits |
| Grep.ScanLine | syscalls/ece391grep.c:30-56 | one turn searches one line or carries over an incomplete one |
| Grep.Search | syscalls/ece391grep.c:42-51 | a line is selected exactly if the pattern is not empty and occurs in it |
| Grep.Strncmp | syscalls/ece391support.c:35-46 | zero exactly when the first n characters agree |
| Grep.StrcpyDown | syscalls/ece391support.c:14-17 | the overlapping downward copy moves the string and nothing beyond it |
| Grep.Emit | syscalls/ece391grep.c:41-51 | a selected line is announced by its four writes, an unselected one by none |
| Grep.ReportIs | syscalls/ece391grep.c:45-48 | for each selected line the four writes are the file name, a colon, the line and a newline |
| Grep.GrepIsTheFilter | syscalls/ece391grep.c:20-60 | the output is the filter over whole lines if and only if every selected line fits the buffer |
| Grep.EmptyPattern | syscalls/ece391grep.c:42-44 | the selection is the plain substring filter exactly if the pattern is not empty or the file is |
| Grep.LinesJoin | syscalls/ece391grep.c:30-32 | the lines of a file are the only ones without newlines that make it up when joined by newlines |
| Screen.ScreenShowsTranscript | student-distrib/lib.c:253-346 | for every stream without backspace the cells are the last 25 rows of the wrapped transcript, padded with blanks, with the cursor at its end |
| Screen.TypeShows | student-distrib/lib.c:323-344 | one character moves the window with the transcript |
| Screen.NewLineShows | student-distrib/lib.c:453-465 | a new line, scrolling or not, appends an empty row |
| Screen.RowsOfSnoc | student-distrib/lib.c:335-344 | the wrapped transcript, defined line by line, grows one character at a time at its end |
| Screen.EveryStreamStaysOnPage | student-distrib/lib.c:253-348 | on a screen of its own every stream, backspaces included, writes to the 2000 cells only |
| Screen.EraseStaysOnPage | student-distrib/lib.c:270-322 | a backspace writes to one of the 2000 cells if and only if the cursor is not above the first row, nor at the first cell in a line that overflow began |
| Screen.FlagMatters | student-distrib/lib.c:270-322 | the two kinds of line make a difference to a backspace exactly in the first two columns |
| Screen.RubOutBlanks | student-distrib/lib.c:270-322 | where a backspace takes the cursor, and the one cell it blanks |
| Screen.RubOutTakesBack | student-distrib/lib.c:270-322 | a backspace takes back the character before it, cursor included, unless that is the first one of a line that overflow began |
| Screen.FlagAfterPut | student-distrib/lib.c:257-344 | what each character makes of enter_or_overflow |
| Screen.FlagTellsOverflow | student-distrib/lib.c:257-344 | on a screen of its own it is zero exactly if the line being typed has filled a row |
| Screen.NulMatters | student-distrib/lib.c:355-360 | a character acts in the background as it would on screen if and only if it is not NUL |
| Terminals.StepActs | student-distrib/terminal.c:112-343 | what every event makes of each terminal's screen, cursor and keyboard buffer, whichever terminal is displayed and wherever video memory is mapped |
| Terminals.StepIsolated | student-distrib/terminal.c:112-343 | an event leaves a terminal that it is not about as it was, if and only if it is not a prompt from the background that breaks the line of the displayed one |
| Terminals.ShowActs | student-distrib/terminal.c:311-343 | shifting between live terminals changes no terminal's logical state |
| Terminals.StartActs | student-distrib/terminal.c:254-299 | a new terminal starts blank and the others are untouched; a failed start changes nothing |
| Terminals.WriteActs | student-distrib/terminal.c:112-148 | what output makes of the running terminal and of the displayed one: from the front, from the background, and under the wrong mapping |
| Terminals.KeyIsDrawn | student-distrib/keyboard.c:464-506 | what each key draws on the displayed screen: a character while there is room, a new row for Enter, a rubbed-out cell for backspace |
| Terminals.WhereItStands | student-distrib/terminal.c:311-343 | a terminal's screen is page 0 if it is displayed and its own page otherwise |
| Terminals.BackgroundNewline | student-distrib/terminal.c:123-125 | the newline before a background prompt moves the displayed cursor, and the prompting terminal's rows when that cursor is on the last row |
| Terminals.PutAllRunningIs | student-distrib/terminal.c:127-137 | the loop of terminal_write is the stream put on the page that is mapped, at the running terminal's cursor |
| Terminals.EachTerminalReplaysItsOwn | student-distrib/terminal.c:112-343 | in every run each terminal's screen is what happened to this terminal made of a blank one |
| Terminals.EachTerminalShowsItsOwn | student-distrib/terminal.c:112-343 | and if it was only typed on, without a backspace, the window on its own transcript |
| Terminals.HarmlessIsOnItsOwn | student-distrib/lib.c:270-322 | with backspaces it shows what it would show with a flag of its own, as long as the shared one does no harm |
| Terminals.MappingBreaks | student-distrib/terminal.c:254-306 | from the right mapping, an event leaves it wrong if and only if it shows the running terminal or fails to start a new one while the running terminal is displayed |
| Terminals.MappingAfter | student-distrib/terminal.c:254-306 | the mapping after every event, whatever it was before |
| Terminals.PlacedInEveryRun | student-distrib/pit.c:49-57 | without those two events output is placed right through every run |
| Terminals.MisplacedIsReached | student-distrib/terminal.c:254-306 | the wrong mapping is reached from the start, in one event and in three |
| Terminals.OffPageIsReached | student-distrib/lib.c:270-322 | so is the state in which a backspace leaves the page |
| Terminals.OutputMissesTheScreen | student-distrib/terminal.c:306 | with that mapping the running terminal's output leaves the displayed cells unchanged, while ordinary characters move the cursor |
| Terminals.Console.constructor | student-distrib/terminal.c:203-222 | the state before the first shell, terminal 1 blank and displayed |
| Terminals.Console.CleanOneLine | student-distrib/lib.c:488-502 | one row is blanked and no other cell changes |
| Terminals.Console.Scroll | student-distrib/lib.c:458-462 | the rows move up by one and the last is blank |
| Terminals.Console.Erase | student-distrib/lib.c:270-322 | the two backspace branches, with the source's remainders |
| Terminals.Console.PutcModf | student-distrib/lib.c:253-348 | one character at the screen's cursor, on the page that is mapped |
| Terminals.Console.PutcBackstage | student-distrib/lib.c:355-449 | one character, or a backspace, at the running terminal's saved cursor |
| Terminals.Console.TerminalWrite | student-distrib/terminal.c:112-148 | the prompt's newline, then each character by the routine that its terminal calls for |
| Terminals.Console.KeyboardHandler | student-distrib/keyboard.c:406-510 | a character, backspace or Enter is stored or taken back, echoed on the screen, and the mapping set again; a backspace on an empty line does nothing |
| Terminals.Console.TerminalStore | student-distrib/terminal.c:311-326 | cursor, keyboard buffer and page are saved |
| Terminals.Console.TerminalLoad | student-distrib/terminal.c:328-343 | and brought back |
| Terminals.Console.Clear | student-distrib/lib.c:68-84 | all cells blank, cursor at the origin |
| Terminals.Console.TerminalShift | student-distrib/terminal.c:229-309 | the shift step, for live terminals and for new ones |
| Terminals.Console.PitSwitch | student-distrib/pit.c:34-57 | the running terminal and the page its output goes to |
| LineEditor.ReadDeliversTheLine | student-distrib/terminal.c:47-103 | after any printable keys and backspaces, Enter and a read deliver the first num bytes of the edited line with its newline, all of it for a negative num, and the buffer is clean again |
| LineEditor.BufferHoldsTheLine | student-distrib/keyboard.c:406-506 | the buffer up to the index is the edit fold of the keys, capped at 127, whatever stale characters follow |
| LineEditor.SessionDeliversEachLine | student-distrib/terminal.c:47-103 | over a whole session every reader gets its own line |
| LineEditor.TypedTooSoon | student-distrib/keyboard.c:475-505 | a key between Enter and the read leaves the line intact exactly if it equals the character it overwrites |
| LineEditor.KeyboardBuffer.Handle | student-distrib/keyboard.c:406-506 | one key on the buffer in place |
| LineEditor.KeyboardBuffer.DetectEnter | student-distrib/terminal.c:157-182 | the first line end and its position |
| LineEditor.KeyboardBuffer.TerminalRead | student-distrib/terminal.c:47-103 | the bytes delivered, the count, the cleared buffer, and no byte of the destination beyond them |
| Blink.AddFindRemove | fish/blink.S:105-237 | a record just added is found first at its location, and removing it takes back the add |
| Blink.AddIsExact | fish/blink.S:105-184 | when an add is refused, and the record it enters in front of all others |
| Blink.RemoveIsExact | fish/blink.S:187-237 | a remove takes out the first record at its location and no other |
| Blink.SyncCopies | fish/blink.S:268-275 | the timing of the first record at one location is copied to the first at the other, and nothing else |
| Blink.SyncRefuses | fish/blink.S:240-262 | nothing is copied if a record is missing |
| Blink.DrawsTheNewFace | fish/blink.S:64-86 | a tick draws exactly when the face changes, and the face that begins |
| Blink.AddElsewhere | fish/blink.S:159-162 | a record added elsewhere hides nothing |
| Blink.RemoveUncovers | fish/blink.S:206-217 | removing brings the next older record at that location to light |
| Blink.LocationsAreStacks | fish/blink.S:49-300 | over every run of add, remove, sync and tick that enters no record for location 0, the records at one location are a stack of the adds not yet removed, and find shows its top |
| Blink.AddThreads | fish/blink.S:159-162 | linking a free cell in front keeps list and pool in agreement |
| Blink.RemoveThreads | fish/blink.S:206-222 | unlinking and clearing a cell keeps them in agreement and removes that record only |
| Blink.AddBreaksAtZero | fish/fish.c:160-170 | entering a record keeps the agreement if and only if its location is not zero |
| Blink.ZeroIsReused | fish/blink.S:159-162 | the cell of a record for location 0 is handed out again and linked to itself, so that no list ends |
| Blink.FullPool | fish/fish.c:160-170 | the pool is full exactly when the list has 2000 records |
| Blink.FaceLasts | fish/blink.S:64-86 | for every countdown, how many ticks a face lasts and what follows |
| Blink.LastsAsSaid | fish/blink.S:64-66 | a face lasts as many ticks as its countdown says if and only if that is from 1 to 0x8000 |
| Blink.BlinkPeriod | fish/blink.S:49-99 | for every pair of lengths a record repeats itself after one face of each |
| Blink.BlinkList.Malloc | fish/fish.c:160-170 | the first free cell, or NULL only when there is none |
| Blink.BlinkList.Add | fish/blink.S:105-184 | the record is entered in front, or -1 for a bad location or a full pool; the list stays sound unless the location is zero |
| Blink.BlinkList.FindHelper | fish/blink.S:351-379 | the most recently added record at a location |
| Blink.BlinkList.FindPrev | fish/blink.S:206-212 | the predecessor walk ends at the link to the cell |
| Blink.BlinkList.Remove | fish/blink.S:187-237 | exactly the found record is removed and its cell cleared, or -1 |
| Blink.BlinkList.Find | fish/blink.S:302-349 | the record found, or -1 |
| Blink.BlinkList.Sync | fish/blink.S:240-300 | lengths, countdown and status are copied; the off character is drawn whatever the status |
| Blink.BlinkList.Tasklet | fish/blink.S:49-99 | every record has one tick, the list is unchanged, and the faces that change are drawn |
| Blink.BlinkList.Perform | fish/blink.S:49-300 | any operation on the pool is a step on the records, and leaves list and pool in agreement unless it enters a record for location 0 |
| Blink.BlinkList.PerformAll | fish/blink.S:49-300 | so does any run that enters no such record, and every location is then a stack |
| Numbers.NumeralDenotes | student-distrib/lib.c:549-579 | for every value and radix 2 to 36 the digits have no superfluous leading zero and evaluate back to the value |
| Numbers.NumeralOfValue | student-distrib/lib.c:549-579 | every digit string without superfluous zeros is the numeral of its value |
| Numbers.DigitsFit | student-distrib/lib.c:567-572 | a number below the k-th power of the radix has at most k digits |
| Numbers.PaddedDenotes | student-distrib/lib.c:143-153 | the eight padded hexadecimal digits denote the number |
| Numbers.Strrev | student-distrib/lib.c:585-598 | the string is reversed in place and nothing else changes |
| CLib.ReverseTwice | student-distrib/lib.c:585-598 | reversal is an involution |
| Numbers.PutDigits | student-distrib/lib.c:567-572 | the loop writes the digits lowest first |
| Numbers.Itoa | student-distrib/lib.c:549-579 | the buffer holds the NUL-terminated numeral, and nothing beyond it changes |
| Numbers.PadHex | student-distrib/lib.c:143-153 | the string printed is the numeral padded to eight digits |
| Rtc.AcceptedFrequencies | student-distrib/rtc.c:125-130 | the accepted arguments are the powers of two up to 1024, zero, and the most negative integer |
| Rtc.ExactDivider | student-distrib/rtc.c:132 | for an accepted nonzero frequency, divider times frequency is 1024 exactly if the frequency is positive |
| Rtc.RaisesExactly | student-distrib/rtc.c:22-28 | from every state, n ticks raise a lowered flag first when the counter runs out and then once every rtc_ct ticks |
| Rtc.FlagOnlyRises | student-distrib/rtc.c:22-28 | a tick raises the flag when the counter runs out and never lowers it |
| Rtc.FrequencyDelivered | student-distrib/rtc.c:22-132 | 1024 ticks from a reload raise it exactly as often as the frequency says |
| Rtc.Clock.Handler | student-distrib/rtc.c:15-28 | one tick of the 32-bit counter |
| Rtc.Clock.Write | student-distrib/rtc.c:114-134 | the new divider, the refusals, and the fault for zero |

## Left out

- Writes at a nonzero offset have no sequential contract in the code; `WriteStep` describes them, and `AppendsOnlyAtZero` and `ReadBackOnlyAtZero` say what is missing.
- Descriptors.Process.Read: what a device does behind its descriptor is a parameter; `LineEditor`, `Terminals` and `Rtc` describe the devices.
- Descriptors.Process.Write: likewise.
- The second lookup of the name by the opened file's own `open` routine, which always succeeds there.
- Argument parsing, the executable's header and its loading in `execute`: whether a program can be loaded is a parameter.
- Processes.Kernel.Halt: the descriptors are freed by a method of their own, `Descriptors.Process.CloseAll`.
- Processes.Kernel.PitHandler: video memory is remapped by a method of its own, `Terminals.Console.PitSwitch`.
- Saved registers, `iret` frames and TLB flushes: each handler is one step. The branch of `halt` for a process that is its own parent and is not restarted (`systemcall.c:307`) cannot be reached and is not in the method.
- Arithmetic wrap-around of the two free-list lengths after about two billion failed pops.
- The colour bytes of the screen and the hardware cursor.
- What a backspace that leaves the page overwrites.
- Whether the bytes after a short output buffer happen to continue a prompt.
- Tab completion, command history, Ctrl-L and the scancode tables of the keyboard handler.
- Device set-up, paging set-up, multiboot, signals, the Linux emulation and the other user programs.
