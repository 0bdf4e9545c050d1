# A model of the House AM kernel and its programs

A small x86 teaching kernel, its user programs and their emulation layer, modelled in Dafny 4.11.
Code that updates memory step by step is modelled by classes and arrays with loops and frames; what
it should compute is a function on values, and the theorems are about those functions and about
whole runs. `dafny verify dfyconfig.toml` checks everything.

- `FileSystem`, `Directory`, `Descriptors`, `Loader`: the read-only image, `read_data` over block
  tables, name lookup, the descriptor table of a process, and the program loader. One flat byte
  sequence per file (`File`) is the specification of all of them.
- `Grep`, `GrepExact`, `GrepReports`, `GrepProgram`: the grep program running on those system calls, with its
  1024-byte buffer; which pieces of a file it searches, and when its output is the report on the file.
- `Blink`, `BlinkDriver`, `BlinkTiming`, `Frames`: the blink list of the fish program in its fixed
  pool, its timing, and the merging of two picture files.
- `Processes`, `Nesting`: process slots, address layout, commands, and every run of execute and halt.
- `Console`, `ScreenLog`, `LineEditor`, `Terminals`: the screen, the line buffer, three terminals.
- `Numbers`, `Memory`, `Emulator`: number printing, memory routines, command lines under Linux.

Integers are unbounded; 16-bit fields of the blink structure, the 32-bit range of printed numbers,
the remainder of C on a negative column and signed comparisons are written out. Bytes are 0..255.
Memory is arrays, pointers are indices, assembly routines are loops. Devices are parameters or
answers: a read handed to the terminal driver answers `Device`, a null or wild pointer `Fault`.

## Properties that hold under an exact condition

- Streaming grep is whole-file grep for every pattern exactly when no line exceeds 1024 bytes
  (`GrepProgram.StreamingIsExact`).
- What grep searches are the file's pieces exactly when no line is altered while it is carried and none is
  cut at a newline the uninitialised buffer held (`GrepExact.SearchedIff`). For files without NULs and a
  newline in the buffer's last byte this is a condition on the first 1024-byte chunk that does not end in a
  newline (`GrepReports.StaleNewlineIff`); for files with NULs see `GrepReports.NulIff`.
- For a file whose first block number is in range, the loading loop ends exactly when the table entries 0 to
  length/4096 inclusive are in range (`Loader.LoaderTerminatesIff`); otherwise `file_read` moves its
  position back (`Descriptors.UnsoundReadMovesBack`).
- A walk that stops at an empty answer lists every entry exactly when no counted name is empty
  (`Descriptors.WalkListsAll`).
- A base shell that halts and cannot be loaded leaves the slots in order exactly when slot 0 is its own parent
  and was entered from its own stack, as it is after booting in zeroed memory (`Nesting.BaseHaltIff`).
- An add keeps the blink pool consistent exactly when its location is not 0
  (`Blink.AddKeepsShapeIff`); after one at 0 the next add ties a loop (`Blink.ZeroLocationLoops`).
- The picture of the fish program adds nothing at location 0 exactly when no drawn cell's location is divisible by
  65536 (`Frames.FramesAvoidZero`).
- A sync redraws the right character exactly when the source is off or the target's characters agree
  (`BlinkTiming.SyncRedraw`).
- `putc` keeps the screen a window on the log exactly when it does not print in the last cell
  (`ScreenLog.PutShowsIff`).
- A read returns the line and one newline exactly when the line did not come back from full to 126
  characters (`LineEditor.EnterThenRead`).
- A program finds the argument of its command exactly when the command has a space or the field was
  empty (`Processes.ArgumentArrives`).
- The emulated `getargs` writes one byte past its buffer exactly when a copied argument ends at the
  buffer's end (`Emulator.GetArgs`).
- Lookup gives every listed entry back exactly when no name occurs twice
  (`Directory.LookupInvertsListing`).

The repository's README.md speaks of an ext2 file system; the code reads a flat image, and so does
the model. The comment on `dir_read` promises to honour the byte count; the code always writes 32
bytes, and so does the model.

## Model

| member | source | states |
|---|---|---|
| `FileSystem.ReadData` | student-distrib/filesystem.c:90-132 | -1 exactly when the inode or a block the read enters is out of range, counting the block entered just before the end-of-file test; otherwise the bytes asked for, cut at the end; `buf` gets the file bytes copied before that point and nothing else changes |
| `FileSystem.SoundReads` | student-distrib/filesystem.c:90-132 | on a sound inode no read inside the file fails and every delivered byte is the flat file's byte |
| `FileSystem.ReadSlice` | student-distrib/filesystem.c:90-132 | `read_data` refines the flat file: the count, the slice in place, the rest of the buffer untouched |
| `FileSystem.FileIsBlocks` | student-distrib/filesystem.c:90-132 | the file is the first `length` bytes of its data blocks, joined in the order of the table |
| `Directory.Lookup` | student-distrib/filesystem.c:28-68 | the first of the counted entries whose NUL-or-32-bounded name is the query; no earlier one has it |
| `Directory.BoundedLength` | student-distrib/filesystem.c:38-48 | the name length: up to the NUL, at most 32 |
| `Directory.StrNCmp` | student-distrib/lib.c:433-447 | on any two buffers that hold n bytes or a NUL: zero exactly when they agree in n bytes or up to a common NUL, otherwise the signed difference at the first unequal byte |
| `Directory.StrNCpy` | student-distrib/lib.c:470-481 | the name, padded with NULs to 32 bytes, and no other byte |
| `Directory.PaddedName` | student-distrib/lib.c:470-481 | a padded name cut at its NUL is the name again, and every byte behind it is a NUL |
| `Directory.ReadDentryByName` | student-distrib/filesystem.c:28-68 | the search loop returns a copy of the first entry of that name, or fails |
| `Directory.LookupFinds` | student-distrib/filesystem.c:28-68 | lookup fails exactly when no entry has the name, and finds no later entry than any of that name |
| `Directory.LookupInvertsListing` | student-distrib/filesystem.c:203-230 | looking up every listed name gives its own entry exactly when names are distinct |
| `Descriptors.LowestFree` | student-distrib/system_call.c:268-276 | the lowest descriptor of 2..7 with flags 0; all below it are taken |
| `Descriptors.Pcb.SysOpen` | student-distrib/system_call.c:263-302 | the whole new table and answer of an open, including the operations left as they were for an unknown file type |
| `Descriptors.Pcb.SysClose` | student-distrib/system_call.c:308-323 | the whole new table and answer of a close; what it leaves behind is `Descriptors.ClosedStaysDead` |
| `Descriptors.Pcb.FileRead` | student-distrib/filesystem.c:138-160 | on any image: the position, the answer and exactly the bytes left in the buffer, also by a read that fails at a block out of range |
| `Descriptors.Pcb.DirRead` | student-distrib/filesystem.c:203-230 | the next name, padded to 32 bytes, its length, and the position one further; 0 past the last entry |
| `Descriptors.Pcb.SysRead` | student-distrib/system_call.c:225-241 | on any table and image: dispatch by operations, the new table, the answer and exactly the bytes left in the buffer |
| `Descriptors.Pcb.SysWrite` | student-distrib/system_call.c:247-256 | files and directories refuse, the clock accepts, the table does not change |
| `Descriptors.RunKeepsTable` | student-distrib/system_call.c:225-323 | every reachable table: flags 0 or 1, free descriptors with null or directory operations, positions within their files |
| `Descriptors.StreamsDoNotInterfere` | student-distrib/system_call.c:225-323 | from any table with that descriptor free and over any interleaving of calls: what was received on an open file since its open is the file up to its position, and on an open directory its names in order, then nothing |
| `Descriptors.SoundFileRead` | student-distrib/filesystem.c:138-160 | inside a well-formed file a read delivers the next bytes of the flat file and moves the position by as many |
| `Descriptors.WalkListsAll` | student-distrib/filesystem.c:203-230 | a walk that stops at the first empty answer lists all names if and only if no counted name is empty |
| `Descriptors.EndOfFileStays` | student-distrib/filesystem.c:138-160 | at the end of a file every read gives 0 bytes through any run that does not close it |
| `Descriptors.ClosedStaysDead` | student-distrib/system_call.c:308-323 | in any run, from any table, after a close of a descriptor of 2..7 every read and write on it answers -1 with no data, whatever the count and the calls between, until an open returns it |
| `Descriptors.OpenedStays` | student-distrib/system_call.c:225-323 | from its open to its close a descriptor stays open on its entry, in step with all it has delivered, whatever other calls are made |
| `Descriptors.OpenFileReads` | student-distrib/system_call.c:225-302 | in any run each read on an open file delivers the next bytes behind all delivered since the open, as many as asked for or left; a write answers -1 |
| `Descriptors.OpenOthersAnswer` | student-distrib/system_call.c:225-302 | in any run an open directory delivers the name of the next entry, then nothing, and refuses writes; the clock answers 0 to both |
| `Descriptors.StandardCalls` | student-distrib/system_call.c:225-256 | descriptor 0 reads from and 1 writes to the terminal; every call with a descriptor or count out of range answers -1 and changes nothing |
| `Descriptors.OpenTakesLowest` | student-distrib/system_call.c:263-302 | open answers the lowest free descriptor, -1 exactly when all six are taken or the name is missing; it leaves it open at the start of the first entry of that name, with the operations of its type, and touches no other |
| `Descriptors.CloseReleases` | student-distrib/system_call.c:308-323 | close answers 0 exactly for an open descriptor, frees it and no other, and the next open gets it or a lower one |
| `Descriptors.UnsoundReadMovesBack` | student-distrib/filesystem.c:147-159 | the position moves back exactly when an entered block is out of range, and 0 bytes are reported |
| `Loader.LoadProgram` | student-distrib/system_call.c:179-192 | on a sound inode the loop ends with the counter at the file length and exactly the file in memory, for every length |
| `Loader.LoadChunk` | student-distrib/system_call.c:187-187 | one 100-byte read extends the loaded prefix by what is left, at most 100 |
| `Loader.NeverStops` | student-distrib/system_call.c:186-192 | with a bad table entry the position never passes that block and no read is ever empty |
| `Loader.LoaderTerminatesIff` | student-distrib/system_call.c:182-192 | for a readable first block the loop ends if and only if all entries up to length/4096 are in range |
| `Grep.StrCpyDown` | syscalls/ece391support.c:14-17 | the overlapping copy to the buffer's front moves the string and its NUL and nothing else |
| `Grep.PrefixEqual` | syscalls/ece391support.c:35-46 | comparing the pattern's length succeeds exactly when the bytes there begin with the pattern, NULs behind them or not |
| `Grep.StringAt` | syscalls/ece391support.c:19-22 | what is put out is the string up to its NUL |
| `Grep.SearchLine` | syscalls/ece391grep.c:40-51 | name, colon, the line up to its first NUL and newline, once, exactly if the pattern occurs anywhere in the line, beyond a NUL too; otherwise nothing |
| `Grep.FindEnd` | syscalls/ece391grep.c:30-32 | the first newline at or after the start, or the end of what was read |
| `Grep.CarryDown` | syscalls/ece391grep.c:33-39 | the unfinished line is at the front up to its first NUL; behind that the old bytes stay, their newlines overwritten |
| `Grep.CutLine` | syscalls/ece391grep.c:40-51 | one line is terminated in place and searched; nothing else in the buffer changes |
| `Grep.CutLines` | syscalls/ece391grep.c:28-57 | the loop searches the finished lines in order and stops before an unfinished one exactly when data was read, the line is not the first, and no newline lies behind it |
| `Grep.ScanLines` | syscalls/ece391grep.c:28-57 | the lines searched, the line carried, and no newline left in what was read |
| `Grep.ScanBuffer` | syscalls/ece391grep.c:28-57 | for any buffer content: the finished lines are searched, the unfinished one is searched or carried, and no newline is left in what was read |
| `Grep.Fill` | syscalls/ece391grep.c:22-27 | a read through the kernel appends the next bytes of the content, filling the buffer unless the content ends, and leaves the bytes behind |
| `Grep.ScanRead` | syscalls/ece391grep.c:27-57 | after a read the output so far plus the output still owed is what was owed before |
| `Grep.Round` | syscalls/ece391grep.c:21-60 | report so far plus report still owed is the same before and after a round |
| `Grep.GrepStream` | syscalls/ece391grep.c:20-60 | the outer loop ends, having put out all that was owed on the content |
| `Grep.OwedLaws` | syscalls/ece391grep.c:28-57 | the output on the pieces searched is what each round contributes and then what it leaves owed, for any content and any newlines left in the buffer |
| `Grep.DoOneFile` | syscalls/ece391grep.c:9-66 | for any file and any uninitialised buffer: open failure prints its message and changes nothing; otherwise it ends with 0, prints exactly the output on the pieces searched, and only the used descriptor changes and is free again |
| `GrepExact.PiecesWindow` | syscalls/ece391grep.c:28-57 | the lines that end inside a buffer are the first pieces of the text the buffer begins |
| `GrepExact.SearchedIff` | syscalls/ece391grep.c:20-60 | for any content and any buffer: the non-empty pieces searched are those of the file if and only if no carried line is altered and no line is cut at a left-over newline |
| `GrepReports.NulFreeRight` | syscalls/ece391grep.c:20-60 | a file without NULs, in a buffer whose last byte is no newline, is reported piece by piece, each matching piece once and in order |
| `GrepReports.StaleNewlineIff` | syscalls/ece391grep.c:33-39 | a file without NULs, in a buffer whose last byte is a newline: right for every name and pattern if and only if the first 1024-byte chunk that does not end in a newline is not full, or has no newline, or is followed by nothing or by a newline |
| `GrepReports.SplitExample` | syscalls/ece391grep.c:33-39 | a newline and 1024 equal bytes: a file on which that fails |
| `GrepReports.NulIff` | syscalls/ece391grep.c:33-51 | any file, in a buffer whose last byte is no newline: right for every name and pattern if and only if each piece has no NUL or nothing else, and no carried line is altered |
| `GrepReports.NulExample` | syscalls/ece391grep.c:33-51 | a four-byte file with a NUL whose second line is missed |
| `GrepReports.EmptyPattern` | syscalls/ece391grep.c:42-44 | an empty pattern would find exactly the lines with a NUL and print them up to it |
| `GrepProgram.ShortLinesSame` | syscalls/ece391grep.c:20-60 | with no line over 1024 bytes the streamed report is every matching line once, in order, and nothing else |
| `GrepProgram.LongLineDiffers` | syscalls/ece391grep.c:33-51 | a longer line has a one-byte pattern on which the two reports differ |
| `GrepProgram.LinesRejoin` | syscalls/ece391grep.c:30-32 | the lines are free of newlines, and with newlines between them they are the file |
| `GrepProgram.StreamingIsExact` | syscalls/ece391grep.c:20-60 | streaming equals whole-file grep for all names and patterns if and only if no line exceeds the buffer |
| `GrepProgram.NextName` | syscalls/ece391grep.c:84-91 | the directory read of the walk delivers the next entry's name |
| `GrepProgram.GrepEntry` | syscalls/ece391grep.c:89-93 | one entry contributes its file's output, or nothing for a leading dot, and leaves the walk where it was |
| `GrepProgram.Walk` | syscalls/ece391grep.c:84-96 | the walk ends with 0, having printed one report per listed entry in order |
| `GrepProgram.RunGrep` | syscalls/ece391grep.c:68-97 | without an argument 3, without a directory 2, otherwise grep ends with 0 and prints one report per listed entry in directory order, each the output for that entry's file, executables included |
| `GrepProgram.EntryReportIs` | syscalls/ece391grep.c:84-94 | in such a run the report of a file without NULs is its pieces' report, and with no line over 1024 bytes its matching lines, whatever the other files hold |
| `Blink.First` | fish/blink.S:351-379 | the newest node at a location |
| `Blink.FirstFree` | fish/fish.c:160-170 | the lowest slot with location 0 |
| `Blink.PoolFull` | fish/fish.c:160-170 | allocation fails exactly with 2000 nodes listed |
| `Blink.AddKeepsShapeIff` | fish/blink.S:131-162 | some well-formed list remains after an add if and only if the location is not 0 |
| `Blink.ZeroLocationLoops` | fish/blink.S:140-162 | an add after one at location 0 reuses the slot and links it to itself, so no walk of the list ends |
| `BlinkDriver.Driver.constructor` | fish/fish.c:28-28 | a cleared pool is the empty list |
| `BlinkDriver.Driver.Malloc` | fish/fish.c:160-170 | the lowest free slot, never a listed one; none exactly when 2000 are listed |
| `BlinkDriver.Driver.Add` | fish/blink.S:105-184 | for any location the memory it leaves; for a nonzero one the list with the new node in front and its character on the screen |
| `BlinkDriver.Driver.FindHelper` | fish/blink.S:351-379 | the walk ends at the newest node of the location, or at NULL |
| `BlinkDriver.Driver.FindPrev` | fish/blink.S:201-212 | the search ends at the cell that points to the node |
| `BlinkDriver.Driver.Unlink` | fish/blink.S:214-223 | the predecessor skips the node and its slot is zeroed |
| `BlinkDriver.Driver.TakeOut` | fish/blink.S:196-223 | that node and no other leaves the list, the pool stays consistent |
| `BlinkDriver.Driver.Remove` | fish/blink.S:187-237 | only the newest node of the location leaves the list; failure changes nothing |
| `BlinkDriver.Driver.Find` | fish/blink.S:302-349 | a copy of the newest node, or failure |
| `BlinkDriver.Driver.Sync` | fish/blink.S:240-300 | the target takes the source's times and phase; its cell shows its off character |
| `BlinkDriver.Driver.TickSlot` | fish/blink.S:64-86 | one node's 16-bit countdown, toggle and redraw |
| `BlinkDriver.Driver.TickWalk` | fish/blink.S:58-92 | the walk ends, having ticked each listed node once, newest first |
| `BlinkDriver.Driver.Tick` | fish/blink.S:49-99 | list and screen after a tick, with the pool's shape kept |
| `BlinkDriver.Driver.Perform` | fish/blink.S:101-103 | each operation does to pool and screen what it does to the list as a value |
| `BlinkDriver.RunAll` | fish/blink.S:49-379 | every run with nonzero locations keeps the pool consistent and equals the run on the list as a value |
| `BlinkTiming.ClosedForm` | fish/blink.S:64-86 | t ticks after its start a node is on iff t mod (a + b) < a, and its countdown lasts to the next change, for all 16-bit lengths |
| `BlinkTiming.NominalCountdown` | fish/blink.S:64-86 | for lengths 1..32768 the countdown is that distance |
| `BlinkTiming.RemoveUndoesAdd` | fish/blink.S:105-237 | find reports and remove takes out the node just added |
| `BlinkTiming.AddStarts` | fish/blink.S:105-184 | an add fails exactly for a location from 2000 on or 2000 nodes; otherwise the front node has the given location, characters and lengths, status 1 and the on length as countdown, and the cell shows the on character |
| `BlinkTiming.FindAndRemove` | fish/blink.S:187-237 | both fail exactly where no node is and then change nothing; otherwise they report and take out the newest there |
| `BlinkTiming.SyncExactly` | fish/blink.S:240-300 | a sync fails exactly when a location has no node; otherwise the target keeps its place, location and characters, takes the source's times and phase, no other node changes, and its cell shows its off character |
| `BlinkTiming.TogglesIff` | fish/blink.S:64-86 | a tick redraws exactly the nodes whose status it changes, which become their other character |
| `BlinkTiming.Track` | fish/blink.S:49-379 | one operation moves a node to this place of the list, ticked by a tick and otherwise unchanged, unless it removes or re-times it |
| `BlinkTiming.RunAges` | fish/blink.S:49-379 | a node that a run does not remove or re-time ages by exactly the ticks of the run, whatever else the run adds, removes and syncs, there or elsewhere |
| `BlinkTiming.RunKeepsOrder` | fish/blink.S:131-237 | nodes never change places |
| `BlinkTiming.BlinkOnTime` | fish/blink.S:49-99 | inside any run a started node not removed or re-timed is on iff ticks mod (a + b) < a, and a find reports it unless a newer node covers it |
| `BlinkTiming.AddedOnTime` | fish/blink.S:105-184 | all fields of an added node after any run that does not remove or re-time it, in terms of the structure handed to the add |
| `BlinkTiming.RunLeaves` | fish/blink.S:302-379 | if a run adds, removes and re-times nothing at a location, a find there reports the same node, aged by the ticks |
| `BlinkTiming.SyncedStayInPhase` | fish/blink.S:267-275 | after a sync, source and target keep equal times, status and countdown until one of them is removed or re-timed, whatever is added at their locations |
| `BlinkTiming.RunDisplays` | fish/blink.S:68-82 | a cell that shows its only node goes on showing it |
| `BlinkTiming.AddedShows` | fish/blink.S:49-184 | after t ticks of a run that leaves its location alone, the cell of an added blink shows its on character if t mod (a + b) < a and its off character otherwise |
| `BlinkTiming.TickShows` | fish/blink.S:58-92 | where several nodes share a cell, a tick leaves the character of the oldest one that changed |
| `BlinkTiming.SyncRedraw` | fish/blink.S:277-285 | the redraw of a sync is right exactly when the source is off or the target's two characters agree |
| `Frames.NextChar` | fish/fish.c:102-116 | one guarded read moves a reader one column along its line |
| `Frames.MergeRow` | fish/fish.c:99-130 | a row ends, having added the cells of its two lines side by side |
| `Frames.OneRow` | fish/fish.c:98-147 | both readers are then at the start of their next lines |
| `Frames.AddFrames` | fish/fish.c:78-148 | it ends on any two files; its adds are those of the two files' lines merged row by row |
| `Frames.PictureAdds` | fish/fish.c:98-147 | the adds are one for each cell where not both files have a space, in reading order, with location (row*80+column+40) mod 65536, the first file's character on, the second's off (a space past a line's end) and lengths 15 |
| `Frames.FramesAvoidZero` | fish/fish.c:125-126 | nothing is added at location 0 if and only if no cell that is not blank in both pictures has row*80+col+40 divisible by 65536 |
| `Frames.ShowFrames` | fish/fish.c:36-36 | putting the picture on the driver keeps its pool consistent |
| `Processes.StackFindsBlock` | student-distrib/system_call.c:24-32 | anywhere in a slot's kernel stack the mask finds its block; esp0 lies there; pages are distinct |
| `Processes.MappedWhereLoaded` | student-distrib/system_call.c:174-192 | through its page entry, the addresses from 0x08048000 on are where the slot's program was loaded |
| `Processes.ArgumentArrives` | student-distrib/system_call.c:134-155 | the name has no space; name, space and argument are the command; the stored field holds the argument exactly when there is a space or the field was empty |
| `Processes.Kernel.SplitCommand` | student-distrib/system_call.c:134-155 | the word before the first space, and the field after the command |
| `Processes.Kernel.CopyArgument` | student-distrib/system_call.c:147-155 | what follows the space and a NUL, the rest of the field untouched |
| `Processes.Kernel.ClaimSlot` | student-distrib/system_call.c:122-132 | the lowest free slot is claimed |
| `Processes.Kernel.TestHeader` | student-distrib/system_call.c:163-173 | the inode of the program if the file exists and its first bytes are the ELF magic number, otherwise failure |
| `Processes.Kernel.ReadEntry` | student-distrib/system_call.c:168-168 | the four bytes at offset 24, as far as the file has them |
| `Processes.ReadOverIs` | student-distrib/system_call.c:166-168 | a read inside the file replaces the buffer, one behind its end leaves it |
| `Processes.LoadsIff` | student-distrib/system_call.c:163-172 | a file of four bytes or more passes exactly when it begins with 0x7F and "ELF" |
| `Processes.Kernel.LoadSlot` | student-distrib/system_call.c:179-192 | the whole program at its place in the slot's page and nothing else |
| `Processes.Kernel.Enter` | student-distrib/system_call.c:193-215 | stack, parent link, terminal, frame and standard descriptors of the new program, no other block changed |
| `Processes.Kernel.SysExecute` | student-distrib/system_call.c:114-217 | the whole new state, the entry point bytes and the program in its page; a failed load keeps its slot and writes no page |
| `Processes.Kernel.SysGetArgs` | student-distrib/system_call.c:327-340 | succeeds exactly on a non-empty argument, which is copied with its 128-byte field |
| `Processes.Kernel.SysHalt` | student-distrib/system_call.c:65-106 | the whole new state and user memory; the base shell is started again |
| `Nesting.BootInv` | student-distrib/system_call.c:114-217 | starting the shell on zeroed memory from the boot stack establishes the invariant |
| `Nesting.ExecuteInv` | student-distrib/system_call.c:114-217 | an execute puts the new slot in front of the chain, or loses the claimed slot |
| `Nesting.HaltInv` | student-distrib/system_call.c:65-106 | a halt takes the slot off the chain and resumes the saved frame; the base shell is started again, or resumed if it cannot be loaded |
| `Nesting.StepInv` | student-distrib/system_call.c:65-217 | each step keeps the invariant |
| `Nesting.RunInv` | student-distrib/system_call.c:65-217 | in every reachable state the parent links are an acyclic chain of occupied slots to slot 0, mapping and stack are the running slot's, occupied slots are chain plus lost ones, and one is lost per failed load |
| `Nesting.BaseHaltIff` | student-distrib/system_call.c:81-102 | a base shell that halts and cannot be loaded leaves the state in order if and only if slot 0 is its own parent and was entered from its own stack |
| `Nesting.EnteredTable` | student-distrib/system_call.c:202-204 | in every reachable state a program that is entered has the standard descriptors and six free ones, and the current terminal |
| `Nesting.NewProgramReads` | student-distrib/system_call.c:202-323 | so over any calls of a new program, whatever ran before it, each descriptor delivers its file up to its position |
| `Nesting.RunKeepsBase` | student-distrib/system_call.c:65-217 | while a program lives, nothing behind it in the chain changes |
| `Nesting.ExecuteHaltRestores` | student-distrib/system_call.c:65-217 | an execute, any run of the new program, and its halt give the parent back its frame, mapping, stack, blocks and slots, less one per failed load between |
| `Nesting.FieldLasts` | student-distrib/system_call.c:114-217 | until it halts, whatever it and its children do, a program keeps the argument field it was entered with |
| `Nesting.ArgumentDelivered` | student-distrib/system_call.c:134-155 | from its start to its halt `sys_getargs` gives a program what followed the first space of its command and a NUL, and fails exactly if that is empty |
| `Nesting.ArgumentLeftOver` | student-distrib/system_call.c:144-146 | a command without a space leaves its program the argument of the slot's last program |
| `ScreenLog.ScrollShows` | student-distrib/keyboard.c:439-469 | a scroll shows the log with a zero row added |
| `ScreenLog.PutShowsIff` | student-distrib/lib.c:176-197 | one character keeps the screen a window on the log if and only if it is not printed in the last cell |
| `ScreenLog.PutAllShows` | student-distrib/lib.c:176-197 | any text that avoids the last cell: the screen is the last 25 rows of the log |
| `ScreenLog.PutAllStays` | student-distrib/lib.c:176-197 | any text keeps the cursor on the screen and writes only its 2000 cells |
| `ScreenLog.EchoShows` | student-distrib/keyboard.c:349-355 | echoed keys keep the window, breaking the line at the last cell |
| `ScreenLog.CursorAfter` | student-distrib/lib.c:176-197 | newline and carriage return go to the start of the next row, every other byte one cell on, from the last cell to the first |
| `ScreenLog.PutAttribute` | student-distrib/lib.c:184-185 | only the printed cell's attribute changes, to 7 |
| `ScreenLog.ClearShows` | student-distrib/lib.c:23-31 | a cleared screen is 25 rows of spaces with attribute 7 and the cursor in the corner |
| `ScreenLog.ActShows` | student-distrib/keyboard.c:285-358 | Enter, typing, clearing, output and reads keep the screen a window on the log of what they print; a full line echoes nothing |
| `ScreenLog.BackspaceUndoes` | student-distrib/keyboard.c:317-329 | typing and erasing a character gives back the line and the cursor's cell, also across a row's end, and only that cell changed, to a NUL |
| `LineEditor.EditorRefines` | student-distrib/keyboard.c:316-348 | after any keys the buffer is the edited line, zeros, and a newline in the last cell once it was full |
| `LineEditor.EnterShows` | student-distrib/keyboard.c:296-298 | after Enter the buffer's string is the submitted line |
| `LineEditor.EnterThenRead` | student-distrib/terminal.c:68-86 | a read of n bytes gives the first n of the submitted line; a second newline exactly for 126 characters after being full; the buffer has a NUL, so that longer reads stay in it, exactly when the submitted line does not fill it |
| `Terminals.SwitchKeepsViews` | student-distrib/keyboard.c:475-578 | a switch, also to the current terminal, changes no terminal |
| `Terminals.TerminalsIsolated` | student-distrib/keyboard.c:475-578 | after any run each terminal is what it would be alone with its own actions |
| `Terminals.LineOfKeys` | student-distrib/keyboard.c:316-348 | the buffer holds the line edited by the keys since the last read; nothing of earlier lines is left, and output does not touch it |
| `Terminals.ReadEmpties` | student-distrib/terminal.c:81-84 | a read leaves an empty line whatever the buffer held, and the screen alone |
| `Terminals.LineArrives` | student-distrib/terminal.c:68-86 | among any activity on three terminals, earlier lines included, Enter and a read give the first n bytes of the line edited since the terminal's last read |
| `Terminals.TerminalShows` | student-distrib/keyboard.c:237-578 | after any run each terminal's screen is the window on the log of what was printed on it |
| `Terminals.Tty.constructor` | student-distrib/terminal.c:26-53 | an empty line and a cursor in the corner |
| `Terminals.Tty.CopyFrom` | student-distrib/keyboard.c:479-492 | screen, line buffer, cursor and index are copied, the source untouched |
| `Terminals.Tty.FillBuffer` | student-distrib/keyboard.c:443-449 | the characters of rows 1 to 24 in order |
| `Terminals.Tty.EmptyBuffer` | student-distrib/keyboard.c:450-457 | rows 0 to 23 take them, attributes untouched |
| `Terminals.Tty.ZeroLastRow` | student-distrib/keyboard.c:458-462 | the characters of the last row are zero |
| `Terminals.Tty.ScrollUp` | student-distrib/keyboard.c:439-469 | characters one row up, attributes unchanged, cursor at the last row's start |
| `Terminals.Tty.Draw` | student-distrib/lib.c:184-185 | character and attribute at the cursor's cell, or before video memory exactly in row 0 left of the margin |
| `Terminals.Tty.PutC` | student-distrib/lib.c:176-197 | screen and cursor after one character, line buffer untouched |
| `Terminals.Tty.Write` | student-distrib/terminal.c:95-103 | the bytes are printed in order |
| `Terminals.Tty.Enter` | student-distrib/keyboard.c:296-314 | a newline in the buffer and a new row |
| `Terminals.Tty.Backspace` | student-distrib/keyboard.c:317-329 | the last character leaves buffer and screen, nothing on an empty line; it stores before video memory exactly in row 0 at or left of the margin |
| `Terminals.Tty.Type` | student-distrib/keyboard.c:332-358 | the character is stored and echoed; the 127th is stored with a newline behind it and not echoed, and a full line takes none |
| `Terminals.Tty.Clear` | student-distrib/lib.c:23-31 | 2000 blank cells and the cursor in the corner |
| `Terminals.Tty.TakeKeys` | student-distrib/terminal.c:74-80 | the copy stops at the first NUL or the count and stays in the buffer |
| `Terminals.Tty.Read` | student-distrib/terminal.c:68-86 | the bytes up to a NUL or the count, for any count the buffer's NUL or size bounds, and an empty line |
| `Terminals.Tty.Perform` | student-distrib/keyboard.c:237-359 | each action changes exactly its own console |
| `Terminals.Board.constructor` | student-distrib/terminal.c:43-57 | the first terminal is current |
| `Terminals.Board.SaveLive` | student-distrib/keyboard.c:475-524 | the current terminal's copy is the live state, the other two untouched |
| `Terminals.Board.LoadLive` | student-distrib/keyboard.c:526-578 | the live state is the current terminal's copy |
| `Terminals.Board.Switch` | student-distrib/keyboard.c:475-578 | save, change, load |
| `Terminals.Board.Local` | student-distrib/keyboard.c:285-358 | keys, reads and writes change only the live state |
| `Terminals.Board.RunAll` | student-distrib/keyboard.c:237-578 | any run in memory is the run on values the isolation theorem speaks of |
| `Bytes.StrLen` | student-distrib/lib.c:260-265 | the distance to the NUL |
| `Numbers.SwapEnds` | student-distrib/lib.c:246-252 | every byte goes to its mirror place |
| `Numbers.StrRev` | student-distrib/lib.c:241-254 | the string reversed in place, nothing else |
| `Numbers.LowDigits` | student-distrib/lib.c:223-228 | the digits, lowest first, denote the value and do not end in zero |
| `Numbers.DigitIs` | student-distrib/lib.c:206-206 | digits are looked up in "0123456789ABCDEFGHIJKLMNOPQRSTUVWXYZ" |
| `Numbers.Itoa` | student-distrib/lib.c:205-235 | a numeral that parses back to the value, without leading zero, and its NUL |
| `Numbers.NumeralUnique` | syscalls/ece391support.c:49-81 | a number has one such text in each radix |
| `Numbers.PrintPaddedHex` | student-distrib/lib.c:91-99 | exactly eight hexadecimal digits that denote the value |
| `Numbers.FillZeros` | student-distrib/lib.c:94-98 | zeros from the start to index 8 |
| `Numbers.PrintDecimal` | student-distrib/lib.c:116-129 | a minus sign exactly for negative values, then the numeral of the magnitude |
| `Memory.MemCpy` | student-distrib/lib.c:356-393 | for every alignment and length the byte-by-byte copy, apart or with the destination first |
| `Memory.MemMove` | student-distrib/lib.c:402-420 | the old source arrives for every overlap |
| `Memory.MemSet` | student-distrib/lib.c:273-307 | the low byte in each of the bytes, for every alignment |
| `Emulator.WordEnd` | syscalls/ece391emulate.c:81-82 | the end of the run without separators |
| `Emulator.WordsAreWords` | syscalls/ece391emulate.c:88-98 | every argument is non-empty and free of separators |
| `Emulator.WordsAre` | syscalls/ece391emulate.c:87-98 | the words are all the maximal runs without separators, in order, up to the first newline where a word could start |
| `Emulator.ArgumentsAre` | syscalls/ece391emulate.c:81-98 | the arguments are those runs behind the first separator; the name is what stands before it |
| `Emulator.JoinThenCut` | syscalls/ece391emulate.c:88-98 | cutting joined words gives the words back |
| `Emulator.JoinAt` | syscalls/ece391emulate.c:139-152 | the joined text is the words in order with one space between neighbours and nothing else |
| `Emulator.ArgumentsSurvive` | syscalls/ece391emulate.c:131-157 | cutting what `getargs` delivers gives the same arguments |
| `Emulator.CopyCommand` | syscalls/ece391emulate.c:78-80 | "./", the command and its NUL |
| `Emulator.ScanWord` | syscalls/ece391emulate.c:95-95 | the scan stops at the end of the word |
| `Emulator.SkipBlanks` | syscalls/ece391emulate.c:89-89 | the scan stops at the first byte that is not a space, with the same words ahead |
| `Emulator.TakeWord` | syscalls/ece391emulate.c:94-97 | one more argument points at its word, the earlier ones still at theirs |
| `Emulator.TakeWords` | syscalls/ece391emulate.c:87-98 | the argument loop stays inside both arrays and points at all words in order |
| `Emulator.Tokenize` | syscalls/ece391emulate.c:67-100 | the vector of any command of up to 1023 bytes, ended by NULL; -1 for longer ones |
| `Emulator.StrCpy` | syscalls/ece391support.c:14-17 | the string and its NUL, no other byte |
| `Emulator.GetArgs` | syscalls/ece391emulate.c:131-157 | succeeds exactly when the joined arguments and a NUL fit, and delivers them; writes past the buffer exactly as stated |

## Left out

- Port I/O, interrupt controller, real-time clock programming, VGA cursor registers, IDT, GDT and TSS descriptor bytes and boot code: hardware plumbing with little state.
- `sys_vidmap`: it overwrites the page directory entry of the running program, so it is not one of the steps of the execute and halt runs.
- Stack switching itself: a saved frame is a pair of stack and base pointer, and what a stack holds is not modelled.
- NULL pointer arguments and their early returns: buffers and names are values or arrays that exist.
- Busy waits for Enter and for clock ticks; `Terminals.LineArrives` is about lines with no key between Enter and the read.
- Scan code tables, modifier keys, and the shell started on the first switch to a terminal.
- Grep.DoOneFile: regular files and the clock only; its returns after a failed read or close are not reached on a well-formed image.
- GrepProgram.RunGrep: "." is a directory if it exists, and other listed entries without a leading dot are files or the clock; a directory entry of another type would be read through whatever operations the descriptor had.
- Terminals.Board.RunAll: reads of at most 128 bytes, so that no read in the run passes the line buffer.
- Terminals.Tty.Backspace: the bytes before the start of video memory are not part of the state, only whether they are stored to.
- Processes.Kernel.SysExecute: commands whose words overflow the kernel's fixed buffers, and programs larger than their page.
- Blink structures are updated as records, so a partial write to one is not visible.
- `memset_word`, `memset_dword`, `strcpy`, `puts` and the character and string conversions of `printf`: they would only add easy members.
- `fork`, `execv`, `mmap` and `readdir` in the emulators, the duplicate sources in fish/, and the programs hello, counter, pingpong, sigtest, testprint, syserr, shell, ls and cat.
