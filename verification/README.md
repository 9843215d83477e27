# A verified model of a small x86 teaching kernel and its programs

The repository is a 32-bit kernel with three text terminals, up to six processes, a read-only file system and a few
user programs. This project models the parts whose behaviour spans many steps and proves what they promise over every
input and every run.

`dafny verify dfyconfig.toml` checks everything. Each component is given twice: as functions on values, about which the
laws are proved, and as classes and methods in the form of the source (loops, arrays, linked cells, fields updated in
place) that are proved to do what those functions say.

| files | component |
|---|---|
| `Memory`, `Strings` | the copy, fill and string loops of `lib.c` over one byte memory |
| `Screens`, `LineEditor`, `Worlds` | one screen and the tape of rows behind it; the keyboard line editor; three consoles under any interleaving of events |
| `Terminals` | the same over four video pages: `lib.c`, `multi_term.c`, `keyboard.c`, `terminal.c` |
| `Bitmap`, `Paging` | the slot bitmap with its bit count; two-level page tables (32-bit paging, section 4.3 of the Intel SDM, Vol. 3A) |
| `Processes`, `Kernel` | execute, halt, tick and terminal switch as steps on three stacks of slots; the same over control blocks, bitmap and page tables |
| `FileSystem`, `Directory`, `Images` | block-indirect reads and names; images written from files and read back |
| `Descriptors`, `Tasks` | the eight descriptors of a task and its system calls |
| `Programs`, `Grep`, `GrepLines`, `GrepNuls`, `GrepProgram` | cat and ls; what grep finds round after round; the same compared with the lines of the file, without and with NULs; grep with its sliding buffer |
| `Blinks`, `BlinkPool` | the blink list and its timing; the list linked through a fixed pool |

How the model is set up:

- System call bodies, interrupts and timer ticks are atomic steps. What the outside world decides (keys, the result of
  looking up a command, whether the clock accepts a rate, stale stack contents) is a parameter.
- Integers are unbounded; 8, 16 and 32-bit fields are range types, and wrap-around and signed comparisons are written
  out where the code depends on them. The slot bitmap is a 32-bit vector.
- Addresses in the video area are offsets from the physical page; page-table entries are indexed by word in the 4 MB
  area that holds all tables.
- A regular execute is issued by a task of the visible terminal or while a shell is being started; `SysExecute` states
  what happens otherwise.

Main results:

- `Terminals.Terminals.HandleAll`, `Worlds.TerminalsAreIndependent`, `Worlds.OthersChangeExactly`: four video pages
  refine three consoles over every interleaving, and a console depends on its own events alone but for one exact case.
- `Screens.PutAllShowsTape`, `Worlds.RunsAreSafeExactly`, `LineEditor.SessionDelivers`,
  `Terminals.Terminals.TypeAndRead`: the page is the window on an unbounded tape, the backspace key is safe exactly with
  room behind the cursor, and every line is delivered as the fold of its keys.
- `Paging.PageTables.MapPage`, `Paging.RegionStaysExactly`: the effect of `map_page` on all 2^32 addresses and their rights.
- `Kernel.Kernel.PerformAll`, `Kernel.Kernel.PerformMixed`, `Kernel.Kernel.RunAndReturn`: the process invariant over
  every run, alone and mixed with terminal events, and the nesting of execute and halt.
- `FileSystem.ReadData`, `Images.StoredIsReadBack`, `Descriptors.ReadsConcatenate`, `Directory.ListThenOpen`,
  `Programs.Cat`: what is stored in an image is read back, and reads are slices, however they are cut up.
- `GrepProgram.DoOneFile`, `GrepNuls.PrintsLinesExactly`: what grep prints for every file, whatever its bytes, and exactly
  when that is the lines with the pattern.
- `Blinks.KeepsTimeExactly`, `Blinks.NodeBlinks`, `BlinkPool.Pool.PerformAll`: the blink list and its timing over every
  run.

Where the code does not keep a simple promise, a lemma gives the input and another the exact condition:

- The comment on `read_data` says it returns 0 on success; the code returns the number of bytes, and the model follows
  the code. Its truncation is right if and only if `offset + length` does not wrap (`WrappedSumIsNotCut`,
  `TruncationExact`). No caller reaches a wrap: `Tasks.Task.ReadFile` is proved for every position and every length that
  `sys_read` accepts.
- A read of a terminal that is not visible wipes the line in the visible terminal's buffer (`HalfTypedLineIsLost`, exact
  condition in `OthersChangeExactly`) and not the reader's (`ReadClearsReaderIffVisible`).
- A program that prints a backspace can make the backspace key underflow the cursor row (`PrintedBackspaceUnderflows`).
  The row is safe from all keys if and only if `80 * row + column` is at least the key index (`KeysAreSafeExactly`,
  `RunsAreSafeExactly`), and `OutputKeepsRoom` says exactly which output loses that.
- A file that is no program keeps its slot for good (`NonProgramCostsSlot`, `LostForever`). An execute while the new-shell flag is still up
  replaces the running stack: the first command of the first shell does so (`FirstCommandReplacesShell`), and
  `StepKeepsInv` says exactly which slots each step loses.
- Files whose names begin with stdin or stdout cannot be closed again (`TerminalNamesStick`, and exactly those by
  `OpenedIsClosable`).
- Grep misses matches in lines of more than 1024 bytes (`LongLineIsCut`), of patterns whose first byte is not ASCII,
  because it is compared as a signed character (`NonAsciiIsMissed`), and across a stale newline just behind its buffer
  (`StaleNewlineCuts`). It prints a line as far as its first NUL only (`NulCutsLine`), and may see a pattern in a line with
  a NUL that does not contain it (`MovedLineIsSeen`). `PrintsLinesExactly` says exactly when none of this matters.
- A blink node added at location 0 breaks the pool (`ZeroTwiceCycles`, exactly by `AddKeepsInvExactly`); lengths outside
  1 to 32768 do not keep time (`KeepsTimeExactly`).

## Model

| member | source | states |
|---|---|---|
| `Memory.Memcpy` | student-distrib/lib.c:555-595 | the aligned head, word and tail copy leaves exactly what a byte copy of the old source would, for all alignments and lengths, when the regions are disjoint or dest <= src |
| `Memory.Memmove` | student-distrib/lib.c:607-628 | the destination holds the old source bytes for every overlap and nothing else changes |
| `Memory.MemsetWord` | student-distrib/lib.c:503-518 | exactly the n words at dest hold the little-endian word |
| `Strings.Strlen` | student-distrib/lib.c:435-443 | the length is that of the bytes before the first NUL |
| `Strings.Strncmp` | student-distrib/lib.c:644-662 | the result is 0 exactly when the two strings agree as strings of at most n bytes, and else the signed difference of the first bytes that differ |
| `Strings.Strncpy` | student-distrib/lib.c:694-709 | the field holds the source string and NULs behind it; nothing outside the field changes |
| `Screens.PutShowsTape` | student-distrib/lib.c:263-294 | a character put on the scrolling page shows what it would show at the end of a tape of rows that is never moved or cut |
| `Screens.PutAllShowsTape` | student-distrib/lib.c:55-70 | so does every character sequence: the page is always the window on the last 25 rows of the unbounded tape |
| `Screens.TextLayout` | student-distrib/lib.c:263-294 | plain text on a blank tape is laid out 80 to a row, with blanks behind and the cursor just behind the text, and the page shows the last 25 rows of that layout |
| `Screens.NewlineIsShown` | student-distrib/lib.c:263-294 | a newline moves to the next row with all cells kept, or moves the page up and blanks its last row |
| `Screens.CharIsShown` | student-distrib/lib.c:263-294 | a character changes just the cell under the cursor, behind the last cell after moving the page up |
| `Screens.RuboutIsShown` | student-distrib/lib.c:263-294 | a printed backspace blanks just the cell before the cursor, and nothing at the start of a row |
| `LineEditor.PressKeepsRoom` | student-distrib/keyboard.c:94-133 | with 80 * row + column at least the key index, every key is safe and keeps it so, across wraps and scrolls |
| `LineEditor.OutputKeepsRoom` | student-distrib/lib.c:263-294 | program output keeps it if and only if it is not a backspace that rubs out the last cell the line counts on |
| `LineEditor.BackspaceErasesLast` | student-distrib/keyboard.c:94-107 | the backspace key blanks the cell just before the cursor, also across a row end, and nothing else |
| `LineEditor.PressKeepsEcho` | student-distrib/keyboard.c:94-133 | the characters just before the cursor stay the line being typed |
| `LineEditor.EditedLineIsShown` | student-distrib/keyboard.c:223-233 | after any keys of a line, the screen shows the edited line just before the cursor |
| `LineEditor.PressAllHolds` | student-distrib/keyboard.c:94-133 | the key buffer is the bounded push and pop fold of the keys, with zeros behind |
| `LineEditor.SessionDelivers` | student-distrib/terminal.c:42-57 | in every session each line read is the fold of its own keys, and the whole buffer is zero again for the next |
| `LineEditor.LineEntered` | student-distrib/keyboard.c:108-120 | the entered line is what the buffer holds as a string, and a read leaves the buffer all zero |
| `LineEditor.KeysAreSafeExactly` | student-distrib/keyboard.c:94-107 | no sequence of keys underflows the row if and only if 80 * row + column is at least the key index |
| `LineEditor.KeyIsShown` | student-distrib/keyboard.c:94-233 | enter moves the cursor on, a character taken into the buffer is drawn and one not taken changes nothing, Ctrl+L blanks the screen |
| `LineEditor.ClearedByte` | student-distrib/keyboard.c:306-309 | exactly the bytes before the first NUL are cleared |
| `Worlds.TerminalsAreIndependent` | student-distrib/multi_term.c:39-81 | over every interleaving in which no such read wipes its line, a terminal ends as it would if only its own events had happened, whatever the other terminals held |
| `Worlds.RunsKeepRoom` | student-distrib/keyboard.c:94-107 | no run in which programs print no backspace ever lets the cursor come closer to the top left corner than the line being typed is long, so the backspace key never underflows the row |
| `Worlds.PrintedBackspaceUnderflows` | student-distrib/keyboard.c:99-103 | one typed character and one printed backspace are enough to lose that safety |
| `Worlds.ReadClearsReaderIffVisible` | student-distrib/terminal.c:46-54 | a read empties the reader's own buffer exactly when the reader is the visible terminal |
| `Worlds.OthersChangeExactly` | student-distrib/terminal.c:46-54 | an event that is not its own changes a terminal if and only if it is another terminal's read of a pending line while this one is visible with a line in its buffer, and then that line is wiped |
| `Worlds.HalfTypedLineIsLost` | student-distrib/keyboard.c:306-309 | a read on one terminal makes the visible one lose the character just typed |
| `Worlds.RunsAreSafeExactly` | student-distrib/keyboard.c:94-107 | no run without printed backspaces underflows a cursor row if and only if 80 * row + column is at least the key index on every terminal |
| `Worlds.PrintEffect` | student-distrib/terminal.c:67-76 | output changes the screen of its own terminal alone, cell by cell as stated |
| `Worlds.SwitchEffect` | student-distrib/multi_term.c:39-50 | a switch changes which terminal is visible and no terminal, and is ignored out of range or with more than six slots taken |
| `Worlds.ReadEffect` | student-distrib/terminal.c:42-57 | a read of a pending line lowers the reader's flag, empties the visible terminal's buffer and changes nothing else |
| `Terminals.Terminals.constructor` | student-distrib/multi_term.c:17-30 | after initialization the first terminal owns the physical page, every key buffer is empty and the cursors agree |
| `Terminals.Terminals.Scroll` | student-distrib/lib.c:55-70 | the page of one terminal moves up a row with a blank one coming in at the bottom, exactly when the row is past the last; other terminals keep records and screens |
| `Terminals.Terminals.SetCursorPos` | student-distrib/lib.c:34-47 | the recorded cursor changes, and the hardware cursor exactly for the visible terminal |
| `Terminals.Terminals.Putc` | student-distrib/lib.c:263-294 | one terminal's screen advances as the pure screen does, no other terminal changes, and the hardware cursor stays at the visible terminal's position |
| `Terminals.Terminals.ClearScreen` | student-distrib/lib.c:80-90 | the visible terminal's screen is blank with the cursor at the top left; nothing else changes |
| `Terminals.Terminals.SwitchScreen` | student-distrib/multi_term.c:70-81 | afterwards each terminal's vid_mem is its home page, the physical one for the new terminal, and holds its old screen |
| `Terminals.Terminals.SwitchTerminal` | student-distrib/multi_term.c:39-61 | a switch changes which terminal is visible and no terminal's screen or keys; it is ignored out of range or with more than 6 slots taken |
| `Terminals.Terminals.ClearKeys` | student-distrib/keyboard.c:306-309 | the string in the visible terminal's key buffer is zeroed and its index reset |
| `Terminals.Terminals.ProcessInput` | student-distrib/keyboard.c:94-133 | backspace, enter, Ctrl+L and character keys change the visible terminal as the line editor does and no other |
| `Terminals.Terminals.TerminalRead` | student-distrib/terminal.c:42-57 | the reader gets the bytes of its own key buffer and the length of its line, its flag is lowered, and the visible terminal's key buffer is cleared |
| `Terminals.Terminals.TerminalWrite` | student-distrib/terminal.c:67-76 | every byte is put on the writer's terminal in order and the count is returned |
| `Terminals.Terminals.HandleAll` | student-distrib/multi_term.c:39-81 | over every interleaving of output, keys, switches and reads the four video pages refine three consoles, and the layout and cursor invariants hold throughout |
| `Terminals.Terminals.TypeAndRead` | student-distrib/keyboard.c:94-120 | on the visible terminal, typing any keys, enter and a read of at least the line's length delivers exactly the bounded fold of the keys and its length, empties the whole buffer and changes no other terminal |
| `Terminals.Terminals.DisplayShowsVisible` | student-distrib/multi_term.c:52-81 | the physical page and the hardware cursor show the visible terminal |
| `Bitmap.OurPopcount` | student-distrib/pcb.c:138-147 | the SWAR sum is the number of set bits, for all 2^32 words |
| `Bitmap.FindEmptyPcb` | student-distrib/pcb.c:13-26 | the offset is the least clear bit, which is then set |
| `Paging.PageTables.ResolveVirtAddr` | student-distrib/paging.c:15-70 | the walk gives the hardware's translation, or 0 |
| `Paging.PageTables.MapPage` | student-distrib/paging.c:141-236 | refuses exactly the stated calls and then changes nothing; otherwise the translation of all 2^32 addresses is as before outside one directory slot and as asked for inside it, and so are the user and write rights |
| `Paging.LargeMapped` | student-distrib/paging.c:168-181 | a 4 MB entry moves its region to the aligned frame with the rights of the entry and touches no other slot |
| `Paging.NewTable` | student-distrib/paging.c:183-203 | a fresh table maps the one page with the rights asked for and unmaps the rest of its 4 MB region |
| `Paging.EntryAdded` | student-distrib/paging.c:206-233 | a page added to an existing table has the rights asked for as far as the table entry allows them, and disturbs no other page |
| `Paging.PageTables.PagingInit` | student-distrib/paging.c:81-107 | after boot exactly kernel, four video pages, vidmap page and page tables are mapped; all are writable and only the vidmap page is for users |
| `Paging.RegionStaysExactly` | student-distrib/paging.c:160-203 | a region mapped one to one, such as the one the tables themselves are reached through, stays so if and only if the call is for another region or maps it to itself |
| `Paging.RefusesExactly` | student-distrib/paging.c:147-220 | a call fails exactly on a null address, on a page already mapped, and for 4 MB on an entry already there |
| `Paging.NothingDisturbed` | student-distrib/paging.c:160-233 | without remap no mapped address is taken away, and the page asked for is mapped byte by byte |
| `Processes.FreeSlotExists` | student-distrib/syscalls.c:74-77 | with fewer than 6 slots used, first fit finds one below 6 |
| `Processes.StepKeepsInv` | student-distrib/syscalls.c:18-56 | execute, halt, tick and switch keep the stacks duplicate-free and disjoint with all slots marked, and lose exactly the stated slots |
| `Processes.DoAll` | student-distrib/timer.c:37-88 | every run of steps keeps that invariant |
| `Processes.LostForever` | student-distrib/syscalls.c:94-115 | a slot taken for a file that is no program is never given back |
| `Processes.LowerTasksWait` | student-distrib/syscalls.c:132-140 | however other terminals, ticks and switches interleave, the tasks below in a terminal's chain are untouched |
| `Processes.ExecuteThenHaltRestores` | student-distrib/syscalls.c:33-35 | when the programs started above have halted, the terminal's chain is what it was |
| `Processes.RunCall` | student-distrib/syscalls.c:18-38 | for any nesting of commands, execute and halt restore the stacks, and all slots if no command was a file that is no program |
| `Processes.FirstCommandReplacesShell` | student-distrib/timer.c:66-69 | from the booted state, the first shell's first command replaces the shell, whose slot is lost |
| `Processes.NonProgramCostsSlot` | student-distrib/syscalls.c:95-115 | from the booted state, a first command that is no program leaves a slot marked that no task holds |
| `Processes.ExecuteEffect` | student-distrib/syscalls.c:74-157 | field by field: nothing at six tasks or without a file, else the least free slot, and for a program a task on top of the visible terminal's or in place of the running one's |
| `Processes.HaltEffect` | student-distrib/syscalls.c:18-56 | field by field: the slot is given back and the task below runs; the last task of a terminal gives way to a new shell at once |
| `Processes.TickEffect` | student-distrib/timer.c:37-88 | field by field: the next terminal is scheduled, and gets a shell if it has no task |
| `Processes.ShowEffect` | student-distrib/multi_term.c:39-50 | a switch in range changes the visible terminal and no task |
| `Kernel.FirstFitIsLeastFree` | student-distrib/pcb.c:13-26 | the bitmap's first fit is the least free slot |
| `Kernel.SlotsAreDisjoint` | student-distrib/pcb.c:37 | 8 KB areas and 4 MB frames of different slots do not meet, and esp0 lies in its own area |
| `Kernel.Kernel.constructor` | student-distrib/multi_term.c:27-29 | a booted kernel without tasks satisfies the invariant |
| `Kernel.Kernel.InitPcb` | student-distrib/pcb.c:35-40 | takes the least free slot, which no task holds |
| `Kernel.Kernel.SysExecute` | student-distrib/syscalls.c:65-149 | does the step on the stacks; the new task has its own stack and frame in force, and is the scheduled terminal's task if and only if a shell was being started or the terminal is visible; failed calls change only a leaked slot |
| `Kernel.Kernel.SysHalt` | student-distrib/syscalls.c:18-56 | goes back to the parent with its page and stack in force, or starts a new shell; with a shell to start, a task always runs afterwards |
| `Kernel.Kernel.PitInterrupt` | student-distrib/timer.c:37-88 | round robin; after a switch to a task its frame, stack and own screen page are mapped |
| `Kernel.Kernel.SwitchTerminal` | student-distrib/multi_term.c:39-50 | a switch disturbs no process and, with at most 6 slots ever used, is refused only out of range |
| `Kernel.Kernel.PerformAll` | student-distrib/timer.c:54-88 | in every reachable state cur_pcb is the scheduled terminal's task, 128-132 MB resolves to its own frame, tss.esp0 is its own, parent pointers follow the stacks, and kernel, video and table mappings are undisturbed |
| `Kernel.Kernel.RunAndReturn` | student-distrib/syscalls.c:18-149 | after any nest of commands without a leak, slots, current tasks, cur_pcb, tss.esp0 and the resolution of 128-132 MB are what they were |
| `Kernel.Kernel.HandleIo` | student-distrib/lib.c:263-294 | output, keys and reads disturb no process and no mapping |
| `Kernel.Kernel.PerformMixed` | student-distrib/multi_term.c:39-50 | every interleaving of execute, halt, tick and switch with output, keys and reads keeps both invariants; the processes depend on the steps alone and the terminals on the events alone |
| `Kernel.Boot` | student-distrib/paging.c:81-107 | paging, terminals and processes start in a state that satisfies every invariant |
| `Kernel.SlotLayout` | student-distrib/pcb.c:37 | frames follow the kernel page and control blocks with their stacks fill it from the top down |
| `Kernel.VidmapShowsOwnScreen` | student-distrib/timer.c:70-84 | the page mapped for vidmap holds the terminal's own screen |
| `FileSystem.ReadData` | student-distrib/file_system.c:202-261 | returns min(length, size - offset) and stores exactly that slice of the flat file, ending at a bad block's boundary if one comes first; -1 for a bad inode or first block, 0 at the end |
| `FileSystem.TruncationExact` | student-distrib/file_system.c:224-225 | the truncation is right if and only if offset + length does not wrap around |
| `FileSystem.ReadIsSlice` | student-distrib/file_system.c:229-260 | on a file without bad blocks a read is a slice of the contents |
| `FileSystem.ReadBlocks` | student-distrib/file_system.c:229-258 | the block loop stops exactly at the length, the end of the file or a bad block and has stored exactly the bytes before |
| `FileSystem.WrappedSumIsNotCut` | student-distrib/file_system.c:224-225 | a concrete offset and length whose sum wraps, for which nothing is cut |
| `FileSystem.ReadsOnUntilBadBlock` | student-distrib/file_system.c:229-258 | a read stops early only at the end of the file or at the start of a bad block |
| `FileSystem.FailsExactly` | student-distrib/file_system.c:216-228 | a read fails exactly on a bad inode or a bad first block, and delivers nothing behind the end |
| `Directory.ReadDentryByName` | student-distrib/file_system.c:148-172 | finds the first entry with exactly that name |
| `Directory.LookupExact` | student-distrib/file_system.c:153-171 | a lookup succeeds if and only if the name is in the directory |
| `Directory.ReadDir` | student-distrib/file_system.c:93-115 | stores the padded name of the entry and returns its length, also for an unterminated 32-byte name; 0 at the end |
| `Directory.ReadYieldsName` | student-distrib/file_system.c:103-110 | in a tidy directory a read yields the whole name, and 0 only at the end |
| `Directory.ListThenOpen` | student-distrib/file_system.c:148-172 | opening a listed name finds the entry it was listed from |
| `Images.ReadsEntry` | student-distrib/file_system.c:160-168 | name, type and inode of a directory entry are read back as written |
| `Images.ReadsByte` | student-distrib/file_system.c:229-250 | a byte of a file lies where the boot block, the inodes and its block number put it, whatever the order of the blocks |
| `Images.ReadsFile` | student-distrib/file_system.c:202-261 | every file that a disk holds is read back from its image, whole and in every part |
| `Images.StoredIsReadBack` | student-distrib/file_system.c:148-261 | every list of files is read back from the image that stores it, each under its own name |
| `Descriptors.CallKeepsInv` | student-distrib/syscalls.c:201-250 | every open, read, write and close keeps 0 and 1 the terminal's, positions within files, and a descriptor unused exactly when its table is the empty one |
| `Descriptors.OpenTakesLeastFree` | student-distrib/pcb.c:81-115 | an accepted name gets the least free descriptor at position 0, and fails if and only if all eight are used |
| `Descriptors.TerminalNamesStick` | student-distrib/pcb.c:96-107 | a descriptor opened under a name that begins like a terminal's can never be closed again |
| `Descriptors.OpenedIsClosable` | student-distrib/pcb.c:96-108 | and exactly such names have that fate |
| `Descriptors.OnlyOwnReadsMove` | student-distrib/file_system.c:78-82 | a call on another descriptor leaves this one as it is |
| `Descriptors.ReadsConcatenate` | student-distrib/file_system.c:65-83 | in any sequence of calls that does not close it, the reads of an open file, however cut up, deliver together what one read of the total length would |
| `Descriptors.PositionCountsBytes` | student-distrib/file_system.c:78-82 | in any sequence of calls the position of an open file advances by the bytes delivered through it |
| `Descriptors.OpenedBehaves` | student-distrib/pcb.c:81-115 | reads and writes of an opened file by its name and type: the clock takes a rate and delivers nothing, directories and files deliver their data, terminals read or write only |
| `Descriptors.CloseEffect` | student-distrib/syscalls.c:239-250 | a close frees exactly a descriptor from 2 on that has a close operation |
| `Descriptors.ReadEffect` | student-distrib/file_system.c:65-115 | a read moves its own position by an entry or by the bytes delivered, and changes nothing else |
| `Tasks.Task.constructor` | student-distrib/terminal.c:17-22 | a new task has stdin and stdout on 0 and 1 and all else free |
| `Tasks.Task.SysOpen` | student-distrib/syscalls.c:230-238 | opens as specified: unknown names and types fail |
| `Tasks.Task.SysClose` | student-distrib/syscalls.c:245-250 | closes exactly closable descriptors from 2 to 7 |
| `Tasks.Task.ClosePcb` | student-distrib/pcb.c:62-71 | frees all eight descriptors, the terminal's too |
| `Tasks.Task.ReadFile` | student-distrib/file_system.c:65-83 | delivers the next bytes of the file and advances by their number |
| `Tasks.Task.SysRead` | student-distrib/syscalls.c:201-207 | fails exactly out of range, for a negative count or without a read operation; else delivers what the descriptor holds |
| `Tasks.Task.SysWrite` | student-distrib/syscalls.c:216-222 | fails out of range, for a negative count or without a write operation; only stdout adds output |
| `Tasks.Task.CloseFileDesc` | student-distrib/pcb.c:123-130 | the descriptor is unused with the empty table, its inode and position kept |
| `Programs.StreamStep` | student-distrib/file_system.c:65-83 | each read delivers a first part of what is left and leaves the rest; nothing only at the end |
| `Programs.Cat` | syscalls/ece391cat.c:6-31 | writes exactly the file, the names of a directory, or the right message, with the right status |
| `Programs.Ls` | syscalls/ece391ls.c:8-29 | prints every name once, in order, on its own line |
| `Programs.FileOpened` | student-distrib/pcb.c:96-101 | opening the name of a regular file and reading to the end gives the contents of that very entry's inode |
| `GrepLines.LineWithout` | syscalls/ece391grep.c:41-51 | a line without the pattern is found in none of its pieces, however it is cut |
| `GrepLines.StaleMatches` | syscalls/ece391grep.c:31-39 | a stale newline behind the buffer does harm exactly by cutting in two a line that contains the pattern |
| `GrepLines.FindsLinesExactly` | syscalls/ece391grep.c:20-60 | of a pattern with an ASCII first byte, the pieces found in the file itself are exactly the lines that contain it, once each and in order, if and only if no line of more than 1024 bytes contains it and no stale newline cuts a line that does |
| `GrepLines.LongLineIsCut` | syscalls/ece391grep.c:33-39 | a concrete longer line whose match is missed |
| `GrepLines.NonAsciiIsMissed` | syscalls/ece391grep.c:43-44 | a concrete line that is the pattern and is missed because its byte is not ASCII |
| `GrepLines.StaleNewlineCuts` | syscalls/ece391grep.c:33 | a concrete line that fits the buffer and is missed because of a stale newline only |
| `GrepNuls.SeenAlike` | syscalls/ece391grep.c:33-39 | however lines are moved in the buffer, the file as grep sees it has its newlines in the same places, and each piece is the same up to its first NUL |
| `GrepNuls.RoundsFind` | syscalls/ece391grep.c:20-60 | searching round after round finds the pieces of the file as grep sees it |
| `GrepNuls.PrintsLinesExactly` | syscalls/ece391grep.c:9-66 | for every file and pattern, what is printed is exactly the lines that contain the pattern, once each and in order, if and only if the pattern begins with an ASCII byte (or no line contains it), no line with a NUL contains it, no piece found holds a NUL, no line of more than 1024 bytes contains it, and no stale newline cuts a line that does |
| `GrepNuls.PrintsTextExactly` | syscalls/ece391grep.c:9-66 | for a file without NULs the first byte of the pattern, the length of the lines and the stale newline alone decide |
| `GrepNuls.NulCutsLine` | syscalls/ece391grep.c:47 | a concrete line with a NUL that is printed in part only |
| `GrepNuls.MovedLineIsSeen` | syscalls/ece391grep.c:35-36 | a concrete line that is printed although it does not contain the pattern, because the buffer behind its NUL still held an earlier line |
| `GrepProgram.CopyDown` | syscalls/ece391support.c:14-17 | the overlapping copy moves the whole string to the front and changes nothing behind it |
| `GrepProgram.Compare` | syscalls/ece391support.c:35-46 | 0 exactly when the strings agree on at most n bytes, else the sign of the first difference |
| `GrepProgram.CarryDown` | syscalls/ece391grep.c:33-38 | an unfinished line is moved to the front as far as its first NUL; behind that the buffer keeps what it held, searched lines ended by NULs |
| `GrepProgram.SearchLine` | syscalls/ece391grep.c:41-51 | prints the line as far as its first NUL, once, if the pattern occurs anywhere in it, else nothing |
| `GrepProgram.Scan` | syscalls/ece391grep.c:27-57 | all pieces in the buffer are searched, what is kept is an unfinished line that did not begin with the buffer, and a newline behind a full buffer ends its last line |
| `GrepProgram.GrepLoop` | syscalls/ece391grep.c:20-60 | whatever the file holds and the buffer held before, the loop ends having printed exactly what the rounds find |
| `GrepProgram.DoOneFile` | syscalls/ece391grep.c:9-66 | prints exactly what the rounds find in the file, whatever its bytes, and closes it, or reports the failed open or read |
| `GrepProgram.GrepMain` | syscalls/ece391grep.c:68-97 | prints the matches of all files of the directory in order |
| `Blinks.Course` | fish/blink.S:64-86 | the state of a node left alone after any number of ticks, from its phase |
| `Blinks.KeepsTimeExactly` | fish/blink.S:49-99 | it is on after t ticks exactly when t mod (on + off) < on, for every t, if and only if both lengths are from 1 to 32768 |
| `Blinks.AddKeepsInvExactly` | fish/blink.S:131-162 | the slot handed out is in no list, and the list stays sound if and only if the location is not 0 |
| `Blinks.ZeroTwiceCycles` | fish/blink.S:140-162 | two nodes at location 0 share a slot |
| `Blinks.RemoveKeepsInv` | fish/blink.S:195-223 | removal keeps nodes exactly the slots in use |
| `Blinks.DoAll` | fish/blink.S:105-300 | every run of add, remove, sync and tick keeps the list free of repetitions and its nodes exactly the slots in use |
| `Blinks.FindIsTop` | fish/blink.S:351-379 | find returns the top of the stack of its location |
| `Blinks.AddPushes` | fish/blink.S:159-162 | adding pushes on the stack of the location: the most recent node is found first |
| `Blinks.RemovePops` | fish/blink.S:206-222 | removing pops it and leaves all other stacks |
| `Blinks.AddThenRemoveRestores` | fish/blink.S:187-223 | removing the location just added undoes the addition |
| `Blinks.Timeline` | fish/blink.S:49-99 | in every run, a node neither removed nor synchronized depends on the number of ticks alone |
| `Blinks.NodeBlinks` | fish/blink.S:131-138 | so in every run it is on exactly in the first part of each period since it was added |
| `Blinks.SyncedStayInStep` | fish/blink.S:240-275 | the node synchronized to keeps its own course, and the other has the same lengths, countdown and status and its own place and characters, through every run that spares both |
| `Blinks.OthersKeepStacks` | fish/blink.S:267-275 | synchronizing and ticking leave every stack as it is |
| `Blinks.SyncEffect` | fish/blink.S:240-275 | lengths, countdown and status are copied; place and characters of the target and all other nodes stay |
| `Blinks.AddEffect` | fish/blink.S:105-184 | a node off the screen or without a free slot is refused; else the first free slot holds it, on and with a full count |
| `Blinks.TickOfNode` | fish/blink.S:64-86 | a node counts down, or changes over and counts its other length |
| `Blinks.StaysOnOrOff` | fish/blink.S:49-99 | every node is on or off over every run |
| `BlinkPool.Pool.Malloc` | fish/fish.c:160-170 | the first slot whose location is zero |
| `BlinkPool.Pool.Free` | fish/fish.c:172-175 | the slot is zeroed; the list, which it has left, stays linked |
| `BlinkPool.Pool.FindHelper` | fish/blink.S:351-379 | the walk ends at the most recent node of the location |
| `BlinkPool.Pool.AddNode` | fish/blink.S:105-184 | links the new node at the head, for every location |
| `BlinkPool.Pool.RemoveNode` | fish/blink.S:187-237 | unlinks and frees the most recent node of the location |
| `BlinkPool.Pool.SyncNodes` | fish/blink.S:240-275 | copies lengths, countdown and status from the high half's node to the low half's |
| `BlinkPool.Pool.Tasklet` | fish/blink.S:49-99 | exactly the nodes of the list tick once |
| `BlinkPool.Pool.PerformAll` | fish/blink.S:101-300 | every run does on the linked pool what the operations do on values |
| `BlinkPool.Pool.constructor` | fish/fish.c:28 | a zeroed pool is a sound empty list |
| `BlinkPool.Pool.FindNode` | fish/blink.S:302-349 | a copy of the most recent node of the location with its link, or failure |

## Left out

- Port I/O, interrupt controller, timer, clock and mouse programming, descriptor tables, and boot order: hardware plumbing.
- Register and stack moves, TLB flushes, `cli`/`sti` and preemption inside a system call: steps are atomic.
- Busy waiting: a terminal read is modelled once its line is complete, a clock read as delivering nothing.
- Command history, and the up and down keys: index arithmetic that leaves its array.
- Key map tables and scan codes: keys arrive decoded. The control characters in the key maps are never looked up, since those scan codes have their own cases, so that a key stands for 0 or a printable character.
- Colour changes, `putc_color`, and direct writes to the screen by programs: the colour is constant.
- `printf`, `itoa`, `strrev`, `memset`, `memset_dword`, `strcpy`, and the remaining user programs: easy members.
- Parsing of the command line, copying of arguments and loading of the program image in `sys_execute`: its outcome is the `Load` parameter.
- The direction flag that `memmove` leaves set after copying down from the top.
- What blink draws on the screen, including the character chosen by sync.
- `read_dentry_by_index`, `sys_getargs`, `sys_vidmap` and the signal calls: easy members.
- Memory.Memcpy: states nothing for a destination that overlaps its source from above, for which `memcpy` promises nothing.
- Terminals.Terminals.ProcessInput: requires a row above when a backspace must step to it; `RunsKeepRoom` shows that every run without printed backspaces meets this.
- Terminals.Terminals.TerminalRead: is stated for at most 129 bytes, the size of the key buffer it copies from.
- Terminals.Terminals.SetKeys: key buffers and terminal records are values that are stored back, not arrays written byte by byte.
- Kernel.Kernel.SysExecute: control blocks are a sequence of records known by slot, without the saved registers, name, argument, process id and descriptors of a control block.
- FileSystem.ReadData: requires the sum of offset and length to fit in 32 bits, as every caller sees to. `TruncationExact` is exact for the truncation, not for the result: a read whose sum wraps can still come out right if a bad block number stops it at the end of the file.
- Tasks.Task.SysRead: leaves out reads of the keyboard, which `Terminals.Terminals.TerminalRead` models, and requires a buffer that holds what the call stores (32 bytes for a directory, whatever was asked for).
- Programs.Cat: names that begin with stdin are left out, since the read would wait for the keyboard; directory names are taken to be distinct, non-empty and padded with NULs.
- Programs.Ls: is stated for a "." that is a directory.
- GrepProgram.DoOneFile: is stated for names that are neither the keyboard's nor a directory's.
- GrepProgram.GrepMain: is stated for a new task and a directory all of whose entries not beginning with a period are files or clocks with names of their own; failing files are covered by `DoOneFile`.
- Terminals.Terminals.HandleAll: is stated for runs in which no backspace key underflows the row; `RunsAreSafeExactly` says which these are.
- Paging.PageTables.MapPage: writes directory and tables directly, not through their own mapping as the code does once paging is on; `RegionStaysExactly` says exactly when that mapping survives a call, and `Kernel.Kernel.PerformAll` shows that it always does.
- Kernel.Kernel.SysHalt: leaves out the return value and the closing of descriptors, which `Tasks.Task.ClosePcb` models.
- Blinks.DoAll: is stated for runs that add nothing at location 0; `AddKeepsInvExactly` and `ZeroTwiceCycles` say why.
- BlinkPool.Pool.PerformAll: is stated for runs that add nothing at location 0, for the same reason.
