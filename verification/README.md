# Verification model of mp3_group_28

A small teaching kernel for the x86 and the programs that run on it: processes
stacked on one another under `execute` and `halt`, a read-only block file
system, a console with scrollback, a keyboard line discipline, `cat`, `ls` and
`grep`, and the `fish` demonstration with its blinking characters. This
project models that behaviour in Dafny and proves what it keeps over whole runs.

`dafny verify dfyconfig.toml` checks everything.

## How it is built

Code that changes state is a class or a method over arrays whose contract ties
the new state to a specification on values; the theorems are lemmas about
those values.

| part | specification and theorems | code |
|---|---|---|
| console | `ConsoleSpec`, `ConsoleProofs` | `Console` |
| block operations, number formats | `Memory`, `Numerals` | the same modules |
| file image and directory | `FileImage`, `Directory`, `FileExample` | the same modules |
| processes, descriptors, paging | `KernelSpec`, `KernelInvariant`, `KernelCalls`, `KernelRuns`, `KernelReads`, `Paging`, `KernelExample`, `CommandLine` | `KernelCode` |
| user programs | `GrepSpec` | `Programs`, `Grep` |
| blinking characters | `BlinkSpec`, `FramesSpec`, `FramesOnScreen` | `BlinkList`, `Frames`, `FishProgram` |
| keyboard and terminal | `LineInput` | `Keyboard` |
| emulated execute and getargs | `EmulatorSpec` | `Emulator` |

What the keyboard delivers to a read of stdin is an argument of the call, and
so are the stack registers that execute reads. The clock's interrupts are left
out: a read of it returns 0 at once.

## Where the code differs from what it says

The model follows the code. Each difference has a lemma that says exactly what the code does
or when it still does what its comments and callers expect, and most an input or a run on which it does not.

- The arguments of a kernel command lose every space, not only the leading ones (`CommandLine.ArgsLoseTheirSpaces`); they arrive intact exactly when they are one word or none (`CommandLine.ArgsArriveIntact`, `CommandLine.TwoArgsRunTogether`).
- `clear` swaps the two scrollback coordinates (`ConsoleProofs.ClearAlignsAtTheTop`, `ConsoleProofs.ClearAfterAScreenful`), and the start line stops counting one row early (`ConsoleProofs.WindowOnScrollback`, `ConsoleProofs.LateScrollLosesARow`, `ConsoleProofs.ScrollHidesTheLastRow`) until 25 further rows have been printed (`ConsoleProofs.ScreenRecovers`).
- The statement by which Ctrl-L would forget pending lines stands inside a comment (`LineInput.CtrlLKeepsPendingEnds`, `LineInput.CtrlLStrandsALine`), and `terminal_read` moves bytes where it means words and does not rebase them (`LineInput.ReadKeepsOtherLines`, `LineInput.TwoPendingLinesGoWrong`).
- A character typed after Enter withholds the lines that are pending until the next Enter (`LineInput.ReadyAfterEnter`, `LineInput.TypingAheadWithholdsTheLine`), and so does a read (`LineInput.OneReadPerEnter`).
- A blink at location 0 is on the list and looks free (`BlinkList.AddKeepsList`, `BlinkList.TwoAtLocationZeroLoop`, `BlinkList.LocationZeroNeverMends`), and sync always draws the off character (`BlinkSpec.SyncKeepsDrawn`, `BlinkSpec.SyncAfterTwoAdds`).
- `grep` cuts lines longer than 1024 bytes into separate stretches (`GrepSpec.GrepFiltersLines`, `GrepSpec.LongLineIsCut`).
- The emulated getargs writes one byte past its buffer when words just fill it (`EmulatorSpec.WritesPastTheRoom`, `EmulatorSpec.OneWordTooMany`).
- Halting the first shell restarts it with its descriptors still open (`KernelRuns.RestartedShellKeepsDescriptors`), and a halt leaves the video memory mapped (`KernelRuns.RunKeepsMap`), which programs reach at its physical address without asking (`Paging.MemoryInReach`).
- `ls` prints the directory only when "." is its first entry, as the cursor starts with the entry looked up and goes on by index (`KernelReads.ListingIsDirectory`, `KernelExample.LsMissesTheShell`); without "." the first line is whatever name was looked up last (`Programs.Ls`).
- Inode and type fields are read as single bytes (`Directory.OneByteField`, `Directory.InodeFieldIsCut`).

## Model

| member | source | states |
|---|---|---|
| ConsoleSpec.ApplyKeepsGeometry | mp3_group_28/student-distrib/lib.c:208-268 | Every character and scroll key keeps the cursors and the window in range, from any in-range state |
| ConsoleSpec.CatchUpEnds | mp3_group_28/student-distrib/lib.c:229 | The catch-up loop of putc ends after as many scrolls as the cursor is rows below the screen, and conserves start_line + screen_y |
| ConsoleSpec.UpsMoveTheWindow | mp3_group_28/student-distrib/lib.c:317-328 | n presses of scroll_up from any state move the window up n rows or to the top, the cursor row down by as many, and show the scrollback rows from there |
| ConsoleSpec.DownsMoveTheWindow | mp3_group_28/student-distrib/lib.c:330-342 | n presses of scroll_down move it down n rows, or until the cursor is on the last row of the screen |
| ConsoleSpec.DownsUndoUps | mp3_group_28/student-distrib/lib.c:317-342 | Scrolling up within the scrollback and as far down again leaves the window that start_line names and changes nothing else |
| ConsoleSpec.DownsRestoreTheScreen | mp3_group_28/student-distrib/lib.c:317-342 | So the screen is as it was exactly where it was that window before |
| ConsoleSpec.EveryRowCanBeShown | mp3_group_28/student-distrib/lib.c:317-328 | Every row of the scrollback above the screen can be brought to its top |
| ConsoleProofs.PutFollows | mp3_group_28/student-distrib/lib.c:228-265 | A character sent to the console extends the 80-column log by that character in the scrollback, and on the screen while the scrollback has not filled |
| ConsoleProofs.ScrollingKeepsAligned | mp3_group_28/student-distrib/lib.c:317-342 | Scrolling up or down, and catching up, keep the screen a window onto the scrollback with the cursor rows tied |
| ConsoleProofs.WindowOnScrollback | mp3_group_28/student-distrib/lib.c:208-342 | For every interleaving of output and scroll keys from a fresh console the scrollback holds the last 250 rows of the unbounded log; the screen is the window at start_line with buffer_y = start_line + screen_y exactly when the log has not passed row 248 |
| ConsoleProofs.ScreenShowsLatestOutput | mp3_group_28/student-distrib/lib.c:228-315 | Output of any length, with scroll keys only before row 249, leaves the last 25 rows of the log on the screen and the last 250 in the scrollback, up to blanks |
| ConsoleProofs.LateScrollLosesARow | mp3_group_28/student-distrib/lib.c:298-342 | Past row 248, scrolling up and back down shows the latest output again exactly when the rows it would lose look like their neighbours |
| ConsoleProofs.ScrollHidesTheLastRow | mp3_group_28/student-distrib/lib.c:298-342 | A run on which it does not: an x behind 249 newlines is gone after scrolling up and back down |
| ConsoleProofs.ScreenRecovers | mp3_group_28/student-distrib/lib.c:228-342 | Whatever was printed and scrolled before, 25 further rows printed without scroll keys make the screen the last 25 rows of the log again, past row 248 with start_line back at 224 |
| ConsoleProofs.StringIsPrinted | mp3_group_28/student-distrib/terminal.c:85-91 | A string written at once is its characters put in order; without line ends it goes behind the log as it is |
| ConsoleProofs.ScrolledRows | mp3_group_28/student-distrib/lib.c:290-315 | A page that moves up keeps its other rows and has character 0 in its last |
| ConsoleProofs.ClearBlanks | mp3_group_28/student-distrib/lib.c:45-62 | clear blanks the screen and the 25 scrollback rows behind it, leaves every other row, and leaves the coordinates it names |
| ConsoleProofs.ClearAlignsAtTheTop | mp3_group_28/student-distrib/lib.c:45-62 | clear leaves screen and scrollback together exactly when start_line is 0: it swaps the two buffer coordinates |
| ConsoleProofs.ClearAfterAScreenful | mp3_group_28/student-distrib/lib.c:45-62 | After 25 newlines it does not |
| Console.Console.Putc | mp3_group_28/student-distrib/lib.c:228-265 | The coded putc takes the console state to the specified next state, screen and scrollback both |
| Console.Console.TerminalScroll | mp3_group_28/student-distrib/lib.c:290-302 | memmove and fill shift the screen up one row, blank the last with character 0, and count the start line up to 224 |
| Console.Console.BufferScroll | mp3_group_28/student-distrib/lib.c:309-315 | The same for the 250 rows of scrollback inside a 275-row area |
| Console.Console.ScrollUp | mp3_group_28/student-distrib/lib.c:317-328 | One row up, the screen copied from the scrollback; nothing at the top |
| Console.Console.ScrollDown | mp3_group_28/student-distrib/lib.c:330-342 | One row down; nothing while the cursor is on the screen |
| Console.Console.Clear | mp3_group_28/student-distrib/lib.c:45-62 | Both areas blanked as coded, with the coordinates it leaves |
| Console.Console.TerminalWrite | mp3_group_28/student-distrib/terminal.c:85-91 | Every byte goes through putc in order and the count comes back |
| Memory.Memset | mp3_group_28/student-distrib/lib.c:419-453 | Alignment head, dword body and byte tail fill exactly the n bytes with the low byte of the value, for every length and address |
| Memory.Memcpy | mp3_group_28/student-distrib/lib.c:502-540 | The three-part copy equals a simultaneous copy whenever the regions are disjoint or the destination is not above the source |
| Memory.Memmove | mp3_group_28/student-distrib/lib.c:548-570 | The two-directional copy equals a simultaneous copy for every overlap |
| Memory.FilledAt | mp3_group_28/student-distrib/lib.c:419-453 | Byte for byte: the n bytes from s are the value, every other is as it was |
| Memory.MovedAt | mp3_group_28/student-distrib/lib.c:548-570 | Byte for byte: the n bytes from the destination are those of the source, every other is as it was |
| Numerals.NumeralReadsBack | mp3_group_28/student-distrib/lib.c:351-380 | Evaluating the digits of a numeral gives the number, for every value and radix 2 to 36 |
| Numerals.NumeralIsProper | mp3_group_28/student-distrib/lib.c:351-380 | A numeral has only digits of its radix and no leading zero except for 0 |
| Numerals.NumeralIsUnique | mp3_group_28/student-distrib/lib.c:351-380 | Conversely any digit string without a leading zero is the numeral of its value |
| Numerals.NoMoreThan32Digits | mp3_group_28/student-distrib/lib.c:351-380 | No 32-bit value needs more than 32 digits |
| Numerals.LowFirstIsReversed | mp3_group_28/student-distrib/lib.c:368-379 | The digits in the order the loop finds them, reversed, are the numeral |
| Numerals.Strrev | mp3_group_28/student-distrib/lib.c:387-400 | The in-place exchange leaves the reversed string and touches nothing else |
| Numerals.Itoa | mp3_group_28/student-distrib/lib.c:351-380 | The buffer gets the numeral and a NUL and is otherwise unchanged |
| Numerals.FormatHex | mp3_group_28/student-distrib/lib.c:115-133 | %x puts out the numeral; %#x always eight digits with the same value, padded with zeros |
| Numerals.FormatSigned | mp3_group_28/student-distrib/lib.c:147-160 | %d puts out a minus sign and the magnitude, also for the lowest value, whose negation wraps |
| Numerals.SignedReadsBack | mp3_group_28/student-distrib/lib.c:147-160 | The signed numeral reads back as the value |
| Numerals.SignedIsProper | mp3_group_28/student-distrib/lib.c:147-160 | It is a minus sign, for negative values only, and a decimal without a leading zero |
| Numerals.HexExample | mp3_group_28/student-distrib/lib.c:351-380 | 0xCAFE comes out as CAFE |
| FileImage.BlockSlice | mp3_group_28/student-distrib/filesyshelper.c:117-124 | The bytes of a block inside the file are the corresponding slice of the flat file |
| FileImage.ContentsLength | mp3_group_28/student-distrib/filesyshelper.c:99-116 | A file is as long as the first word of its inode block says; an inode number out of range has no bytes |
| FileImage.ContentsByte | mp3_group_28/student-distrib/filesyshelper.c:117-124 | Byte 4096 k + r of a file is byte r of the data block that the k-th word behind the length names, counted from behind the inode blocks |
| FileExample.NamesLeadToTheirFiles | mp3_group_28/student-distrib/filesyshelper.c:37-127 | In an image of two files, one over two data blocks out of order, each name leads to its own contents |
| FileImage.ReadData | mp3_group_28/student-distrib/filesyshelper.c:92-127 | One call delivers the flat file from the offset, cut at the block, the file and the request; -1 exactly for a bad inode or an offset at or past the end |
| FileImage.ReadCountIsLeast | mp3_group_28/student-distrib/filesyshelper.c:106-124 | What one call delivers is the rest of the request, of the block or of the file, whichever is least |
| FileImage.FileRead | mp3_group_28/student-distrib/filesyshelper.c:168-181 | The loop copies exactly the flat file from the position on, cut to the request, and ends because every turn makes progress; nothing for a request that is not positive |
| Directory.LookupIsLeastIndex | mp3_group_28/student-distrib/filesyshelper.c:37-59 | Lookup by name finds the entry of the lowest index with that name, as lookup by that index gives it, and fails exactly when no entry has it |
| Directory.OneByteField | mp3_group_28/student-distrib/filesyshelper.c:53-54 | The single byte fetched for a type or inode is the whole 32-bit field exactly when the field is below 256 |
| Directory.InodeFieldIsCut | mp3_group_28/student-distrib/filesyshelper.c:53-54 | An inode field of 256 is read as 0 |
| Directory.NameMatches | mp3_group_28/student-distrib/filesyshelper.c:45-51 | Length and prefix comparison together decide equality with the name field, terminated or not |
| Directory.ReadDentryByName | mp3_group_28/student-distrib/filesyshelper.c:37-59 | The scan of the table returns the specified entry |
| Directory.IndexThenName | mp3_group_28/student-distrib/filesyshelper.c:69-81 | Lookup by index succeeds exactly below the count; its entry is found again by name exactly when no earlier entry has that name, and otherwise the name leads to an earlier entry |
| Directory.EntryFields | mp3_group_28/student-distrib/filesyshelper.c:45-79 | Entry k is the 64 bytes from 64 (k + 1) on: the name in the first 32, then the type and the inode number as words, of which the code gets the right value exactly below 256 |
| Directory.Strncmp | mp3_group_28/student-distrib/lib.c:579-590 | Zero exactly when the first n characters agree |
| CommandLine.ScanName | mp3_group_28/student-distrib/sys_execute.c:43-60 | The program name is the first word; a newline after it is taken into it |
| CommandLine.ScanArgs | mp3_group_28/student-distrib/sys_execute.c:62-76 | The argument text as the scan leaves it, and its fit in the 128-byte array for commands of at most 126 characters |
| CommandLine.ParseCommand | mp3_group_28/student-distrib/sys_execute.c:43-81 | Name and argument text together |
| CommandLine.NameIsFirstWord | mp3_group_28/student-distrib/sys_execute.c:43-76 | Whatever number of spaces stands before it, the name is the first word, with a newline that directly follows it, and the arguments come from the rest |
| CommandLine.ArgsLoseTheirSpaces | mp3_group_28/student-distrib/sys_execute.c:64-76 | The argument text is the typed text without any of its spaces, up to a newline that directly follows something else |
| CommandLine.ArgsArriveIntact | mp3_group_28/student-distrib/sys_execute.c:43-81 | The arguments arrive as typed exactly when they are a single word, or none and no newline either |
| CommandLine.TwoArgsRunTogether | mp3_group_28/student-distrib/sys_execute.c:64-76 | "grep a b" gets the one argument "ab" |
| CommandLine.ArgsFit | mp3_group_28/student-distrib/sys_execute.c:62-78 | The arguments of every command that fits the parser's arrays are a C string that fits argbuf |
| KernelInvariant.MaskFindsSlot | mp3_group_28/student-distrib/sys_execute.c:158-159 | Masking any stack pointer inside a process's 8 KB slot yields that slot, and only that |
| KernelInvariant.SlotsAndFramesAreDisjoint | mp3_group_28/student-distrib/sys_execute.c:117-159 | Control blocks of different processes do not overlap, and their page frames differ from each other and from the kernel's |
| KernelInvariant.OpenTakesLeastFree | mp3_group_28/student-distrib/systemcall_function.c:68-116 | open returns the least free descriptor and changes only that; it fails exactly when the table is full or a file name is missing, and then changes nothing |
| KernelInvariant.ReadMovesPosition | mp3_group_28/student-distrib/systemcall_function.c:32-41 | A read returns as many bytes as it delivers, moves that descriptor by as many and changes no other; a refused read changes nothing |
| KernelInvariant.EquippedFds | mp3_group_28/student-distrib/sys_execute.c:172-177 | Opening stdin and stdout for a new process touches only its own descriptors and the kernel stack |
| KernelCalls.CloseFreesDescriptor | mp3_group_28/student-distrib/systemcall_function.c:123-129 | close of an open descriptor from 2 on returns 0, frees it, and changes no other descriptor and nothing else but the directory cursor; otherwise it is refused and changes nothing |
| KernelCalls.CloseUndoesOpen | mp3_group_28/student-distrib/systemcall_function.c:68-129 | Closing what an open returned leaves the same descriptors open, and the same least free one, as before |
| KernelCalls.PairsNeverRunOut | mp3_group_28/student-distrib/systemcall_function.c:68-129 | With one descriptor free, any number of opens of names that are there succeeds when each is closed before the next |
| KernelCalls.DevicesOpenByName | mp3_group_28/student-distrib/systemcall_function.c:75-107 | "stdin", "stdout", "rtc" and "." open without a lookup, and what reads and writes of each come to |
| KernelCalls.ClockTakesPowersOfTwo | mp3_group_28/student-distrib/rtc.c:125-170 | The clock takes four bytes that hold a power of two from 2 to 1024, and complains about any other four |
| KernelCalls.OnlyTheConsoleIsWritten | mp3_group_28/student-distrib/systemcall_function.c:52-58 | What is written to stdout goes to the console; the keyboard, files and the directory refuse, and a refused write changes nothing |
| KernelCalls.VidmapMapsTheTable | mp3_group_28/student-distrib/systemcall_function.c:156-174 | vidmap refuses 0 and 4 MB, and otherwise makes directory entry 64 a present, writable table for programs, and changes nothing else |
| KernelCalls.FileReadDelivers | mp3_group_28/student-distrib/filesyshelper.c:168-181 | A read of a file delivers exactly as many bytes as were asked for or are left, from its position on |
| KernelCalls.ProgramsStartWithMagic | mp3_group_28/student-distrib/sys_execute.c:105-118 | A name is a program exactly when its file has forty bytes and starts with 7F 45 4C 46 |
| KernelInvariant.FirstShellInv | mp3_group_28/student-distrib/sys_execute.c:93-203 | The first shell, executed into memory with nothing open, establishes the state invariant |
| KernelInvariant.ExecuteKeepsInv | mp3_group_28/student-distrib/sys_execute.c:93-203 | execute keeps the state invariant |
| KernelInvariant.HaltKeepsInv | mp3_group_28/student-distrib/sys_execute.c:212-248 | halt keeps the state invariant, including the restart of the first shell |
| KernelInvariant.StepKeepsInv | mp3_group_28/student-distrib/sys_execute.c:93-248 | Every system call keeps the state invariant |
| KernelRuns.ReachableStates | mp3_group_28/student-distrib/sys_execute.c:108-236 | In every state reachable from boot: the running process is the top of a stack of 1 to 5, its number is process_total, its page entry maps frame number + 1, parent links run n, n-1, ..., 1, 1, live processes have stdin and stdout at 0 and 1, other control blocks have nothing open |
| KernelRuns.FailedExecuteChangesNothing | mp3_group_28/student-distrib/sys_execute.c:106-124 | execute fails exactly when the name is no program or five processes live, and then changes nothing but the console, where only a program refused for the limit leaves the message |
| KernelRuns.ExecutedChild | mp3_group_28/student-distrib/sys_execute.c:106-203 | A successful execute adds one process in its own slot and frame with exactly stdin and stdout open, its arguments, its return registers, an empty kernel stack and the whole program at the load address, and enters it at the address in bytes 24 to 27 of the file |
| KernelRuns.RestartedShellKeepsDescriptors | mp3_group_28/student-distrib/sys_execute.c:216-222 | The halted first shell is restarted, at the address its header holds, with every descriptor it had, and stdin and stdout opened again where there is room |
| KernelRuns.ExecuteReturns | mp3_group_28/student-distrib/sys_execute.c:93-248 | For any run of the child and its descendants between execute and the child's halt, the parent and all its ancestors are exactly as before (descriptors, arguments, links, whole pages), with process_total, current_pcb, the page entry and the kernel stack pointer restored, and execute returns the child's status |
| KernelRuns.RunKeepsMap | mp3_group_28/student-distrib/systemcall_function.c:156-174 | No run changes a page-directory entry but the program's and the video memory's; the latter is mapped exactly when some process of the run asked for it, and a halt never takes it away |
| Paging.MemoryInReach | mp3_group_28/student-distrib/paging.c:17-83 | In every state of every run from boot, with the directory and tables as the processor walks them: a program reaches, to read and to write, exactly its own 4 MB page, the video memory at its physical address, and once some process has asked also at 256 MB; the kernel reaches its own page and the scrollback besides |
| KernelExample.ImageIsOk | mp3_group_28/student-distrib/filesyshelper.c:37-127 | A three-block image with "shell" and then "." in its directory meets everything the kernel relies on |
| KernelExample.NestedShellReturns | mp3_group_28/student-distrib/sys_execute.c:93-248 | From power-on with any image in order the first shell starts, executes a second and gets its status back |
| KernelReads.ReadsDeliverTheFile | mp3_group_28/student-distrib/systemcall_function.c:32-41 | For any run with any interleaving of descriptors, processes and files, the bytes delivered on a descriptor concatenate to the file from where it stood, and its position is their count |
| KernelReads.ReadToTheEnd | mp3_group_28/student-distrib/filesyshelper.c:168-181 | A read of at least one byte returns 0 exactly when the whole file has been delivered |
| KernelReads.DirReadStep | mp3_group_28/student-distrib/filesyshelper.c:220-238 | One read of the directory delivers the entry under the global cursor and moves it |
| KernelReads.NthDirRead | mp3_group_28/student-distrib/filesyshelper.c:220-238 | Reading one open directory over and over: the n-th read gives the n-th entry of the listing, once each, and then 0 forever |
| KernelReads.DirReadsShareTheListing | mp3_group_28/student-distrib/filesyshelper.c:220-238 | In any run that neither opens nor closes the directory, its reads on all descriptors of all processes together deliver the next stretch of one listing: the cursor is global |
| KernelReads.OpenDirCursor | mp3_group_28/student-distrib/filesyshelper.c:189-192 | Opening "." puts the cursor at the start of the listing: of the one that begins with "." when the directory has that name, and otherwise with the last entry looked up |
| KernelReads.ListingIsDirectory | mp3_group_28/syscalls/ece391ls.c:18-26 | With no empty names, what ls prints is the directory exactly when "." is its first entry |
| KernelExample.LsMissesTheShell | mp3_group_28/syscalls/ece391ls.c:18-26 | On that image ls prints "." twice where the directory is "shell" and "." |
| KernelCode.FindProgram | mp3_group_28/student-distrib/sys_execute.c:105-118 | The checks succeed exactly for a program, and give its inode and entry point |
| KernelCode.System.constructor | mp3_group_28/student-distrib/paging.c:17-46 | Boot state: no process, nothing open, the initial page directory |
| KernelCode.System.InitPaging | mp3_group_28/student-distrib/paging.c:17-46 | The loop and assignments leave the low table, the kernel frame and the scrollback mapped and everything else absent |
| KernelCode.System.Boot | mp3_group_28/student-distrib/sys_execute.c:93-203 | After the first shell the object satisfies the invariant for good |
| KernelCode.System.SystemOpen | mp3_group_28/student-distrib/systemcall_function.c:68-116 | The coded open is the specified step |
| KernelCode.System.SystemClose | mp3_group_28/student-distrib/systemcall_function.c:123-129 | The coded close is the specified step; 0 and 1 cannot be closed |
| KernelCode.System.SystemRead | mp3_group_28/student-distrib/systemcall_function.c:32-41 | The coded read is the specified step, and the caller's buffer gets exactly what arrives |
| KernelCode.System.DirRead | mp3_group_28/student-distrib/filesyshelper.c:220-238 | The name under the cursor and its terminator go to the buffer and the cursor moves; nothing at the end |
| KernelCode.System.SystemWrite | mp3_group_28/student-distrib/systemcall_function.c:52-58 | The coded write is the specified step |
| KernelCode.System.SystemGetargs | mp3_group_28/student-distrib/systemcall_function.c:139-146 | The whole argument text and its terminator go to the buffer, whatever nbytes is |
| KernelCode.System.SystemVidmap | mp3_group_28/student-distrib/systemcall_function.c:156-174 | The coded vidmap is the specified step |
| KernelInvariant.ProgramsAreApart | mp3_group_28/student-distrib/paging.c:73-83 | In any two reachable states two program addresses lead to the same physical byte exactly when the same process number runs and the addresses are equal, and none leads into the kernel's page |
| KernelCode.System.MapAndLoad | mp3_group_28/student-distrib/sys_execute.c:125-144 | The program's page is mapped and the loader loop puts the whole file at the load address of that frame only |
| KernelCode.System.SystemExecute | mp3_group_28/student-distrib/sys_execute.c:93-203 | The coded execute is the specified step |
| KernelCode.System.SystemHalt | mp3_group_28/student-distrib/sys_execute.c:212-248 | The coded halt is the specified step |
| Programs.ReadFile | mp3_group_28/student-distrib/systemcall_function.c:32-41 | A program's read of an open file: the next bytes in its buffer, the position moved |
| Programs.ReadTakes | mp3_group_28/student-distrib/systemcall_function.c:32-41 | A read takes what it delivers from the front of what the descriptor had left, and delivers nothing only when nothing is left; a read of stdout fails |
| Programs.CopyToConsole | mp3_group_28/syscalls/ece391cat.c:21-28 | The read and write loop sends to the console all that the descriptor still has to deliver and ends: the rest of a file, the names of a directory run together up to the first empty one, nothing for the clock; on stdout it stops at the failed read |
| Programs.Cat | mp3_group_28/syscalls/ece391cat.c:6-31 | cat prints exactly what the named file, directory or device delivers and returns 0; "file not found" and 2 when it cannot be opened, "file read failed" and 3 for stdout |
| Programs.ListEntries | mp3_group_28/syscalls/ece391ls.c:18-26 | The loop prints the listing one name a line and ends |
| Programs.Ls | mp3_group_28/syscalls/ece391ls.c:8-29 | ls prints the listing, with or without "." in the directory, or the message when no descriptor is free |
| Programs.ListingReadsBack | mp3_group_28/syscalls/ece391ls.c:18-26 | The lines of what ls prints are the names again, when none is empty or has a newline in it |
| Grep.Strncmp | mp3_group_28/syscalls/ece391support.c:35-46 | Zero exactly when the whole pattern stands at that place before the terminator |
| Grep.CarryDown | mp3_group_28/syscalls/ece391support.c:14-17 | The overlapping copy moves the partial line to the front unchanged |
| Grep.SearchPiece | mp3_group_28/syscalls/ece391grep.c:40-51 | A stretch is printed once, behind the file name, exactly when the pattern occurs in it |
| Grep.ScanBuffer | mp3_group_28/syscalls/ece391grep.c:28-57 | One pass over the buffer: what is printed plus what the carried rest still owes is what the buffer and the unread file owed |
| Grep.DoOneFile | mp3_group_28/syscalls/ece391grep.c:9-66 | The scanner prints, once each and in order, the matching stretches of the file, closes it and ends with the same descriptors open as before; or the message when it cannot be opened |
| GrepSpec.GrepFiltersLines | mp3_group_28/syscalls/ece391grep.c:20-60 | For every file, pattern and file name: the report is that of the matching lines exactly when no line longer than 1024 bytes contains the pattern |
| GrepSpec.GrepFiltersShortLines | mp3_group_28/syscalls/ece391grep.c:20-60 | It is that for every pattern exactly when no line is longer than 1024 bytes |
| GrepSpec.LongLineIsCut | mp3_group_28/syscalls/ece391grep.c:20-60 | A line of 1025 equal characters, searched for one of them, is not reported as it stands |
| GrepSpec.LinesReadBack | mp3_group_28/syscalls/ece391grep.c:26-31 | Lines read back from their text, with or without a newline behind the last |
| GrepSpec.ReportExample | mp3_group_28/syscalls/ece391grep.c:41-51 | A search for "b" in a file "f" of three lines prints "f:ba" and "f:cb" |
| BlinkSpec.TicksInClosedForm | mp3_group_28/fish/blink.S:60-90 | After t ticks status and countdown are the closed form in t modulo the period, for every pair of 16-bit lengths, also 0 and negative ones |
| BlinkSpec.WalksTickEach | mp3_group_28/fish/blink.S:49-99 | Any number of walks ticks every listed blink exactly that often |
| BlinkSpec.RemoveTakesTheFirst | mp3_group_28/fish/blink.S:187-237 | remove takes the first of the blinks at a location, leaves every other location its blinks and the screen as it is, and does nothing without one |
| BlinkSpec.RemoveUndoesAdd | mp3_group_28/fish/blink.S:105-237 | Removing what was just added restores the list; its character stays on the screen |
| BlinkSpec.SyncCopiesThePhase | mp3_group_28/fish/blink.S:240-300 | sync gives the target the lengths and phase of the source and draws its off character, and touches no other blink or cell |
| BlinkSpec.SyncedStayInStep | mp3_group_28/fish/blink.S:240-275 | After sync the two blinks keep equal lengths, status and countdown through any number of ticks |
| BlinkSpec.WalkKeepsDrawn | mp3_group_28/fish/blink.S:60-90 | With distinct cells, ticking keeps every cell showing its blink's present character |
| BlinkSpec.SyncKeepsDrawn | mp3_group_28/fish/blink.S:277-285 | sync leaves the target cell right exactly when the copied phase is off or both characters agree: its conditional move never fires |
| BlinkSpec.SyncAfterTwoAdds | mp3_group_28/fish/blink.S:277-285 | A sync right after two adds with different characters leaves the cell wrong |
| BlinkList.AddKeepsList | mp3_group_28/fish/fish.c:160-170 | Adding into a free-looking slot keeps a proper list over the slots in use exactly when the location is not 0 |
| BlinkList.TwoAtLocationZeroLoop | mp3_group_28/fish/fish.c:160-170 | In any memory with a free slot, two adds at location 0 share that slot, which then links to itself, and no proper list is left |
| BlinkList.LocationZeroNeverMends | mp3_group_28/fish/blink.S:105-184 | After one add at location 0, no further adds, however many and wherever, leave a proper list |
| BlinkList.RemoveKeepsChain | mp3_group_28/fish/blink.S:206-223 | Unlinking and zeroing an element leaves a proper list over the remaining slots |
| BlinkList.RemoveDropsOne | mp3_group_28/fish/blink.S:206-223 | The list has lost exactly that element, the others in order |
| BlinkList.FullWhenAllListed | mp3_group_28/fish/fish.c:160-170 | No slot looks free exactly when 2000 blinks are listed |
| BlinkList.Fishtank.Malloc | mp3_group_28/fish/fish.c:160-170 | The first slot at location 0, or none |
| BlinkList.Fishtank.Add | mp3_group_28/fish/blink.S:105-184 | In every memory: off-screen or no slot that looks free, -1 and nothing changed; otherwise the blink is in the first such slot, on, with its whole phase, drawn and at the head. From a proper list: full exactly at 2000, and still proper exactly when the location is not 0 |
| BlinkList.Fishtank.FindHelper | mp3_group_28/fish/blink.S:351-379 | The first listed blink at the location, or none; the walk ends |
| BlinkList.Fishtank.FindPrevious | mp3_group_28/fish/blink.S:206-212 | The link that leads to the element; the walk ends |
| BlinkList.Fishtank.Remove | mp3_group_28/fish/blink.S:187-237 | The first blink at the location is gone from the list and its whole slot zeroed, no other slot but its predecessor's link changed, or -1 and nothing |
| BlinkList.Fishtank.Sync | mp3_group_28/fish/blink.S:240-300 | The coded sync is the specified one |
| BlinkList.Fishtank.Tasklet | mp3_group_28/fish/blink.S:49-99 | The coded walk ticks and draws as specified |
| Frames.FedGivesTheCell | mp3_group_28/fish/fish.c:97-111 | A read yields the cell of the column, and a newline exactly past the end of the row |
| Frames.RowEnds | mp3_group_28/fish/fish.c:129-143 | Resetting the character variable, unless the file has ended, starts the next row of the file |
| Frames.AddFrames | mp3_group_28/fish/fish.c:78-147 | For every two files: exactly one add is issued per cell that is not blank in both padded frames, row by row, with the two characters, and no other, whether or not it succeeds, whichever file ends first and with or without a final newline; a proper list becomes the specified one when no location is stored as 0 |
| FramesSpec.LocatableAvoidsZero | mp3_group_28/fish/fish.c:120-121 | Frames whose cells all have 16-bit locations ask for no blink at location 0 |
| FramesOnScreen.CellIsRequested | mp3_group_28/fish/fish.c:117-122 | Every cell that is not blank in both frames is asked for |
| FramesOnScreen.BlankIsNotRequested | mp3_group_28/fish/fish.c:117-122 | No cell blank in both frames is |
| FramesOnScreen.RisingAddsSucceed | mp3_group_28/fish/fish.c:117-122 | Adds at rising locations all succeed and leave the list in reverse order with every cell drawn |
| FramesOnScreen.FramesAlternate | mp3_group_28/fish/fish.c:78-147 | Two frames of at most 25 lines of 40, final newline or not, added to an empty list: after t ticks each cell shows the first frame in the first half of every 30 ticks and the second in the other, and blank cells are untouched |
| FishProgram.ShowFrames | mp3_group_28/fish/fish.c:36-47 | The scanner and the tick loop on the two files do just that to every cell of the screen's right half |
| LineInput.KeyEditsText | mp3_group_28/student-distrib/keyboard.c:223-281 | A character, Enter or backspace does to the pending lines and the current line what it is for, within 127 characters and never across a line end |
| LineInput.CtrlLKeepsPendingEnds | mp3_group_28/student-distrib/keyboard.c:204-210 | Ctrl-L clears the input exactly when nothing is pending, and leaves line ends outside it exactly when a pending line is not empty |
| LineInput.CtrlLStrandsALine | mp3_group_28/student-distrib/keyboard.c:204-210 | A line typed ahead and then Ctrl-L: its end lies outside the input |
| LineInput.ReadKeepsOtherLines | mp3_group_28/student-distrib/terminal.c:51-56 | A read leaves the other pending lines as they were exactly when one line was pending, or the first was empty and the unmoved positions happen to agree |
| LineInput.ReadDeliversFirstLine | mp3_group_28/student-distrib/terminal.c:45-70 | However many lines are pending, a read delivers the first of them |
| LineInput.TwoPendingLinesGoWrong | mp3_group_28/student-distrib/terminal.c:51-55 | Two lines typed ahead: after one read the other's recorded end lies outside the input |
| LineInput.PressedAll | mp3_group_28/student-distrib/keyboard.c:249-253 | Whatever keys are pressed, input_location never exceeds 127 |
| LineInput.ReadyAfterEnter | mp3_group_28/student-distrib/keyboard.c:198-258 | For every key sequence: a read is let through exactly when the last key other than backspace and Ctrl-L was Enter |
| LineInput.OneReadPerEnter | mp3_group_28/student-distrib/terminal.c:39-76 | A read takes one line and withholds the others that are pending until the next Enter |
| LineInput.TypingAheadWithholdsTheLine | mp3_group_28/student-distrib/keyboard.c:240-255 | A character, Enter and a character: the finished line is pending and cannot be read |
| LineInput.TypingBuildsTheLine | mp3_group_28/student-distrib/keyboard.c:223-281 | Keys typed into an idle input leave the fold of the keys in the buffer |
| LineInput.RoundDeliversTheLine | mp3_group_28/student-distrib/terminal.c:45-76 | Keys, Enter, read: the line and a newline, or its first nbytes - 1 characters and a NUL, and the input idle again |
| LineInput.SessionReturnsItsLines | mp3_group_28/student-distrib/terminal.c:39-76 | In a session of any length in which each line is read before the next is typed every read returns its own line |
| Keyboard.MoveShiftsEnds | mp3_group_28/student-distrib/terminal.c:55 | Moving as many bytes as there are words shifts only every fourth position |
| Keyboard.Keyboard.MapKeys | mp3_group_28/student-distrib/keyboard.c:198-258 | The coded handler is the specified key step, for every character and Ctrl |
| Keyboard.Keyboard.HandleBackspace | mp3_group_28/student-distrib/keyboard.c:265-279 | The coded backspace is the specified step |
| Keyboard.Keyboard.TerminalRead | mp3_group_28/student-distrib/terminal.c:39-76 | The coded read delivers the first line and leaves the specified state, when that line lies inside the input |
| EmulatorSpec.TokenizerFindsTheWords | mp3_group_28/fish/ece391emulate.c:86-100 | Whatever runs of spaces stand around the words, the tokenizer finds exactly the words |
| EmulatorSpec.TokenizerLosesOnlySpaces | mp3_group_28/fish/ece391emulate.c:86-100 | Every one-line text is its words with runs of spaces around them, so nothing but the lengths of the runs is lost |
| EmulatorSpec.NewlineAfterWordSeparates | mp3_group_28/fish/ece391emulate.c:86-100 | A newline just after a word separates like a space; anywhere else it ends the arguments |
| EmulatorSpec.CommandSplits | mp3_group_28/fish/ece391emulate.c:81-100 | A command of a name, a space and spaced words splits into the name and the words |
| EmulatorSpec.TokenizeUndoesJoin | mp3_group_28/fish/ece391emulate.c:131-157 | Joined arguments tokenize to the same arguments |
| EmulatorSpec.WordsArrive | mp3_group_28/fish/ece391emulate.c:131-157 | When the words and a NUL fit, the buffer holds them joined up to the NUL, and they split into the same words |
| EmulatorSpec.LeadingWordsArrive | mp3_group_28/fish/ece391emulate.c:139-149 | When only the first words fit, with room to spare, they arrive with a space behind them and nothing else does |
| EmulatorSpec.NothingArrives | mp3_group_28/fish/ece391emulate.c:139-149 | When not even the first word fits nothing is written |
| EmulatorSpec.WritesPastTheRoom | mp3_group_28/fish/ece391emulate.c:139-149 | The byte past nbytes is overwritten exactly when some leading words just fill the room |
| EmulatorSpec.OneWordTooMany | mp3_group_28/fish/ece391emulate.c:139-149 | One word of one character and room for one byte overwrite the next |
| Emulator.SplitArguments | mp3_group_28/fish/ece391emulate.c:86-100 | The in-place loop leaves each pointer at its word, terminated |
| Emulator.Execute | mp3_group_28/fish/ece391emulate.c:67-101 | Over 1023 characters: -1 and nothing changed; otherwise the argument vector is "./" with the name and the words, within the array and closed by NULL |
| Emulator.GetArgs | mp3_group_28/fish/ece391emulate.c:131-157 | Success exactly when the joined words and a NUL fit in nbytes, with the buffer as specified on success and on failure |

## Left out

- clear with start_line above 0, and output past row 248 with scroll keys: the two views part there; the exact conditions are proved, what each view then shows is not.
- Cell attribute bytes, which are always 7, cursor port writes, and the physical address under which the scrollback is mapped.
- Drawing by backspace on the screen, and the echo of typed characters: the console and the keyboard are modelled apart.
- True interleaving of the keyboard interrupt with terminal_read: a key and a completed read are single steps, and the wait for read_flag is the precondition that it is set.
- terminal_open clearing read_flag when stdin or stdout is opened: the kernel model takes what stdin delivers as an argument of the call.
- Keyboard.Keyboard.MapKeys: does not take a 129th pending Enter, which the code stores behind the array of line ends.
- Keyboard.Keyboard.TerminalRead: does not take nbytes below 1, or a first line that ends beyond the input: the code then copies or moves a negative length.
- Scan codes, shift and caps flags, the key maps, RTC and interrupt controller setup, Multiboot parsing, exceptions and signals.
- Real register, stack and TLB switching: execute and halt are state transitions, the caller's stack pointer is any address in its own 8 KB slot, and its drift through tss.esp0 is not modelled.
- The stores that fill the two page tables, which are given to the paging theorem as they leave them, and the store of the mapped address at the caller's pointer.
- The bytes a read puts into the running program's own page: the kernel-level step returns them, and the program's stores are separate steps.
- Null buffers, and the reads of the descriptor table before a descriptor is checked to be in range: the result is -1 in either case.
- Scratch globals with no later effect: the parser's argument buffer, the last file entry, the running count of bytes read.
- File positions beyond 32 bits.
- Images whose blocks or inodes lie outside the image, programs too large for their 4 MB page, and a missing shell: the code does not check for them.
- KernelCode.System.SystemGetargs: does not model a buffer too small for the text, which the code does not check either.
- Programs.Cat: does not take stdin as its argument, whose reads each deliver a typed line, so that the loop never ends.
- Grep.DoOneFile: takes ordinary file names, files and patterns without NUL bytes, and the spare byte behind the buffer initially not a newline, as the scanner reads it before it writes it.
- Frames.AddFrames: after an add at a location stored as 0, states the adds issued and the memory but no list, as there is none (BlinkList.LocationZeroNeverMends); FramesSpec.LocatableAvoidsZero gives frames for which that does not happen.
- CommandLine.ScanArgs: the fit of the argument array is stated for commands of at most 126 characters; among longer ones some overrun arrays in the code.
- KernelCode.System.SystemExecute: takes the commands that fit the parser's arrays: 128 characters, with arguments that fit what the name leaves of 127 bytes (CommandLine.ShortCommandsFit: at most 126 characters always do).
- grep's own main loop over the directory, which calls the modelled parts; mp1_ioctl_find, which nothing calls.
- fork, execv, wait, opendir and mmap of the emulator, and its other system call wrappers.
- pingpong, counter, hello, sigtest, syserr and the kernel's own test drivers.
- strcpy, strncpy, puts and the plain %u, %c and %s of printf: the parts above do not depend on them beyond copying or printing a string.
