# 391OS: a verified model

391OS is a small x86 teaching kernel with three text terminals, a round-robin scheduler, a read-only block file
system, a virtualised real-time clock, and a few user programs. This project models its stateful core in Dafny and
proves what that core is for.

The code changes arrays and globals step by step, so each core file is a class (or methods over arrays) with the
fields of the source, proved against a specification on values. System calls and interrupt handlers are single
methods, since the code runs them with interrupts off.

## Main results

- **Processes** (`Processes`, `ProcessTable`, `Representation`, `KernelState`, `Runs`). The PCB table,
  `schedule_array`, `terminal[].curr_pid`, `process_num`, `page_dir[32]` and the TSS implement a machine of three
  call stacks. A tick, `execute`, `system_halt` and the restart of a first shell are exactly rotate, push, pop and
  no-op (`KernelState.Kernel.Tick`, `Execute`, `Halt`), and `Runs.Serve` carries this through any stream of requests
  from the state that power-on leaves. Over whole runs: fair scheduling, preempted registers come back, the halt
  that matches an `execute` gives the caller its registers and stack back, and the running process owns its page and
  its kernel stack. A program starts at the entry point of its file, which its PCB holds for as long as it lives
  (`Runs.StartAndServe`).
- **Reads across processes** (`Readers`). The position of a descriptor lives in a PCB that ticks, programs of other
  terminals and nested programs keep rewriting: the bytes that one process reads from one descriptor are still a
  contiguous part of the file, in order and complete, over any stream of requests (`Readers.ServeReader`), and from
  byte 0 when it has just opened the file by its name (`Readers.OpenAndRead`).
- **Screens** (`Screens`, `Transcript`, `Wrapping`, `Terminals`, `Video`, `WriteCalls`). Four pages of video memory, a
  live cursor and three saved ones behave as three terminals under any interleaving of characters, clears and display
  switches, which are independent but for the counter that a displayed tab looks at. Once a terminal has been cleared,
  its screen is the window on the unbounded transcript of the text written to it since, with lines of any length: a line
  goes round in its row, and each column holds the last character put there (`Video.Display.Serve`,
  `Transcript.WindowOnHistory`). The scheduler clears only the displayed page (student-distrib/scheduling.c:25), so
  this covers terminal 0 from the start, and terminals 1 and 2 from their first ctrl+L.
- **Files** (`FileSystem`, `Files`, `Directory`, `DiskImage`). The three-phase block loop of `read_data` equals a slice
  of the flat file; any series of reads puts the file together again; lookup finds the first entry with the name. On a
  disk written with given entries and files, both find what was written (`DiskImage.NamedFile`).
- **cat** (`WriteCalls`, `Cat`). From the data blocks to the screen: the run of `cat` is a stream of events for the
  terminals, which loses nothing of the file and adds nothing but newlines (`Cat.ShowFile`, `Cat.CatIsLossless`).
- **grep** (`GrepSpec`, `GrepBuffer`, `Grep`). What the sliding 1024-byte buffer with carry-over prints is known for
  every file. For a file without NULs it is what a search line by line prints exactly when every line with the pattern
  fits the buffer and the last read, which reports more bytes than it delivers, leaves nothing stale that matches
  (`GrepBuffer.GrepIsExact`); otherwise the output is wrong in a stated way.
- **Blinking characters** (`BlinkNode`, `BlinkList`, `BlinkRuns`). Over any sequence of add, remove, sync and tasklet
  calls, up to the one that links a slot twice if there is one, the linked list in the pool is a sequence of at most
  2000 nodes; after that one no walk ends (`BlinkRuns.ServeOne`, `BlinkRuns.Serve`). A character that is added shows
  the phase of its period after any number of tasklet calls.
- **Clocks, keyboard, library** (`Rtc`, `LineEditor`, `Keyboard`, `Memory`, `Numbers`). Rate and gap bounds of the
  virtual clocks, the line editor as a fold over the keys, word-wise memory routines equal to byte-wise ones, and
  printed numbers that read back.

## Where the code departs from its intent

The model follows the code. Each departure below is proved, with the exact condition under which the code is right.

- A shell command that fails is still counted: the counter drifts by exactly the failed commands whose name starts
  with "shell" (`Processes.ShellCounterDrift`), and three misspelt ones lock shells out
  (`Processes.MisspeltShellsLockOut`).
- The halt of pid 29 clears slot 32, the page of the process that then runs; no other step loses the address space
  (`Processes.StepKeepsAddressSpace`). Boot and 27 programs that are not shells, each started by the one before,
  reach it (`PageLoss.SlotIsLost`); while only shells call `execute` no pid exceeds 26 (`Processes.PidBound`).
- Halt closes descriptors 2 to 6: all are closed exactly when descriptor 7 was not in use (`KernelState.Kernel.Halt`),
  and the next process in the slot finds it as it was (`KernelState.Kernel.Execute`).
- A line of more than 80 characters goes round in its row (`Transcript.OverlongLineOverwrites`). The rows of a window
  are the first 80 characters of their lines exactly when each of these columns holds the character that the line has
  there (`Transcript.FoldedRows`); so they are whenever no line in the window is longer than a row.
- Backspace undoes a character on the screen exactly when that did not go into the last column of its row and replaced
  nothing but a space (`Transcript.BackspaceUndoes`).
- A tab is the same on displayed and hidden screens exactly when `row_letter_ct` is not between 77 and 80
  (`Screens.TabIsTransparent`, `Terminals.CharIsPut`); the counter is shared by the terminals and follows the keyboard.
- Each write counts its line from 0 wherever the cursor stands: writes to one terminal keep within the rows exactly
  when the first row of each fits behind what is in the row of the cursor (`Wrapping.WritesFit`). The four writes that
  print a line of grep do exactly when name, colon and line are at most 80 characters (`Wrapping.LineInParts`);
  otherwise the line overwrites the name.
- The newline behind "exit" and the one behind each write of `cat` go to the displayed screen, whatever terminal the
  process is on. The other terminals' screens stay exactly when there is no such newline, or the process is on the
  displayed terminal, or that one is blank with the cursor below its last row (`WriteCalls.OthersStay`).
- The `read` call returns the size asked for, not the count; the two agree exactly when the read was full or at the
  end of the file (`Files.ReadResultIsCount`).
- `cat` goes by that result and writes whole buffers: exactly the bytes of the file when 1024 divides its length, and
  NULs behind them otherwise, which the terminal drops (`Files.Drain`). Behind every buffer comes a newline: what is
  printed is the file and one newline exactly when the file has 1 to 1024 bytes (`Cat.CatBreaksLines`); a longer one is
  broken at every 1024th byte, in the middle of a line if it falls there.
- `read_data` delivers the slice exactly when offset plus length stays below 4 GB or nothing is left to read; otherwise
  it copies nothing and returns 0 or a negative number (`FileSystem.ReadData`).
- grep compares a signed with an unsigned byte: it is exact for patterns that start with an ASCII byte, and finds
  nothing for any other (`GrepSpec.ReportIsExact`).
- A line of more than 1024 bytes is searched in parts. The parts report what the lines do exactly when no line that
  contains the pattern is longer, and its first byte is ASCII (`GrepSpec.PiecesAreExact`).
- grep also goes by the result of `read`. The last read that delivers something seems full, so the last line is carried
  only up to its first NUL and searched again with stale bytes behind it. That prints one false line exactly when the
  file's remnant has a newline, its last line does not contain the pattern and the stale bytes do
  (`GrepBuffer.GrepIsExact`, `GrepBuffer.OneLineMore`); "ab" and a newline, searched for "b", is such a file
  (`GrepBuffer.FalseLine`). While every read is full or empty there is none (`GrepBuffer.FullReadsAreRight`).
- A node added at location 0 stays in a slot that counts as free. Walks of the blink list end after an add exactly when
  it is rejected or the first free slot is not linked (`BlinkList.Blinker.Add`); so any two accepted adds, the first at
  location 0, make a list that never ends (`BlinkList.Blinker.AddTwiceAtZero`), and sequences that add nothing there
  never do (`BlinkRuns.NoZeroNeverLoops`). After a sync the screen shows the right character exactly when the node is
  off or its two characters are equal (`BlinkList.Blinker.Sync`).
- `directory_read` writes 32 bytes whatever was asked for, where its comment says "as much as fits".
- `close` returns 1 on success, where its comment says 0.

## Model

| member | source | states |
|---|---|---|
| `Processes.LeastFree` | student-distrib/system_call.c:261-277 | the slot `execute` takes is the least one above the caller that is not active |
| `Processes.StepKeepsValid` | student-distrib/system_call.c:304-369 | every tick, execute and halt keeps three call stacks with growing pids, each with its shell at the bottom, and no process on two of them |
| `Processes.RoundRobin` | student-distrib/scheduling.c:70-79 | after any run the scheduled terminal is the one reached by its number of ticks, whatever programs started and halted |
| `Processes.FairShare` | student-distrib/scheduling.c:70-79 | a run with 3k ticks schedules every terminal exactly k times |
| `Processes.OthersUntouched` | student-distrib/scheduling.c:49-79 | stack and saved registers of a terminal do not change until its turn comes |
| `Processes.PreemptedContextReturns` | student-distrib/scheduling.c:50-60 | the registers restored at a resume are those saved at the preemption, on the same stack, however many programs ran on other terminals |
| `Processes.LowerFramesStay` | student-distrib/system_call.c:161-188 | what runs above a frame never changes the frames below it |
| `Processes.CallReturns` | student-distrib/system_call.c:325-334 | the halt that matches an execute restores the caller's stack, kernel stack and the esp/ebp it had, whatever happened in between |
| `Processes.ShellCounterDrift` | student-distrib/system_call.c:221-234 | over any run, counter minus live shells grows by exactly the failed shell commands |
| `Processes.MisspeltShellsLockOut` | student-distrib/system_call.c:222-229 | three commands named "shells" that do not exist exhaust the limit with only three shells alive |
| `Processes.StepKeepsAddressSpace` | student-distrib/system_call.c:451-471 | a step keeps page and kernel stack of the running process unless, and only unless, pid 29 halts |
| `Processes.NewPidBound` | student-distrib/system_call.c:261-277 | the pid found is bounded by the number of live processes, since every slot skipped is live |
| `Processes.StepKeepsDiscipline` | student-distrib/system_call.c:222-234 | while only shells execute, every step keeps at most six shells and pids within six per level |
| `Processes.PidBound` | student-distrib/system_call.c:451-454 | under the shell limit no pid exceeds 26 and no stack five frames |
| `Processes.RegionsDisjoint` | student-distrib/system_call.c:68-80 | in every valid state the frames and the 8 KB PCB and stack regions of two live processes do not meet, and each kernel stack starts on the last word of its own region |
| `Processes.RegionsBounded` | student-distrib/system_call.c:451-454 | under the shell limit all regions lie in the last 216 KB below 8 MB |
| `Processes.AddressSpaceOverRuns` | student-distrib/system_call.c:144-153 | in every state of every run in which only shells execute, the running process has its own frame mapped and its own kernel stack |
| `PageLoss.LadderStep` | student-distrib/system_call.c:261-277 | a program on top of terminal 0 that starts another gets the next pid on top of it |
| `PageLoss.Climb` | student-distrib/system_call.c:261-277 | n nested programs after boot stack up the pids without a gap |
| `PageLoss.SlotIsLost` | student-distrib/system_call.c:451-471 | from the booted machine, 27 nested programs put pid 29 on top, and its halt leaves pid 28 running without a page in slot 32 |
| `ProcessTable.TablePush` | student-distrib/system_call.c:304-343 | filling in a free slot pushes one frame and leaves the other stacks and free slots as they were |
| `ProcessTable.TablePop` | student-distrib/system_call.c:161-171 | clearing the slot of the top frame pops it and leaves the rest |
| `Representation.LaunchRepresents` | student-distrib/system_call.c:279-369 | the globals after a launch represent the machine after the push |
| `Representation.ExecuteRefines` | student-distrib/system_call.c:210-369 | whether it launches or gives up, execute represents its step; a new process finds 0 and 1 open, 2 to 6 closed and 7 as it was |
| `Representation.PopRepresents` | student-distrib/system_call.c:144-171 | the globals after a halt represent the machine after the pop |
| `Representation.RestartRepresents` | student-distrib/system_call.c:189-197 | the restart of a first shell through the label `shell_halt` leaves the stacks as they are |
| `Representation.TickRepresents` | student-distrib/scheduling.c:50-79 | the globals after a steady tick represent the rotation, and the registers loaded are the saved ones |
| `Representation.BootLaunch` | student-distrib/system_call.c:346-352 | the launch of first shell k fills slot k and leaves the earlier shells in place |
| `Representation.BootRepresents` | student-distrib/scheduling.c:22-48 | after the third launch the globals represent three one-frame stacks |
| `KernelState.Kernel.constructor` | student-distrib/kernel.c:172-177 | the state before the first tick: no process, nothing counted |
| `KernelState.Kernel.PagingExecute` | student-distrib/system_call.c:478-500 | slot 32 maps frame 2 + pid, no other slot changes |
| `KernelState.Kernel.DisableChildPage` | student-distrib/system_call.c:451-471 | slot process_num + 3 becomes not present, no other slot changes |
| `KernelState.Kernel.FindSlot` | student-distrib/system_call.c:261-267 | the search stops at the least free slot above the caller |
| `KernelState.Kernel.FillPcb` | student-distrib/system_call.c:304-359 | the fields of the new PCB in its three cases: first shells, later processes, restarts; the entry point is the one given, and a restart keeps its own |
| `KernelState.Kernel.Launch` | student-distrib/system_call.c:304-370 | the globals after the last part of execute, and that the context switch goes to the entry point in the PCB |
| `KernelState.Kernel.Admit` | student-distrib/system_call.c:221-277 | counts shells, and gives up exactly at the limit, without a file or without a slot |
| `KernelState.Kernel.Execute` | student-distrib/system_call.c:210-370 | execute refines a push on the stack of the scheduled terminal; it takes the first inactive slot above the caller and gives up exactly without a file, on a seventh shell or without such a slot; the new PCB is linked to the caller and holds its registers, the page and the kernel stack are those of its pid, it starts at the entry point of its file, which the PCB holds; no other PCB changes |
| `KernelState.Kernel.CloseEntry` | student-distrib/system_call.c:158 | the close operation of a descriptor frees that descriptor of the running process only |
| `KernelState.Kernel.CloseFiles` | student-distrib/system_call.c:156-159 | descriptors 2 to 6 are closed, 7 is left |
| `KernelState.Kernel.Pop` | student-distrib/system_call.c:144-188 | the part of halt for a process with a parent |
| `KernelState.Kernel.Restart` | student-distrib/system_call.c:149-153 | the part of halt for a first shell |
| `KernelState.Kernel.Halt` | student-distrib/system_call.c:136-198 | halt refines a pop, or leaves the stacks as they are for a first shell; it hands over to the parent with the registers that this had in execute, clears page entry pid + 3, keeps every entry point and starts a first shell again at its own; all descriptors are closed iff 7 was not open; no other process loses one |
| `KernelState.Kernel.Rotate` | student-distrib/scheduling.c:50-79 | the changes of the globals by a steady tick |
| `KernelState.Kernel.Tick` | student-distrib/scheduling.c:49-155 | a steady tick refines the rotation: the registers go to the PCB of the process, those of the next terminal's come back, and page_dir[32] and tss.esp0 are those of its pid; nothing else in the table changes |
| `KernelState.Kernel.BootTick` | student-distrib/scheduling.c:23-47 | each of the three first ticks launches one shell, at the entry point that its PCB then holds; the third leaves the invariant, with six shells at most and the address space owned |
| `KernelState.Kernel.Interrupted` | student-distrib/scheduling.c:29-43 | the PCB table after a boot tick: in the PCB of the last shell the saved registers and the two flags, and nothing else |
| `KernelState.Kernel.FindFree` | student-distrib/filesys.c:230-237 | the least free descriptor from 2 on, or -1 when all six are taken |
| `KernelState.Kernel.ChangeFd` | student-distrib/filesys.c:249-256 | a change of one descriptor of the running process keeps the invariant and every other descriptor |
| `KernelState.Kernel.OpenEntry` | student-distrib/filesys.c:221-258 | an entry is opened on the least free descriptor; -1 without a change exactly when there is no entry or no free descriptor |
| `KernelState.OpensLeastFree` | student-distrib/filesys.c:220-258 | which descriptor open takes and what is on it afterwards, by the type word and the inode word of the entry |
| `KernelState.Kernel.Open` | student-distrib/system_call.c:576-602 | open of a name, by the first entry with it: -1 and no change exactly when there is none or 2 to 7 are in use; else the least free descriptor is open at position 0, on the clock, the directory or a file for type 0, 1 or 2, a file with the inode number of the entry; for a fourth type no change and what the result variable held; nothing else in the table changes |
| `KernelState.ReadDevice` | student-distrib/filesys.c:174-197 | a file delivers what is left at the position, at most n, and zeros behind; the directory its next name; -1 for a bad inode |
| `KernelState.MovesByWhatIsRead` | student-distrib/filesys.c:174-197 | a read moves the directory by one entry of 32 bytes and a file by the bytes that were there, at most n |
| `KernelState.Kernel.ReadAndMove` | student-distrib/filesys.c:174-197 | the bytes at the position, and the position of that one descriptor moved by their number, or unchanged after -1 |
| `KernelState.Kernel.Read` | student-distrib/system_call.c:510-538 | read: -1 for a bad descriptor or a negative size; of a file or the directory the bytes at the position, which moves on in the PCB of the running process only; of the terminal or a clock no change of any PCB; the result is n unless nothing was read or the device failed |
| `KernelState.Kernel.Close` | student-distrib/system_call.c:610-622 | close returns 1 exactly for an open descriptor among 2 to 7, which is then free with its other fields and all others as they were; otherwise -1 and no change |
| `KernelState.Kernel.CloseThenOpen` | student-distrib/system_call.c:576-622 | what is closed is what the next open takes, when the descriptors below it are in use |
| `KernelState.Kernel.OpenThenClose` | student-distrib/system_call.c:576-622 | close undoes open: the same descriptors are in use as before |
| `Runs.TableShowsStacks` | student-distrib/system_call.c:318-362 | parent numbers link each frame to the one below, pids grow, the bottom is the terminal's shell, and the scheduler array and `curr_pid` hold the top |
| `Runs.ActiveIsOnAStack` | student-distrib/system_call.c:156-167 | the active PCBs are exactly the frames of the three stacks, each on one, and a free one has 2 to 6 closed |
| `Runs.ServeChange` | student-distrib/scheduling.c:49-79 | an interrupt, an execute or a halt is one step of the machine, touches no descriptor of another live process, and changes at most the entry point of the slot it starts a program in |
| `Runs.ServeCall` | student-distrib/system_call.c:510-622 | open, close and read leave the machine and every entry point alone, change the caller's descriptors as stated and nobody else's, and a read delivers the bytes at the position |
| `Runs.ServeOne` | student-distrib/system_call.c:510-622 | any request keeps the invariant, is one step of the machine or none, changes only the descriptors of the process that makes it, and delivers what it reads |
| `Runs.Serve` | student-distrib/scheduling.c:70-79 | any stream of requests takes the globals through the machine's run, with the terminals in turn and the shell counter drifting by the failed shell commands, and leaves in every PCB the entry point of the program last started in it |
| `Runs.StartStays` | student-distrib/system_call.c:304-315 | no event of a run changes the entry point of a process that stays alive |
| `Runs.StartedWith` | student-distrib/system_call.c:315 | over any run that keeps it alive, a process holds the entry point that execute started it with |
| `Runs.StartAndServe` | student-distrib/system_call.c:304-370 | the PCB of a program that is started holds the entry point of its file after any stream of requests that keeps it alive |
| `Runs.LaunchShells` | student-distrib/scheduling.c:22-47 | three timer interrupts from power-on launch the three shells, each with the entry point of the shell's file |
| `Runs.Boot` | student-distrib/scheduling.c:22-68 | four timer interrupts from power-on reach the invariant with three shells, all three counted and with their entry point, the first one scheduled |
| `Runs.ServeShells` | student-distrib/system_call.c:222-234 | after any requests of programs that leave execute to shells, page_dir[32] and tss.esp0 are those of process_num, its pid is at most 26 and at most six shells are counted |
| `Readers.FdAfter` | student-distrib/system_call.c:510-622 | a request of the process itself leaves its open descriptor alone, unless it reads or closes it or the process halts |
| `Readers.ReadGoesOn` | student-distrib/filesys.c:190-195 | a read yields the file from the position on, and the position moves to the end of what it yielded |
| `Readers.ReadingGoesOn` | student-distrib/filesys.c:190-195 | any request of any process keeps the descriptor of p where the reads of p have brought it |
| `Readers.ServeReader` | student-distrib/filesys.c:174-197 | over any stream of requests of all processes that does not close it or halt its owner, the reads of one descriptor yield the file from its position to the sum of their sizes or its end, each byte once and in order |
| `Readers.OpenAndRead` | student-distrib/system_call.c:576-602 | open of the name of a file and any stream of requests that does not close it or halt its owner: the reads yield the file from byte 0 |
| `Screens.TabIsTransparent` | student-distrib/lib.c:197-211 | the tab of a displayed screen equals that of a hidden one iff the letter counter is not within 77 to 80 |
| `Screens.PutAllConcat` | student-distrib/lib.c:182-226 | writing two streams is writing their concatenation |
| `Screens.PutByCell` | student-distrib/lib.c:190-225 | cell by cell: a newline only moves the cursor, any other character but a tab goes into one cell with attribute 7 and the cursor moves on in its row; a backspace goes left first, past column 0 too, and stores a space |
| `Screens.ScrollByCell` | student-distrib/lib.c:184-187 | past the last row the rows move up by one first and the last becomes blank |
| `Screens.TabByCell` | student-distrib/lib.c:197-211 | a tab stores four spaces in the four columns behind the cursor and ends on the last of them |
| `Transcript.FoldAppend` | student-distrib/lib.c:219-222 | one more character changes exactly the column that its number leaves by 80 |
| `Transcript.WindowOnHistory` | student-distrib/lib.c:184-226 | from a cleared screen, whatever text is written, of any length and with lines of any length, row r is line above + r of its transcript, folded, with the deferred scroll and the cursor at the length of the last line mod 80; it shows the lines themselves iff those in the window are legible, and whenever no line exceeds 80 characters |
| `Transcript.FoldedRows` | student-distrib/lib.c:219-222 | folded rows are the first 80 characters of their lines iff every column of every line holds the character the line has there |
| `Transcript.StreamShows` | student-distrib/lib.c:212-224 | a screen that is a folded window on its transcript stays one under any text |
| `Transcript.PutShows` | student-distrib/lib.c:212-224 | one character, behind a line of any length, moves the window with the transcript |
| `Transcript.ScrollShows` | student-distrib/lib.c:605-626 | the scroll keeps the window: it drops the first row and brings in the empty last line |
| `Transcript.OverlongLineOverwrites` | student-distrib/lib.c:220-222 | behind 80 characters or more the next one replaces that of its column in the folded row, and nothing else of it |
| `Transcript.FitsIsShort` | student-distrib/lib.c:219-224 | a stream that keeps within the rows is a text whose transcript has no line over 80 characters |
| `Transcript.BackspaceUndoes` | student-distrib/lib.c:189-196 | backspace takes a character back from the screen iff it did not go into column 79 and the line was shorter than a row or had a space there |
| `Wrapping.WrappingIsLossless` | student-distrib/terminal.c:140-163 | the loop adds only newlines, and without them emits the buffer without its NULs |
| `Wrapping.WrappedFits` | student-distrib/terminal.c:140-152 | no row of what the loop emits exceeds 80 characters |
| `Wrapping.WrappedConcat` | student-distrib/terminal.c:140-163 | the loop cut in two, with its counter carried over, emits what the whole loop emits |
| `Wrapping.TwoWritesFit` | student-distrib/terminal.c:119 | of two calls, each counting from 0, the second overflows the row that the first left iff the two parts together exceed 80 characters |
| `Wrapping.WritesFit` | student-distrib/terminal.c:117-163 | a series of calls keeps within the rows iff the first row of each fits behind what is in the row of the cursor |
| `Wrapping.WritesShow` | student-distrib/terminal.c:117-163 | texts written by any series of calls from a cleared screen show the last rows of their wrapped transcript, folded, and not folded when every call fits |
| `Wrapping.WrittenTextShows` | student-distrib/terminal.c:117-163 | the text of one call from a cleared screen shows the last rows of its wrapped transcript, not folded |
| `Wrapping.PlainRow` | student-distrib/terminal.c:140-152 | the first row of a text without newlines holds its first characters, up to 80 with those counted already |
| `Wrapping.LineInParts` | syscalls/ece391grep.c:45-48 | the four writes that print a name, a colon, a line and a newline keep within the rows iff name, colon and line are at most 80 characters |
| `Terminals.CharIsPut` | student-distrib/lib.c:197-211 | a character does to its screen what it does to a terminal alone iff it is not a tab on the displayed screen with the counter from 77 to 80 |
| `Terminals.Isolation` | student-distrib/terminal.c:156-161 | under any interleaving, the screen of a terminal is that of a terminal alone that receives only its own characters since it was cleared, when none of them is such a tab |
| `Terminals.TextIsPlain` | student-distrib/lib.c:197-211 | a text without tabs has no such tab |
| `Terminals.ClearedShows` | student-distrib/lib.c:27-36 | after any interleaving, a terminal that was cleared while displayed shows the folded window on the text written to it since |
| `Video.Display.VerticalScroll` | student-distrib/lib.c:605-626 | rows move up by one, the last becomes blank, nothing else in video memory changes |
| `Video.Display.BackgroundScroll` | student-distrib/lib.c:635-652 | the same on the page and cursor of a hidden terminal |
| `Video.Display.Putc` | student-distrib/lib.c:182-226 | the displayed page and cursor take the character, tabs with the letter counter; the other pages stay |
| `Video.Display.PutTab` | student-distrib/lib.c:197-211 | the four spaces of a tab, with the newline that the letter counter brings in |
| `Video.Display.BackgroundPutc` | student-distrib/lib.c:233-277 | page and saved cursor of a hidden terminal take the character; everything else stays |
| `Video.Display.Clear` | student-distrib/lib.c:27-36 | the displayed page is blank and the cursor at the top left |
| `Video.Display.ClearDisplayed` | student-distrib/keyboard.c:147-149 | the screen of the displayed terminal becomes blank, the others stay |
| `Video.Display.SwitchVideoMem` | student-distrib/lib.c:663-671 | the live cursor is saved for one terminal and loaded from the other |
| `Video.Display.SwitchTerminals` | student-distrib/keyboard.c:534-540 | no logical screen changes, only which one is displayed |
| `Video.Display.Write` | student-distrib/terminal.c:156-161 | exactly the screen of the terminal written to takes the character, displayed or not |
| `Video.Display.Serve` | student-distrib/keyboard.c:534-540 | any interleaving of characters, clears and switches does to pages, cursors and letter counter what it does to three logical screens; each screen gets its own characters only, and once cleared is the folded window on the text written to it since |
| `Video.Display.WriteWrapped` | student-distrib/terminal.c:140-162 | one turn of the write loop emits the next part of the wrapped stream |
| `Video.Display.TerminalWrite` | student-distrib/terminal.c:140-163 | the loop of a write: the terminal's screen takes the wrapped buffer, the others stay, and the result counts the bytes that are not NUL |
| `WriteCalls.SameText` | student-distrib/lib.c:513-527 | 0 for a literal and a size that takes in its terminator iff the C string in the buffer is that text |
| `WriteCalls.TerminalWriteCall` | student-distrib/terminal.c:117-182 | the whole call is a stream of events: the letter counter a prompt sets, the wrapped buffer to the terminal, and to the displayed one a newline for "exit" and one while `cat` runs; -1 and nothing for a bad size or descriptor; and the two flags it leaves |
| `WriteCalls.CallStream` | student-distrib/terminal.c:140-182 | what each terminal receives from a call |
| `WriteCalls.HelloGoesOn` | student-distrib/terminal.c:136-170 | the call behind "Hello, " wraps its text as if both were one; the letter counter is set to the length of the other prompt |
| `WriteCalls.NewlinesShow` | student-distrib/lib.c:213-216 | one newline, or two, change every screen but a blank one with the cursor below its last row |
| `WriteCalls.OthersStay` | student-distrib/terminal.c:171-179 | the screens of the other terminals stay iff no newline follows the text, or the terminal is displayed, or the displayed screen is that one |
| `Memory.WordBytes` | student-distrib/lib.c:383 | a word stored is the four bytes it was made of |
| `Memory.Memset` | student-distrib/lib.c:353-387 | head, words and tail set exactly the n bytes, for every alignment and length |
| `Memory.Memcpy` | student-distrib/lib.c:436-473 | head, words and tail copy exactly the n bytes when the ranges are disjoint |
| `Memory.Memmove` | student-distrib/lib.c:482-500 | the destination gets the original source bytes for every overlap |
| `FileSystem.GatheredAt` | student-distrib/filesys.c:10-15 | block b of the flat file is data block number b of the inode |
| `FileSystem.PieceOfFile` | student-distrib/filesys.c:117 | the address computed for a piece of a block holds the piece of the flat file at the same place |
| `FileSystem.FetchEntry` | student-distrib/filesys.c:135 | the word at the address of a table entry, which lies inside the image also for the entry one past the table |
| `FileSystem.ReadWholeBlocks` | student-distrib/filesys.c:140-151 | the loop over whole blocks delivers them and stops with less than a block to go |
| `FileSystem.ReadFromMiddle` | student-distrib/filesys.c:116-138 | a read that starts inside a block delivers the right slice |
| `FileSystem.Locate` | student-distrib/filesys.c:111-114 | block and place in it of an offset |
| `FileSystem.CutAtEnd` | student-distrib/filesys.c:102-106 | the count after the cut, or a negative one when the unsigned sum wraps |
| `FileSystem.ReadBlocks` | student-distrib/filesys.c:108-160 | the three phases deliver exactly the slice asked for |
| `FileSystem.ReadData` | student-distrib/filesys.c:84-163 | for every well-formed image and all 32-bit offsets and lengths: -1 for a bad inode; otherwise the count is what is left, at most length, and the buffer gets exactly that slice of the flat file, iff the sum does not wrap or nothing is left; when it wraps nothing is copied |
| `DiskImage.EntryRoundTrip` | student-distrib/filesys.h:26-39 | on a disk written with given entries, each has the name, type and inode number it was written with |
| `DiskImage.LookupFinds` | student-distrib/filesys.c:39-44 | and the lookup of a name finds the first entry written with it |
| `DiskImage.FileRoundTrip` | student-distrib/filesys.h:33-44 | the file found in an inode is the file that was written there, of any length up to 1023 blocks |
| `DiskImage.NamedFile` | student-distrib/filesys.c:39-70 | a file written under a name is what the lookup of that name leads to |
| `Files.FileDescriptor.constructor` | student-distrib/filesys.c:249-253 | an opened file starts at position 0 |
| `Files.ReadAt` | student-distrib/filesys.c:183-195 | the buffer is cleared and gets the slice at the position |
| `Files.FileDescriptor.FileRead` | student-distrib/filesys.c:174-197 | the slice at the position, the position moved by the count, the rest of the n bytes zero, nothing else touched |
| `Files.ReadsReassemble` | student-distrib/filesys.c:174-197 | reads of any sizes put the file together, up to the sum of the sizes or its end |
| `Files.ReadSeries` | student-distrib/filesys.c:174-197 | a series of `file_read` calls of given sizes yields the chunks, which join to the file between the positions before and after |
| `Files.NothingOnlyAtEnd` | student-distrib/filesys.c:100-101 | a read of a positive size yields 0 iff the position is at the end |
| `Files.WholeBuffers` | syscalls/ece391cat.c:20-27 | a whole number of buffers that begins with the file and is less than one longer is the file iff the size divides its length |
| `Files.Drain` | syscalls/ece391cat.c:20-27 | the loop ends; what it writes is a whole number of buffers, the rest of the file and fewer than n zeros, and exactly the rest of the file iff n divides its length |
| `Cat.ShowFile` | syscalls/ece391cat.c:20-27 | for every file and every state of the display, the run reads to the end and does to the terminals what its events do |
| `Cat.CatStream` | student-distrib/terminal.c:117-182 | on the displayed terminal these are the wrapped buffers, each with its newlines |
| `Cat.CatIsLossless` | student-distrib/terminal.c:140-179 | without the newlines of the wrapping, they are the file without NULs and the newlines behind each write |
| `Cat.CatBreaksLines` | student-distrib/terminal.c:175-179 | when no write is "exit" or the prompt, that is the file and one newline iff the file has 1 to 1024 bytes |
| `Cat.CatShows` | student-distrib/terminal.c:117-182 | after a clear, `cat` of a text file shows the folded window on all of it |
| `Files.ReadResultIsCount` | student-distrib/system_call.c:526-537 | the value of the read call is the count iff the read was full or at the end |
| `Directory.CStringUnique` | student-distrib/filesys.c:40 | a name is determined by the bytes before its first NUL |
| `Directory.FirstNamed` | student-distrib/filesys.c:39-44 | the first entry with the name, if there is one |
| `Directory.Strncpy` | student-distrib/lib.c:550-561 | copies up to the NUL and pads with zeros, 32 bytes in all |
| `Directory.Strncmp` | student-distrib/lib.c:513-527 | 0 iff the padded name is the name looked for |
| `Directory.ReadDentryByIndex` | student-distrib/filesys.c:58-70 | the padded name, type and inode of an entry, or -1 outside the directory |
| `Directory.ReadDentryByName` | student-distrib/filesys.c:30-48 | the first entry with the name, or -1 when there is none |
| `Directory.ReadName` | student-distrib/filesys.c:305-340 | the padded name of the entry at the position, 32 bytes whatever was asked for; 0 from the end on |
| `Directory.DirectoryDescriptor.Read` | student-distrib/filesys.c:292-340 | the next name in 32 bytes after clearing the bytes asked for; 0 from the end on, -1 when closed |
| `Directory.ListAll` | syscalls/ece391ls.c:17-24 | a read loop lists every name once, in order, and ends |
| `GrepSpec.LinesJoin` | syscalls/ece391grep.c:30-32 | the lines joined by newlines are the file |
| `GrepSpec.FindsIsExact` | syscalls/ece391grep.c:42-44 | the test for a line is right iff-wise for patterns that start with an ASCII byte, and finds nothing for others |
| `GrepSpec.ReportIsExact` | syscalls/ece391grep.c:42-50 | so the lines reported are those that contain the pattern |
| `GrepSpec.PiecesAreLines` | syscalls/ece391grep.c:22-60 | when lines fit the buffer, what is searched piece by piece reports what the lines do |
| `GrepSpec.LongLineIsCut` | syscalls/ece391grep.c:22-33 | a file whose first line exceeds 1024 bytes is searched as its first 1024 bytes and then the rest |
| `GrepSpec.SilentLine` | syscalls/ece391grep.c:22-57 | a line that does not contain the pattern, of any length, reports nothing |
| `GrepSpec.LongMatchDiffers` | syscalls/ece391grep.c:22-57 | when the first line exceeds 1024 bytes and contains the pattern, the output differs from that of a search line by line, whatever follows |
| `GrepSpec.PiecesAreExact` | syscalls/ece391grep.c:22-57 | for every file, the pieces report what the lines contain iff every line with the pattern has at most 1024 bytes and, if there is one, the pattern starts with an ASCII byte |
| `GrepBuffer.ScanFull` | syscalls/ece391grep.c:28-57 | a pass over a full buffer reports the file up to the cut behind the last newline, or all of it without one, and carries the rest |
| `GrepBuffer.ScanShort` | syscalls/ece391grep.c:28-57 | a pass over a buffer that the file does not fill reports the complete lines, and the last one when it is the only one |
| `GrepBuffer.CarriedShort` | syscalls/ece391grep.c:33-38 | the carry of such a buffer is the last line, a NUL and stale bytes |
| `GrepBuffer.LastPass` | syscalls/ece391grep.c:58-59 | the pass after the last read prints the last line iff it or the stale bytes match |
| `GrepBuffer.SearchIs` | syscalls/ece391grep.c:9-66 | for every file without NULs the output is the report of the pieces and then the extra line of its remnant, if any |
| `GrepBuffer.FullReadsAreRight` | syscalls/ece391grep.c:22 | while every read is full or empty, the output is the report of the pieces, hence right iff the lines with the pattern fit |
| `GrepBuffer.GrepIsExact` | syscalls/ece391grep.c:9-66 | for every file without NULs, the output is that of a search line by line iff every line with the pattern fits and the stale bytes of the remnant add no line |
| `GrepBuffer.ShortFileIsExact` | syscalls/ece391grep.c:9-66 | for a file of less than 1024 bytes: iff the pattern starts with an ASCII byte or occurs nowhere, and there is no newline, or the test finds the pattern in the last line, or not in the stale bytes behind it |
| `GrepBuffer.OneLineMore` | syscalls/ece391grep.c:40-51 | when the stale bytes contain the pattern and the last line does not, the output of a short file has one line more, that last line |
| `GrepBuffer.FalseLine` | syscalls/ece391grep.c:22-38 | the file "ab" and a newline, searched for "b", is reported with an empty second line |
| `GrepBuffer.MarkedIsExact` | syscalls/ece391grep.c:33-39 | with a newline behind the buffer at the start, the first 1024 bytes are reported as a file of their own; a file of at most that many is reported right iff its lines with the pattern are ASCII-first |
| `Grep.Strlen` | syscalls/ece391support.c:6-12 | the distance to the NUL |
| `Grep.StrcpyDown` | syscalls/ece391support.c:14-17 | copies the string down to the start of the buffer, although the ranges overlap |
| `Grep.Strncmp` | syscalls/ece391support.c:35-46 | 0 iff the pattern stands at the position |
| `Grep.FindLineEnd` | syscalls/ece391grep.c:30-32 | the first newline of the line, or the end of the data |
| `Grep.SearchLine` | syscalls/ece391grep.c:40-51 | prints the text of the line up to its first NUL once, iff the test finds the pattern in the line |
| `Grep.CarryDown` | syscalls/ece391grep.c:33-38 | the unfinished line moves to the front of the buffer up to its first NUL, and stale bytes stay behind it |
| `Grep.SearchNext` | syscalls/ece391grep.c:39-52 | the next line is searched and ended |
| `Grep.ScanTurn` | syscalls/ece391grep.c:30-56 | one turn of the inner loop carries the unfinished line, or searches one and goes on |
| `Grep.ScanBuffer` | syscalls/ece391grep.c:28-57 | the inner loop ends, with the output and the carried bytes of one pass |
| `Grep.Refill` | syscalls/ece391grep.c:22-27 | the read call fills the buffer up behind the carried bytes with the file and then zeros, and reports the size asked for unless nothing is left |
| `Grep.FileTurn` | syscalls/ece391grep.c:22-59 | one turn of the outer loop prints one pass and leaves less to read |
| `Grep.DoOneFile` | syscalls/ece391grep.c:9-66 | the loop ends; for every file the output is that of the search, and for one without NULs it is that of a search line by line iff every line with the pattern fits and the stale bytes of the remnant add no line |
| `BlinkNode.PhaseTicks` | fish/blink.S:60-90 | a tick moves a node to the next phase of its period |
| `BlinkNode.BlinkPhase` | fish/blink.S:60-90 | k tasklet calls after the start a node is in phase k mod (on + off): on iff that is below on, with the matching countdown, for all 16-bit lengths |
| `BlinkNode.InStepForever` | fish/blink.S:267-275 | nodes with equal timers stay in step |
| `BlinkList.UnlinkLinks` | fish/blink.S:206-217 | unlinking a node leaves the links of the list without it |
| `BlinkList.Blinker.Malloc` | fish/fish.c:160-170 | the first slot with location 0, or NULL |
| `BlinkList.Blinker.FindHelper` | fish/blink.S:351-379 | the walk ends at the first node with the location, or NULL |
| `BlinkList.Blinker.Insert` | fish/blink.S:105-185 | the code of add, for any state of the list |
| `BlinkList.Circle` | fish/blink.S:159-162 | a linked slot put in front of the list: no sequence of slots follows the links to an end |
| `BlinkList.Blinker.Add` | fish/blink.S:131-170 | add prepends the first free slot, started on; walks end afterwards iff it was rejected or that slot was not linked; the invariant that no linked slot counts as free survives iff it held and the location is not 0 |
| `BlinkList.Blinker.AddTwiceAtZero` | fish/blink.S:159-162 | an add at location 0 and then any other that is accepted make a node its own successor, and no walk ends |
| `BlinkList.Blinker.FindPrevious` | fish/blink.S:206-212 | the walk ends at the cell that points at the node |
| `BlinkList.Blinker.Remove` | fish/blink.S:187-237 | removes and zeroes the first node at the location and no other |
| `BlinkList.Blinker.Find` | fish/blink.S:302-349 | a copy of the first node at the location |
| `BlinkList.Blinker.Sync` | fish/blink.S:240-300 | the timers become equal, characters, location and link stay; the character poked is right iff the node is off or its characters are equal |
| `BlinkList.Blinker.TickNode` | fish/blink.S:64-86 | one node ticks and is drawn when it expires |
| `BlinkList.Blinker.Tasklet` | fish/blink.S:49-99 | every linked node ticks once, no other slot changes, and the expired ones are drawn in list order |
| `BlinkList.TaskletShows` | fish/blink.S:68-86 | the screen keeps showing every node that has its location to itself |
| `BlinkList.RunTasklets` | fish/fish.c:41-44 | over n calls every node ticks n times and stays shown |
| `BlinkList.AddAndRun` | fish/fish.c:52-57 | n calls after it is added to a slot that is not linked, a character alone at its place shows the phase of its period |
| `BlinkRuns.FullPool` | fish/fish.c:160-170 | without a free slot the list has 2000 nodes, and 2000 nodes leave no free slot that is not linked |
| `BlinkRuns.OpenIsFree` | fish/fish.c:160-170 | the slot the pool hands out is the first that no node holds, but for nodes at location 0 |
| `BlinkRuns.ServeAdd` | fish/blink.S:105-185 | an add puts the started node in front of the sequence, unless it is out of range or 2000 nodes are there; no walk ends iff it links a slot twice |
| `BlinkRuns.ServeRemove` | fish/blink.S:187-237 | a remove takes the first node at the location out of the sequence |
| `BlinkRuns.ServeSync` | fish/blink.S:240-300 | a sync copies the timer from the first node at one location to the first at the other |
| `BlinkRuns.ServeTasklet` | fish/blink.S:49-99 | a tasklet call ticks every node of the sequence |
| `BlinkRuns.ServeOne` | fish/blink.S:49-300 | any call does to pool and links what it does to the sequence of slots and nodes, or is an add that links a slot twice, and then no walk ends |
| `BlinkRuns.NoZeroNeverLoops` | fish/blink.S:131-162 | a sequence of calls that adds nothing at location 0 never links a slot twice |
| `BlinkRuns.Serve` | fish/blink.S:49-300 | any sequence of calls that never links a slot twice does to pool and links what it does to a sequence of nodes |
| `BlinkRuns.ServeNonZero` | fish/blink.S:49-300 | so does any that adds nothing at location 0, and it keeps the invariant |
| `Rtc.FiresUseCounts` | student-distrib/rtc.c:213-224 | every firing uses up a threshold of counted interrupts |
| `Rtc.ThresholdIs` | student-distrib/rtc.c:221 | the threshold times three times the frequency is at most 1024, and the next number times it is more |
| `Rtc.Reaches` | student-distrib/rtc.c:221 | a count reaches the threshold iff the next one times three times the frequency exceeds 1024 |
| `Rtc.ReadsNeedFires` | student-distrib/rtc.c:66-88 | reads return at most once for each firing |
| `Rtc.FiresScheduled` | student-distrib/rtc.c:221-224 | a clock fires only while its terminal is scheduled, and above 341 Hz at each of those interrupts |
| `Rtc.RateBound` | student-distrib/rtc.c:210-224 | in N interrupts after an open, a clock of frequency f up to 341 Hz and threshold P fires at most (N + 2) / 3P times, and so at most f * (N + 2) / (1025 - 3f) times, and reads return no more often; and it fires at most in the interrupts that find the terminal scheduled, which is what it does at 512 and 1024 Hz |
| `Rtc.GapBound` | student-distrib/rtc.c:213-224 | once 3P interrupts have passed, the clock fires the next time its terminal is scheduled, at the latest |
| `Rtc.FiringsApart` | student-distrib/rtc.c:213-224 | when its terminal is scheduled in any W interrupts, fewer than 3P + W interrupts pass between two firings |
| `Rtc.PeriodBound` | student-distrib/rtc.c:213-224 | when its terminal is scheduled in any W interrupts, fewer than 1024 / f + W interrupts pass between two firings at frequency f |
| `Rtc.EveryThird` | student-distrib/rtc.c:213-218 | a terminal is counted for in one of three interrupts |
| `Rtc.BitTest` | student-distrib/rtc.c:107 | x & (x - 1) is 0 iff x is a power of two |
| `Rtc.RatesAre` | student-distrib/rtc.c:107 | the rates are 1, 2, 4 and so on to 1024 |
| `Rtc.Driver.Handler` | student-distrib/rtc.c:210-224 | the handler counts one for the terminal in turn; with c the count of the scheduled terminal then, it clears its flag and count iff (c + 1) * 3 * f > 1024; nothing else changes, and this refines the interrupt step |
| `Rtc.Driver.ReadEnds` | student-distrib/rtc.c:85 | the end of a read sets the flag of its terminal and nothing else |
| `Rtc.Driver.SetRate` | student-distrib/rtc.c:101-114 | accepts exactly four bytes holding 1, 2, 4 and so on to 1024, which becomes the frequency of that terminal alone |
| `Rtc.Driver.Restart` | student-distrib/rtc.c:127-129 | an open starts the clock at 2 Hz, with no counts, waiting |
| `Rtc.Driver.Serve` | student-distrib/rtc.c:66-229 | any interleaving of interrupts and calls takes the arrays through the run of the clocks |
| `Numbers.NumeralDenotes` | student-distrib/lib.c:285-315 | the text of a 32-bit value in radix 2 to 36 reads back as the value, without leading zeros, in at most 32 digits |
| `Numbers.LowDigitsDenote` | student-distrib/lib.c:303-308 | the digits written low to high denote the value |
| `Numbers.DecodeReversed` | student-distrib/lib.c:321-334 | reversing turns low-to-high digits into high-to-low ones |
| `Numbers.Strrev` | student-distrib/lib.c:321-334 | the text is reversed in place and nothing else changes |
| `Numbers.WriteLow` | student-distrib/lib.c:303-311 | the loop writes the digits low to high and the terminator |
| `Numbers.Itoa` | student-distrib/lib.c:285-315 | the buffer holds the numeral of the value |
| `Numbers.PadZeros` | student-distrib/lib.c:100-104 | the zeros and the digits form one text |
| `Numbers.HexAligned` | student-distrib/lib.c:96-105 | `%#x` prints exactly 8 digits that denote the value |
| `LineEditor.LineIsItsEdit` | student-distrib/keyboard.c:185-399 | after any keys over three terminals, each line is the fold of what was typed while it was displayed |
| `LineEditor.LinesStayLines` | student-distrib/keyboard.c:374-396 | no key puts a newline into a line |
| `LineEditor.EraseUndoesInsert` | student-distrib/keyboard.c:191-233 | backspace undoes a key iff the line was below 127 characters |
| `LineEditor.LetterKeys` | student-distrib/keyboard.c:374-391 | a letter key types the capital of its plain character iff shift and caps lock disagree |
| `LineEditor.OtherKeys` | student-distrib/keyboard.c:374-391 | the other printable keys follow shift alone |
| `LineEditor.PressModes` | student-distrib/keyboard.c:82-182 | enter sets the flag of the displayed terminal, alt with 0x3B to 0x3D shows terminals 0 to 2, each modifier code sets or clears its own flag, no line but the displayed one changes |
| `LineEditor.PressKeys` | student-distrib/keyboard.c:184-399 | without ctrl and alt 0x0E drops the last character and 0x39, 0x0F and each printable key append theirs below 127; with either nothing is typed |
| `Keyboard.Driver.FlagSetters` | student-distrib/keyboard.c:416-464 | the modifier keys and nothing else change the flags |
| `Keyboard.Driver.EraseLast` | student-distrib/keyboard.c:191-211 | the last character of the displayed line goes, its cell becomes NUL |
| `Keyboard.Driver.Append` | student-distrib/keyboard.c:393-396 | the character is appended to the displayed line unless that holds 127 |
| `Keyboard.Driver.Translate` | student-distrib/keyboard.c:374-391 | the six cases take the shifted table iff shift and, for letters, caps lock disagree |
| `Keyboard.Driver.EditKey` | student-distrib/keyboard.c:184-399 | the editing keys, held off by ctrl and alt, do to the displayed line what `LineEditor.PressKeys` states |
| `Keyboard.Driver.Handler` | student-distrib/keyboard.c:77-407 | the handler refines the press of a key: by scan code, enter sets the flag of the displayed terminal, alt with F1 to F3 displays terminals 0 to 2, each modifier key its own flag; 0x0E drops the last character of the displayed line, 0x39 and 0x0F append a space and a tab below 127 characters |
| `Keyboard.Driver.Type` | student-distrib/keyboard.c:77-407 | after any keys the buffers hold the folds, and NULs behind them |
| `Keyboard.Driver.ClearBuffer` | student-distrib/keyboard.c:520-525 | the displayed line becomes empty, the others stay |
| `Keyboard.Driver.CopyLine` | student-distrib/terminal.c:84-95 | the bytes copied for sizes above and below 128 |
| `Keyboard.Driver.DeliverLine` | student-distrib/terminal.c:84-101 | byte by byte for every size: the line, NULs up to the size or 127, and behind the line a newline, or a NUL exactly after "exit" |
| `Keyboard.Driver.TerminalRead` | student-distrib/terminal.c:58-108 | the line and its break, its length plus one as the result, and then only that line and its enter flag are cleared |

## Left out

- Boot code, GDT, IDT and PIC set-up, port I/O, the hardware cursor and CMOS registers: no state worth an invariant.
- Page permission bits, TLB flushes and the page table of `vidmap`: of a page directory entry only present and base
  are kept, and nothing is stated about slot 33, which `vidmap` uses and the halt of pid 30 clears.
- The assembly linkage: `esp` and `ebp` are two abstract numbers that are saved and restored.
- The file lookup and the four magic bytes inside `execute`: its parameter `image` says whether they succeed, and
  with which entry point; loading the program is `FileSystem.ReadData`.
- `process_count`, which nothing reads.
- Programs started before the first steady tick: the boot launches its three shells on consecutive timer interrupts.
- The `sti` in `rtc_close`, which opens halt to interrupts while it closes an RTC descriptor: halt is one step.
- The first shell's shell flag after a restart is a stale local of an earlier `execute`; it is an arbitrary parameter.
- KernelState.Kernel.Open: what the result variable holds before it is set is a parameter.
- KernelState.Kernel.Read: what the terminal and the clock deliver is in `Keyboard.Driver.TerminalRead` and
  `Rtc.Driver.ReadEnds`; the value their routines return is a parameter here.
- KernelState.ReadDevice: asks for a buffer of 32 bytes for a directory, which is what the code writes there.
- The clock side effects of `rtc_open` are in `Rtc.Driver.Restart`, not in `KernelState.Kernel.Open`.
- Video.Display.Putc: excludes a backspace with the cursor in the top left corner: the store goes to the page below
  video memory, which is not mapped (student-distrib/paging.c:59), so the kernel faults there.
- Video.Display.BackgroundPutc: excludes the same backspace on a hidden page, which stores behind the cells of the page
  before it and leaves a cursor outside the screen.
- Video.Display.Write: excludes a backspace in the top left corner, as above.
- Video.Display.Serve: excludes a backspace in the top left corner anywhere in the stream, as above.
- Video.Display.TerminalWrite: excludes the same.
- WriteCalls.TerminalWriteCall: excludes the same; asks for memory of 58 bytes from the buffer on, as far as the
  comparisons may look; the test for a null pointer is not part of it.
- Cat.ShowFile: excludes the same; opening and closing the file are not part of it.
- Cat.CatBreaksLines: files in which a buffer reads "exit" or the prompt of the shell have one newline more there, or
  none from there on, as `Cat.ShowFile` states.
- Keyboard.Driver.Handler: does not model the echo of keys, which goes through `putc`, nor `newline_bs_flag`.
- Keyboard.Driver.TerminalRead: starts when the wait for the enter key is over, and asks for a buffer of six bytes,
  as far as the comparison with "exit" may look.
- Rtc.Driver.ReadEnds: starts when the wait for the interrupt is over.
- Memory.Memmove: the direction flag it leaves set after a backward copy is not modelled.
- Directory.ReadDentryByIndex: entries are read through byte addresses of the 64-byte layout; the reserved bytes are
  not.
- FileSystem.ReadData: asks for a well-formed image of less than 2 GB, whose addresses are signed in the code, and for
  a buffer with room for what is delivered.
- Grep.DoOneFile: the condition is for a file without NULs and a buffer whose byte 1024, which no statement sets before
  it is looked at, is not a newline by chance; for others the output is given by the functions `Search` and
  `SearchMarked`. Asks for a pattern of at least one byte, as `getargs` delivers. Opening and closing the file are not
  part of it.
- BlinkRuns.Serve: asks for a sequence of calls that never links a slot twice; `BlinkRuns.ServeOne` covers the first
  call that does, and after it no walk ends.
- BlinkList.Blinker.Add: the 32-bit addresses of slots are slot numbers, and the copies of the 16-byte structure are
  assignments.
- `set_handler`, `sigreturn`, `getargs`, the argument parser, the Linux emulation, the self tests and the remaining
  user programs: stubs and thin drivers.
- `add_frames` in fish/fish.c: how the two text files become blink positions.
