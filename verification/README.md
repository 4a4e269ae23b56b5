# MicrosOS kernel in Dafny

A model of the parts of the MicrosOS kernel that keep state in static arrays and linked headers, with proofs
about every run of them. Each core is modelled twice. A class has the arrays and counters of the C file and the
same loops; a value-level specification says what each call does to them; the class is proved equal to the
specification, and the theorems are lemmas about the specification.

| part | C files | specification | class | theorems |
|---|---|---|---|---|
| scheduler | process/process.c | SchedulerSpec | Process.Table | SchedulerRuns, Srtf, RoundRobin |
| heap | memory/memory.c | HeapSpec | Memory.Allocator | HeapSpec, HeapRuns |
| files | filesystem/fat.c, filesystem/filesystem.c | FatSpec, FileSpec | FileSystem.Fat, FileSystem.FileSystem | FileRuns, FileMap |
| terminal | drivers/screen.c | TerminalSpec | ScreenDriver.Screen | Transcript, Escapes, Colours |
| shell text | shell/kernel_shell.c, drivers/printf.c | Tokenizer, Numbers, LineEditor | Shell.Keyboard and methods | Numbers, Tokenizer, LineEditor, Shell |

`dafny verify dfyconfig.toml` checks everything.

The five central ideas:

- The heap after any run is a function of its live blocks alone (`HeapRuns.HeapIsItsLiveBlocks`), because a
  list without adjacent free blocks is determined by its live ones. Confluence of frees, malloc-then-free as the
  identity, and the return to one block of 65524 bytes follow. `Memory.Allocator` carries this down to header
  words that lie inside the array they manage.
- SRTF beats every other way of choosing READY tasks at every moment, arrivals included: for every j the j
  longest tasks of the SRTF run hold at least as much work as those of the rival (`Srtf.SrtfIsOptimal`).
- Files refine a map from names to texts, over chains that may run through the blocks in any order
  (`FileMap.FilesAreAMap`), and `write` then `read` is followed from the command line to the printed string
  (`Shell.LastWriteWins`).
- The 200-row log that shifts in place is a window onto an unbounded transcript
  (`Transcript.TerminalRefinesTranscript`).
- What the keyboard puts in the line buffer is what the screen shows (`LineEditor.ScreenShowsLine`).

Where the code is not what its documentation or a reader would expect, the code is followed:

- README.md:48 describes memory/memory.c as segmentation and paging. It is the first-fit allocator modelled here.
- A completed task sets `current_index` to -1, so round robin restarts at slot 0 (process/process.c:67-71). The
  waiting bound has two parts for this reason.
- A write that runs out of blocks keeps all it took, so no block is free afterwards (`FileRuns.WriteSucceedsWhen`).
  Overwriting does not free the old chain either.
- `create_file` does not look for the name first and cuts it to 15 characters, while `find_file` compares whole
  names (`FileMap.CreatedIsFoundIff`).
- `read` of a file that was created but never written prints "Read failed", since it copies 0 characters.
- `write_file` with a size below 1 succeeds and allocates nothing. The model covers all sizes.
- `ESC[m` without parameters changes nothing, whereas section 8.3.117 of ECMA-48 gives it the meaning of code 0.
- The shell's decimal printer negates as int, which for INT_MIN is undefined in C and INT_MIN again in two's
  complement; it then prints "-" alone (`Numbers.AtoiInvertsShellPrinter`).

Representation choices: pointers into the heap are byte offsets and null is -1, and the heap is an array of 4-byte
words, since every header lies at a multiple of 4. A screen cell is the pair of attribute and character. C strings
passed to a function are sequences without NUL. `os_malloc` requires sizes up to INT_MAX - 7, beyond which `align8`
overflows, and `os_free` null or a live payload.

## Model

| member | source | states |
|---|---|---|
| Process.Table.RunCurrentTick | process/process.c:56-72 | one tick of the running slot; at 0 ticks left the slot becomes UNUSED and nothing is current, all other slots and fields unchanged |
| Process.Table.DemoteRunning | process/process.c:34-40 | only the tag of the running slot changes, to READY |
| Process.Table.PickRunning | process/process.c:42-54 | the slot becomes RUNNING and current; the switch counter goes up by one exactly when this slot was not current before, whether another one or none was |
| Process.Table.ScheduleRR | process/process.c:74-88 | the modular scan picks the slot that the recursive scan of the specification defines |
| Process.Table.ScheduleSRTF | process/process.c:90-109 | the scan that starts from INT_MAX picks the same slot as a minimum without any sentinel, so tasks with INT_MAX ticks left are found too |
| Process.Table.Schedule | process/process.c:156-176 | the whole table after a call is `SchedulerSpec.Schedule` of the table before it: tick of the previous choice, then choice by policy; a slot is RUNNING exactly when it is `current_index` |
| Process.Table.CreateTask | process/process.c:119-154 | appends a READY slot with pid slot + 1 and burst at least 1, or changes nothing when the table is full or the entry point is null |
| Process.Table.SetPolicy | process/process.c:186-190 | the policy becomes the one asked for if that is 0 or 1, else it stays; nothing else changes |
| Process.Table.ResetAll | process/process.c:207-221 | no slot is left and none is current; policy and counters are kept |
| Process.Table.LiveCount | process/process.c:14-22 | the count is the number of slots with ticks left |
| SchedulerSpec.RRNextFirst | process/process.c:74-88 | round robin finds a task whenever one has work, and it is the first one in cyclic order after the current slot, the current slot itself coming last |
| SchedulerSpec.ShortestIsLeast | process/process.c:90-109 | the slot chosen comes first in the order (ticks left, pid) |
| SchedulerSpec.PoliciesAreLegal | process/process.c:165-175 | every policy is work conserving: it picks a READY task whenever there is one, and nothing otherwise |
| SchedulerSpec.CallOk | process/process.c:156-176 | a call with any choice of READY task keeps the state invariant, and live + completed stays the same |
| SchedulerRuns.BusyWhileLive | process/process.c:156-176 | after every call some task is RUNNING if and only if some task is live |
| SchedulerRuns.CreateAddsTask | process/process.c:119-136 | an accepted creation appends one READY task of exactly `burst` ticks, or 1 for bursts below 1, and changes nothing else; it is refused exactly when there are 16 tasks or the entry point is null |
| SchedulerRuns.PolicyAndReset | process/process.c:186-221 | a valid policy is set and an invalid one ignored; a reset leaves no task, no current slot, and the policy and the three counters as they were |
| SchedulerRuns.Makespan | process/process.c:56-72 | policy-independent makespan: from an idle state, k calls execute exactly min(k - 1, W) ticks under any choices and policy switches |
| SchedulerRuns.DoneAfterExactly | process/process.c:156-176 | all tasks are done if and only if at least W + 1 calls were made |
| SchedulerRuns.BurstsAreConserved | process/process.c:64-71 | over any run without reset, bursts asked for = ticks executed + ticks left |
| SchedulerRuns.TaskRunsItsBurst | process/process.c:60-71 | each task is live exactly until its own slot has run for its burst |
| SchedulerRuns.CountersStayOk | process/process.c:10-12 | completed + (1 if running) <= context switches <= calls, over all runs, resets of the table included |
| SchedulerRuns.CallCounts | process/process.c:42-72 | for every choice of READY tasks: a call counts one call, one switch exactly if the slot that runs now is not the one that ran before, preemption included, and one completion exactly if the slot that ran has no ticks left |
| SchedulerRuns.CountersAreExact | process/process.c:10-12 | over every run of calls, creations, policy switches and resets the counters equal the number of calls, of changes of the running slot, and of tasks that ran out |
| SchedulerRuns.SrtfRunShape | process/process.c:90-109 | from an idle start SRTF finishes tasks in ascending (ticks, pid) order, preempts none, and makes one context switch per task started |
| Srtf.DominatesAfterTick | process/process.c:56-72 | exchange argument: a tick of the shortest task against a tick of any task keeps the sums of the j longest tasks at least as large, for every j |
| Srtf.DominatesAfterArrival | process/process.c:127-135 | the same order survives the arrival of equal tasks on both sides |
| Srtf.SrtfIsOptimal | process/process.c:90-109 | at every point of every run, with arrivals, switches and resets, SRTF has completed at least as many tasks as any rival that picks some READY task in each call |
| Srtf.SrtfMinimisesWait | process/process.c:90-109 | so the number of live tasks summed over the run is minimal |
| Srtf.WaitIsCompletionTimes | process/process.c:67-71 | without arrivals that sum is the sum over the tasks of the time each stays live, so SRTF minimises the sum of completion times |
| Srtf.KernelFollowsSrtf | process/process.c:165-171 | with the policy set to SRTF and left there the kernel takes exactly these steps |
| Srtf.KernelBestUnderSrtf | process/process.c:156-190 | the kernel with SRTF set once completes at least as many tasks as under any pattern of policy switches over the same arrivals |
| RoundRobin.WaitShrinks | process/process.c:67-88 | each call runs the waiting task or makes the bound (other live tasks x slots + slots still to pass) smaller, although a completion restarts the scan at slot 0 |
| RoundRobin.RRBoundedWaiting | process/process.c:67-88 | a READY task is RUNNING within live x slots calls |
| RoundRobin.NextRank | process/process.c:78-87 | round robin visits the live slots in rank order and wraps around |
| RoundRobin.RRFairShare | process/process.c:74-88 | while no task completes, calls covering q full rounds and part of another pick each live slot q or q + 1 times, and q full rounds exactly q times |
| RoundRobin.RRSwitchesEveryCall | process/process.c:42-54 | with at least two live tasks and while none completes, m round-robin calls make exactly m context switches |
| HeapSpec.Align8Facts | memory/memory.c:6-8 | the request is the least multiple of 8 that is not below the size |
| HeapSpec.BlocksTile | memory/memory.c:10-15 | headers and payloads tile the 64 KiB: every byte lies in exactly one block |
| HeapSpec.AddrAligned | include/memory.h:4-8 | every header lies at a multiple of 4 |
| HeapSpec.LivePayloadApart | memory/memory.c:30-38 | no header lies inside a live payload |
| HeapSpec.SweepMergesRuns | memory/memory.c:53-61 | one coalescing sweep over an arbitrary list merges all maximal runs of free blocks |
| HeapSpec.SweepIsCanonical | memory/memory.c:53-61 | after a sweep no two adjacent blocks are free |
| HeapSpec.SweepKeepsLive | memory/memory.c:53-61 | a sweep keeps the total span and every live block with its address and size |
| HeapSpec.CanonicalUnique | memory/memory.c:53-61 | two lists without adjacent free blocks, of equal span and with the same live blocks, are equal |
| HeapSpec.MallocAdds | memory/memory.c:25-39 | a successful malloc keeps the tiling and adds exactly one live block, no other moving; its size is the aligned request when the chosen free block has at least 20 bytes more than that, and otherwise the size of that whole block, at most 16 bytes above the request |
| HeapSpec.FreeRemoves | memory/memory.c:50-61 | a free of a live block removes exactly that block |
| HeapRuns.FirstFitExact | memory/memory.c:26-42 | malloc fails exactly when the size is not positive or no free block is large enough, then leaves the list alone, and otherwise takes the one at the lowest address |
| HeapRuns.HeapIsItsLiveBlocks | memory/memory.c:17-62 | the whole block list is a function of which blocks are live and how large they are |
| HeapRuns.AllocThenFreeIsIdentity | memory/memory.c:28-38 | freeing what was just allocated restores the same block list, split or not |
| HeapRuns.FreesAreConfluent | memory/memory.c:50-61 | freeing the same live blocks in any two orders gives the same heap |
| HeapRuns.FreeingEverything | memory/memory.c:12-14 | freeing everything in any order gives back the single block of 65524 bytes |
| HeapRuns.RunsStayOk | memory/memory.c:17-62 | over any run the live blocks are the unreturned requests, each with exactly the bytes granted when it was handed out: its aligned size, or the whole free block where fewer than 20 bytes would be left; the tiling stays canonical |
| HeapRuns.LiveBlocksApart | memory/memory.c:17-62 | after any run from boot live payloads are pairwise disjoint, disjoint from all headers and inside the heap |
| HeapRuns.BootPacks | memory/memory.c:17-39 | from boot, requests are packed without gaps: the next header lies exactly behind 12 bytes and the aligned size of each request so far, and one free block holds all the rest |
| HeapRuns.HistoryDoesNotMatter | memory/memory.c:17-62 | two runs that leave the same live blocks leave the same heap |
| Memory.Allocator.MemoryInit | memory/memory.c:10-15 | the header words hold one free block of 65524 bytes |
| Memory.Allocator.OsMalloc | memory/memory.c:17-43 | the words of the array hold exactly `HeapSpec.Malloc` of the list before, the result is the payload of the first fit or null, and no word of a live payload is written; `request + 20` never overflows |
| Memory.Allocator.Search | memory/memory.c:26-41 | following `next` words finds the first fit |
| Memory.Allocator.Split | memory/memory.c:29-36 | the five header writes of a split turn block i into its two halves and touch nothing outside it |
| Memory.Allocator.OsFree | memory/memory.c:45-62 | the words hold exactly `HeapSpec.Free` of the list before; null changes nothing; no word of another live payload is written |
| Memory.Allocator.Coalesce | memory/memory.c:53-61 | the loop over linked headers computes the sweep in place and terminates |
| Memory.Allocator.Store | memory/memory.c:38 | a client that writes inside its live payload cannot disturb the allocator |
| FatSpec.ChainIsAcyclic | filesystem/fat.c:31-37 | every chain that reaches the end mark is acyclic |
| FatSpec.ChainIsFollowed | filesystem/filesystem.c:91-96 | following the table from the start of a chain yields exactly the chain, so reading terminates within 128 blocks |
| FileSystem.Fat.AllocateBlock | filesystem/fat.c:17-25 | takes the first free block and marks it as an end, or changes nothing and returns -1 |
| FileSystem.Fat.FatCountFree | filesystem/fat.c:39-47 | counts the free blocks |
| FileSystem.Fat.FreeBlock | filesystem/fat.c:27-29 | marks one block free |
| FileSystem.FileSystem.FsInit | filesystem/filesystem.c:8-15 | an empty directory and an all-free table; block contents are left as they were |
| FileSystem.FileSystem.FindFile | filesystem/filesystem.c:17-30 | the character-wise comparison finds the first slot whose C string is the name, or -1 |
| FileSystem.FileSystem.CreateFile | filesystem/filesystem.c:32-48 | the first empty slot gets the name cut to 15 characters, size 0 and no block; nothing else changes |
| FileSystem.FileSystem.WriteFile | filesystem/filesystem.c:50-82 | table, blocks and directory afterwards are exactly those of the specification's write, on success and on both failures |
| FileSystem.FileSystem.ReadFile | filesystem/filesystem.c:84-99 | the buffer receives the whole blocks of the chain, the rest of it and all files are unchanged |
| FileSpec.WriteFromTakes | filesystem/filesystem.c:59-61 | the loop fails exactly when there are too few free blocks, and then it has taken them all |
| FileSpec.WriteFromChains | filesystem/filesystem.c:63-75 | the blocks taken are linked in order behind one another and end in the end mark |
| FileSpec.WriteFromWrites | filesystem/filesystem.c:71-73 | the blocks taken hold the text, and NULs behind it if free blocks were blank |
| FileRuns.ChainDiscipline | filesystem/filesystem.c:59-79 | every file's chain repeats no block, has ceil(size / 64) blocks, and shares none with another file |
| FileRuns.CreateKeeps | filesystem/filesystem.c:32-48 | a create changes no existing file, and succeeds exactly when a slot is empty |
| FileRuns.WriteKeeps | filesystem/filesystem.c:50-82 | a write changes no other file; a failed one changes no file at all, so it is atomic to readers |
| FileRuns.WriteSucceedsWhen | filesystem/filesystem.c:51-61 | a write succeeds exactly when the file exists and ceil(size / 64) blocks are free, and then the free count drops by that number; one that runs out leaves none free |
| FileRuns.WriteThenRead | filesystem/filesystem.c:50-99 | after a successful write the file has the size given, and the first `size` characters read back are the text |
| FileMap.FilesAreAMap | filesystem/filesystem.c:8-99 | after any run of creates and writes a name is found exactly if the map has it, and its contents are the text of the last successful write |
| FileMap.CreatedIsFoundIff | filesystem/filesystem.c:20-41 | a file just created is found under the name it was created with if and only if that name has fewer than 16 characters, and always under the first 15 of them |
| FileMap.FilesAreContiguous | filesystem/fat.c:17-25 | in every run from boot free blocks are the last ones and each file lies in consecutive blocks, because nothing is ever freed |
| FileMap.RunsArePadded | filesystem/filesystem.c:71-73 | in every run from boot free blocks are blank, and so is the rest of each file's last block |
| FileMap.ReadsBackText | filesystem/filesystem.c:84-99 | what is read, as a C string, is the text last written, also when it fills its last block |
| Shell.ReadPrintsLastWrite | shell/kernel_shell.c:275-292 | after any session of command lines, `read` prints exactly the text last written, fails for files absent or never written, and never exceeds its buffer of 1024 |
| Shell.WriteLine | shell/kernel_shell.c:165-175 | for every line whose first word is `write`, with second word `name` and third `text`: if the file exists and the text fits into the free blocks, `read name` then prints the text and no other read changes; else no read changes at all |
| Shell.CreateLine | shell/kernel_shell.c:267-274 | for every line whose first word is `create`: with an empty slot the first 15 characters of the second word are found afterwards, as an empty file if new, and no other name changes; without one nothing changes |
| Shell.OtherLine | shell/kernel_shell.c:240-322 | every other line, and a create or write with too few words, changes no file |
| Shell.WriteCommand | shell/kernel_shell.c:165-175 | the literal line `write name text` on an existing file with room makes `read name` print text and changes no other read |
| Shell.CreateCommand | shell/kernel_shell.c:267-274 | the literal line `create name`, for names up to 15 characters and with an empty slot, makes the name findable, empty if it was new, and changes no other name |
| Shell.LastWriteWins | shell/kernel_shell.c:240-292 | after any session, the line `write name text` on an existing file with room decides what `read name` prints, whatever lines follow, until the next write to that file |
| Shell.SessionIsRun | shell/kernel_shell.c:240-276 | executing a session line by line is one run of file operations, so every theorem about runs holds for sessions |
| Shell.FileCommand | shell/kernel_shell.c:240-276 | tokenizing the line in place and dispatching does to the kernel's arrays what `ExecuteLine` does to the volume for the C string in the buffer; what that is, WriteLine, CreateLine and OtherLine state |
| Shell.ReadCommand | shell/kernel_shell.c:277-292 | the string handed to `print` is the specification's, or the read fails |
| Shell.ReadLine | shell/kernel_shell.c:240-292 | a whole `read name` line prints what can be read from that file, and changes no file |
| Shell.Keyboard.HandleKey | shell/kernel_shell.c:344-357 | buffer and terminal after a key are those of the specification; the buffer stays terminated within 256 characters |
| Shell.Keyboard.EndLine | shell/kernel_shell.c:330-332 | on newline the buffer is, as a C string, the line that was typed |
| LineEditor.ScreenShowsLine | shell/kernel_shell.c:329-358 | from any prompt position, after any keys but ESC, newline and carriage return, the log spells the edited line behind the prompt and the prompt is intact, across row wraps and log shifts |
| LineEditor.PlaceInOrder | drivers/screen.c:250-255 | a printable character fills the cursor's cell, moves on by one, and leaves earlier cells alone, shifted by a row when the log is full |
| LineEditor.PlaceInRow | drivers/screen.c:250-256 | a printable character changes one cell; at the end of a row it also opens the next one |
| LineEditor.BackInOrder | drivers/screen.c:232-243 | a backspace moves back by one cell, across rows, and blanks exactly that cell in the current colours; at the first cell of the log it does nothing |
| LineEditor.TypedIsLine | shell/kernel_shell.c:353-357 | keys without backspace give exactly the characters typed, up to 255 |
| LineEditor.RubOut | shell/kernel_shell.c:344-357 | a backspace takes back the last character typed; in a full line, which did not take that one in, the one before |
| Tokenizer.Tokenize | shell/kernel_shell.c:70-91 | yields the first 16 space-separated fields in order, each terminated in place, and changes nothing but spaces into terminators |
| Tokenizer.TokenIsField | shell/kernel_shell.c:80-88 | each `argv` entry is, as a C string, its field |
| Tokenizer.FieldsAreWords | shell/kernel_shell.c:73-83 | fields are non-empty, without spaces, and no longer than the line |
| Tokenizer.FieldsSkipSpace | shell/kernel_shell.c:74-76 | spaces at the front do not matter |
| Tokenizer.FirstField | shell/kernel_shell.c:80-88 | a word followed by a space or by the end of the line is the first field |
| Tokenizer.FieldsOfUnwords | shell/kernel_shell.c:70-91 | any list of words is read back from its line |
| Numbers.PrintUint | drivers/printf.c:4-19 | prints the numeral of the value in base 10 or 16 without reaching the 31-digit cap |
| Numbers.NumeralEvaluates | drivers/printf.c:12-18 | the digits evaluate back to the value |
| Numbers.NumeralShape | drivers/printf.c:4-19 | hexadecimal letters are all of the case asked for, and no numeral but that of 0 starts with 0 |
| Numbers.NumeralShort | drivers/printf.c:12 | 32 bits take at most 10 decimal or 8 hexadecimal digits |
| Numbers.PrintfInt | drivers/printf.c:21-28 | `%d` prints the signed numeral of every int, INT_MIN included |
| Numbers.ShellPrintInt | shell/kernel_shell.c:50-68 | prints the signed numeral of every int but INT_MIN, of which only the sign is printed |
| Numbers.PrintPaddedInt | process/process.c:276-299 | the same text as the shell's printer, padded with spaces to the width |
| Numbers.Katoi | shell/kernel_shell.c:35-48 | the exact value of sign and digit prefix, wrapped once to 32 bits |
| Numbers.AtoiInvertsSigned | shell/kernel_shell.c:35-48 | `katoi` reads back every int from its numeral |
| Numbers.AtoiIgnoresTail | shell/kernel_shell.c:35-48 | a numeral followed by anything that is not a digit reads back as its int |
| Numbers.AtoiInvertsShellPrinter | shell/kernel_shell.c:35-68 | `katoi` inverts the shell's printer on v if and only if v is not INT_MIN |
| ScreenDriver.Screen.Putchar | drivers/screen.c:196-257 | parser, pen, log, cursor and view after a character are those of `TerminalSpec.Put`; indices stay in bounds |
| ScreenDriver.Screen.AdvanceRow | drivers/screen.c:136-151 | the double loop shifts the log up by one row in place and blanks the last, or blanks the next row |
| ScreenDriver.Screen.FlushEscSequence | drivers/screen.c:67-88 | the scanning loops apply the codes of the parameter string in order |
| ScreenDriver.Screen.ApplySgrToken | drivers/screen.c:34-65 | one code does to attribute and boldness what `Sgr` does to the pen; ColourCodes, BoldCodes, DefaultCode, ResetCodes and OtherCodesIgnored in Colours state what that is, code by code |
| ScreenDriver.Screen.FollowCursor | drivers/screen.c:129-134 | from any view, the view ends at the cursor row, or starts at 0 while the cursor is in the first 24 rows |
| ScreenDriver.Screen.ClearScreen | drivers/screen.c:153-165 | all 200 rows blank, everything else reset |
| ScreenDriver.Screen.ScreenScrollView | drivers/screen.c:167-171 | only the view moves |
| ScreenDriver.Screen.Print | drivers/screen.c:259-263 | a string is its characters one by one |
| TerminalSpec.PlaceOk | drivers/screen.c:227-257 | row, column and view stay in bounds; after a newline or printed character the view starts at max(0, row - 24), the least start that shows the cursor row; backspace and carriage return leave the view alone |
| TerminalSpec.NewlineOpensRow | drivers/screen.c:136-151 | a newline goes to the start of the next row and blanks it in the current colours; behind row 199 all rows move up by one |
| TerminalSpec.ClearedIsBlank | drivers/screen.c:153-165 | after `clear_screen` the log is 200 rows of 80 grey blanks, with cursor, view and pen at their start values |
| TerminalSpec.ViewInLog | drivers/screen.c:90-97 | whatever is printed and scrolled, the 25 rows shown are rows of the log |
| TerminalSpec.ScrollOk | drivers/screen.c:116-127 | scrolling moves the view as asked, but not above row 0 and not below max(0, row - 24) |
| Transcript.TerminalRefinesTranscript | drivers/screen.c:136-257 | for every stream after `clear_screen` the log is the window of an ever-growing transcript that starts at row max(0, highest row - 199), with the cursor moved up as much |
| Transcript.DiffersOnlyAtTornEdge | drivers/screen.c:232-243 | the log and an unbounded terminal differ on a character if and only if it is a backspace at the oldest retained cell while older rows exist |
| Transcript.UnboundedIffNeverTorn | drivers/screen.c:196-257 | the log shows an unbounded transcript at every point of a stream if and only if no such backspace occurs |
| Escapes.EscapesAreTransparent | drivers/screen.c:196-225 | characters, cursor and view equal those of the stream with its escape sequences stripped by a recursive definition |
| Escapes.CodesOfJoin | drivers/screen.c:69-85 | the parameter parser reads back any list of decimal codes joined by semicolons |
| Escapes.SequenceApplies | drivers/screen.c:211-219 | a sequence moves only the pen, by the codes in the first 31 characters of its parameters |
| Escapes.ColourSequence | drivers/screen.c:67-88 | a colour sequence of up to 31 parameter characters applies its codes from left to right and does nothing else |
| Escapes.BackgroundStaysBlack | drivers/screen.c:34-65 | no stream can change the background: it stays black for the pen and for every cell |
| Colours.ColoursShown | drivers/screen.c:54-64 | from any terminal outside a sequence, a character printed after `ESC[0;3km` has colour k, after `ESC[0;9km` colour k + 8 |
| Colours.BoldShown | drivers/screen.c:40-60 | after `ESC[0;1;3km` it has colour k + 8, after `ESC[0;1;22;3km` colour k |
| Colours.DefaultShown | drivers/screen.c:35-53 | after `ESC[0;39m` and `ESC[0m` it has colour 7; after `ESC[m` the one it would have had |
| Colours.ColourCodes | drivers/screen.c:54-64 | from any pen, 3k sets foreground k, bright if bold is on, and 9k the bright one; background and boldness stay |
| Colours.BoldCodes | drivers/screen.c:40-47 | 1 and 22 turn bold on and off and leave the colours |
| Colours.ResetCodes | drivers/screen.c:35-39 | 0 sets grey on black without bold; no code at all changes nothing |
| Colours.DefaultCode | drivers/screen.c:48-51 | 39 sets foreground 7 and leaves background and boldness |
| Colours.OtherCodesIgnored | drivers/screen.c:34-65 | every code outside 0, 1, 22, 30-37, 39 and 90-97 changes nothing |
| Colours.OtherSequences | drivers/screen.c:203-224 | a sequence that ends in another character than m, and ESC before anything but a bracket, leave the whole terminal as it was |
| Colours.JoinedSequences | drivers/screen.c:67-88 | parameters joined by a semicolon do what two sequences do one after the other; an empty parameter before the semicolon counts as 0 |
| Colours.LongSequence | drivers/screen.c:212-216 | parameters behind the 31st character are dropped |

## Left out

- Port I/O, interrupt set-up, boot files, keyboard, mouse and timer drivers: hardware effects and plain tables.
- kernel/console.c and shell/LegenJuice_Shell: the gate's line editor is the simple case of the shell's, and the other shell is not part of the kernel image.
- `screen_redraw_hw`: the copy to video memory and the mouse highlight are not modelled, only that the rows copied lie in the log.
- Listings, help texts, banners, `vprintf` argument handling, `calc`, `samaya` and process commands: output formatting and one-line dispatch.
- The newline key: `Shell.Keyboard` covers ending the line and `Shell.FileCommand` and `Shell.ReadLine` the file commands on it; the reset of the buffer and the next prompt are not modelled.
- Process entry points: `func` is stored and never called, so it is a number with 0 for null; `create_process` and `create_process_prio` only pass arguments on.
- `live_thread_count`: the same loop as `live_count` with one more condition.
- Process.Table.Schedule: does not model wrap-around of the `unsigned long` counters, which are naturals here.
- ScreenDriver.Screen.FlushEscSequence: does not model overflow of a colour code beyond 31 bits; codes are mathematical integers.
- Numbers.Katoi: signed overflow, undefined in C, is taken as two's complement wrap-around at every step.
- Numbers.PrintPaddedInt: the digits come from the same loop as the shell's printer instead of a second copy of it with a buffer in between.
- ScreenDriver.Screen.Putchar: the packing of attribute and character into 16 bits is not modelled.
