# bootperl in Dafny

bootperl is a small i386 kernel with its own boot chain. This project models the parts of it whose
correctness is not visible in any single function, and proves what they promise:

- **Memory** (`Extents`, `Ram`, `FreeList`, `Allocator`, `KernelMemory`). The page-run list and the
  first-fit block list of kernel/memory.c live inside the free memory itself. `KernelMemory.Memory`
  runs the C code on a byte array; `Allocator` is the same machine on lists of extents, with the
  ownership and conservation theorems over every run; `Extents` is the theory of sorted, coalesced
  lists, and `FreeList` says what it means for bytes of memory to hold such a list.
- **Tasks** (`Scheduling`, `KernelTasks`). `KernelTasks.Tasks` manipulates the doubly linked run ring
  and wait rings as kernel/task.c does; every method is proved to take one step of the abstract
  scheduler in `Scheduling`, where the invariant of all runs and the waiting bound are proved.
- **Log** (`LogText`, `KernelLog`). `KernelLog.Log` is the ring buffer, the level state machine of
  printk and the chunked replay of register_console; `LogText` says what live output and replay mean
  and when they agree.
- **Numbers and formats** (`Numbers`, `Strtoul`, `Vsprintf`). 64-by-32 division, number fields,
  simple_strtoul and its relatives, strtoul with saturation, and the vsprintf scanner, which is proved
  to be parse-then-render; printing and parsing are proved inverse.
- **Boot disk** (`BootDisk`). The image builder compiles the kernel's place on the floppy into a map of
  extents; the two loader stages find and interpret it; together they recover the kernel.
- **Delay** (`Calibrate`). The binary search for loops_per_jiffy and the fixed-point scaling of
  __udelay, with their error bounds.

Places where the code does not do what one would expect are stated as they are, with the exact
condition. The release tail of mem_free leaves pages on both lists: kfree keeps ownership if and only
if the tail releases no page (`KfreeInvIffQuietTail`, with a concrete run in `KfreeTailWitness`).
register_console does not end a line on a carriage return although printk does. Consoles of every
level replay what they would have shown live if and only if no carriage return is followed by more text
(`ReplayAgreesAtAllLevelsIff`, with a two-line text in `ReturnWitness`); for a console of one level, such
as the video console of level 5, replay agrees at every moment of the history if and only if each
carriage return with a line behind it, and that line, are hidden at this level, a bare level prefix at the
very end not counting as a line (`ReplayAlwaysAgreesIff`).
simple_strtoull reads back what number() prints unsigned in an explicit base if and only if the number is
zero or neither leading spaces nor a "0x" stand before the digits (`PrintThenParseIff`, with "  5" in
`SpacesWitness`); base 0 and signed numbers have their own exact conditions.

Three more: kalloc cuts its page count to 16 bits on the way to page_allocate_consecutive but not the size
it then frees, and keeps ownership if and only if it needs no growth, can get none, or the count survives
the cut (`KallocInvIffCutSafe`, with kalloc(2^28) on a one-megabyte pool in `KallocCutWitness`). Freeing
the page-aligned init segment at boot takes the release tail, and keeps ownership if and only if the
segment is smaller than a page (`DonationInvIff`). And __loop_delay returns at once when the
count passed to it exceeds 2^31, which a delay above 10 ms can reach (`DelayRunsIff`, `DelayWitness`).

Machine integers are unbounded integers with the width written out where it matters: 16-bit page
counts, 32-bit sizes and counters, 64-bit arguments, byte fields of sector addresses. A panic is an
outcome (`ok == false`, or `Halted`) that leaves the state as it stood.

## Model

| member | source | states |
|---|---|---|
| `Extents.CanonicalUnique` | kernel/memory.c:252-285 | a sorted list without touching neighbours is the only such list with its set of free cells |
| `Extents.InsertCanonical` | kernel/memory.c:259-285 | steps B1 to B4 keep the list sorted, disjoint and fully coalesced, whichever neighbours the freed range touches |
| `Extents.InsertCells` | kernel/memory.c:259-285 | steps B1 to B4 add exactly the freed range to the free set |
| `Extents.InsertTotal` | kernel/memory.c:259-285 | steps B1 to B4 add exactly the freed size to the total |
| `Extents.TakeEndCanonical` | kernel/memory.c:222-232 | taking the end of an extent keeps the list canonical, also when the extent disappears |
| `Extents.TakeEndCells` | kernel/memory.c:222-232 | taking the end of an extent removes exactly the taken range from the free set |
| `Extents.FirstFitFailsIffNoRun` | kernel/memory.c:128-147 | the first-fit scan fails if and only if the free set has no run of the wanted length at all |
| `Extents.RunInsideOneExtent` | kernel/memory.c:128-147 | in a canonical list every free run lies inside one extent |
| `FreeList.ThreadSplice` | kernel/memory.c:269-285 | replacing a stretch of a list threaded through memory by one node, writing that node and its predecessor, gives the threaded spliced list |
| `FreeList.ThreadMerge` | kernel/memory.c:277-281 | the writes of B4's merging branch thread the list with the range inserted |
| `FreeList.ThreadNew` | kernel/memory.c:282-285 | the writes of B4's linking branch thread the list with the range inserted |
| `FreeList.ThreadShrink` | kernel/memory.c:222-229 | overwriting one size word threads the list with the end of that extent taken |
| `FreeList.ThreadTake` | kernel/memory.c:132-138 | relinking around an emptied run threads the list without it |
| `FreeList.ThreadUntouched` | kernel/memory.c:9-22 | a list is unaffected by writes that stay off its own nodes and head |
| `FreeList.BlocksInWords` | kernel/memory.c:15-22 | a block list is threaded through memory exactly if each size and each next address stands there as a little-endian word |
| `FreeList.RunsInWords` | kernel/memory.c:9-13 | a run list is threaded exactly if each page count stands in two bytes at 4096 times the page number, and each next address in the second word |
| `Allocator.InitialInv` | kernel/memory.c:32-46 | after kalloc_init every byte of the pool is owned exactly once, by the page list |
| `Allocator.GrowInv` | kernel/memory.c:209-217 | moving a page run of at most 65535 pages to the block list keeps unique ownership and the account |
| `Allocator.GrowInvIffCountFits` | kernel/memory.c:113-214 | one growth, with the count cut to 16 bits and the freed size not, keeps ownership if and only if the count survives the cut |
| `Allocator.CarveInv` | kernel/memory.c:222-232 | step A4 keeps unique ownership and the account |
| `Allocator.KallocInv` | kernel/memory.c:189-240 | kalloc with all its growth keeps unique ownership and the account, also when it panics, wherever no growth has its count cut |
| `Allocator.KallocInvIffCutSafe` | kernel/memory.c:189-240 | for every request kalloc keeps unique ownership if and only if it needs no growth, can get none, or its page count fits 16 bits |
| `Allocator.KallocBeyondCut` | kernel/memory.c:207-232 | a larger request that finds pages ends, however often it grows and whether or not it panics, with a block larger than the pool |
| `Allocator.KallocCutWitness` | kernel/memory.c:209-217 | kalloc(2^28) on a fresh pool of 256 pages does not panic, takes one page and returns the address of the pool's end |
| `Allocator.KallocIsGrowThenCarve` | kernel/memory.c:202-232 | where no growth has its count cut, kalloc is some growth, which touches no client, followed by carving the first block that fits, or by a panic |
| `Allocator.PagesForIsLeast` | kernel/memory.c:211 | growth asks for the fewest pages that hold the request and its header |
| `Allocator.KallocGrowsAtMostOnce` | kernel/memory.c:207-220 | when c pages leave room for a list node, kalloc grows at most once, only if it must and can, by exactly the last c (modulo 2^16) pages of the first run that has them |
| `Allocator.KallocOutcome` | kernel/memory.c:207-232 | with c the fewest pages that hold the request: where no growth has its count cut, kalloc panics if and only if after growth there is no free run of n + 12 bytes and none of c pages (or the count is cut to zero), grows only when no byte run would do, and never unlinks a block |
| `Allocator.KallocPlaces` | kernel/memory.c:222-239 | the block is the upper end of the first free block with room, of n + 4 bytes, and leaves the free set by exactly that |
| `Allocator.KfreeInvIffQuietTail` | kernel/memory.c:244-300 | kfree keeps unique ownership if and only if the release tail frees no page, and then keeps the account |
| `Allocator.SizeReadIs` | kernel/memory.c:269-287 | what mem_free reads back: the request where the block joined one below it, else its size with the free block above it |
| `Allocator.TailIsWholePages` | kernel/memory.c:287-298 | the pages the tail releases are exactly those wholly inside the bytes it reads back |
| `Allocator.KfreeReleases` | kernel/memory.c:244-300 | after kfree the free pages are the former ones and those, the free blocks gain exactly the block, and only it stops being live |
| `Allocator.KfreeTailWitness` | kernel/memory.c:287-299 | on a fresh pool kfree(kalloc(8192)) breaks unique ownership |
| `Allocator.TakePagesInv` | kernel/memory.c:93-150 | handing pages to a caller keeps unique ownership and the account |
| `Allocator.TakePagesTakes` | kernel/memory.c:113-150 | the caller gets the last count pages of the first run that is long enough, in order, and panics only without one |
| `Allocator.ReleasePageInv` | kernel/memory.c:152-187 | taking a held page back keeps unique ownership and the account |
| `Allocator.StepInv` | kernel/memory.c:93-300 | every call that neither releases pages from kfree nor has its page count cut keeps ownership and the account |
| `Allocator.RunInv` | kernel/memory.c:93-300 | every run of such calls keeps ownership and the account |
| `Allocator.ReachableStatesConserveMemory` | kernel/memory.c:32-46 | in every state such runs reach from kalloc_init each pool byte has one owner, and what show_memory sums plus live blocks plus held pages is the whole pool |
| `Allocator.BootedRunInv` | init/main.c:120-166 | the same with the kernel's own image, init segment and bss, counted in |
| `Allocator.DonationInvIff` | init/main.c:166 | the boot-time mem_free of the page-aligned init segment keeps ownership if and only if the segment is smaller than a page |
| `Allocator.InsertUndoesTakeEnd` | kernel/memory.c:222-285 | giving back what was taken from the end of an extent restores the list |
| `Allocator.KfreeUndoesKalloc` | kernel/memory.c:189-250 | for 4 <= n < 4096, kfree(kalloc(n)) restores exactly the state that stood after any growth |
| `Allocator.ListsDetermined` | kernel/memory.c:9-22 | in two valid states of one pool with the same memory in clients' hands, the block lists are identical if and only if the page lists are |
| `Allocator.FreeOrderIrrelevant` | kernel/memory.c:244-285 | two runs of kfree that free the same live blocks in different orders, none releasing pages, end with identical lists |
| `Allocator.ReleaseUndoesTakePages` | kernel/memory.c:113-187 | page_allocate_consecutive followed by page_release of its pages one by one in any order restores both lists |
| `KernelMemory.FindRun` | kernel/memory.c:128-144 | the pointer walk over raw memory stops at the first run that fits, or at the null link |
| `KernelMemory.TakeRun` | kernel/memory.c:113-150 | the in-memory removal yields a well-threaded list without the run and writes nowhere else |
| `KernelMemory.TakeLastOfFirst` | kernel/memory.c:93-111 | page_allocate removes the last page of the first run, and fails only on an empty list |
| `KernelMemory.FindPlace` | kernel/memory.c:163-167 | the address-ordered walk stops between the last node below and the first node above |
| `KernelMemory.LinkPage` | kernel/memory.c:159-186 | page_release's stores produce the memory that holds the run list with the page inserted |
| `KernelMemory.LinkBlock` | kernel/memory.c:259-285 | mem_free's stores produce the memory that holds the block list with the block inserted |
| `KernelMemory.PlacedGood` | kernel/memory.c:269-285 | after those stores the list in memory is canonical, in the pool, well threaded, and only its own nodes and the freed range were written |
| `KernelMemory.PageTakenGood` | kernel/memory.c:131-138 | the same for taking a run of pages |
| `KernelMemory.CarvedGood` | kernel/memory.c:222-232 | after A4's two stores both lists and all headers stand, and no client byte changed |
| `KernelMemory.TailReleasable` | kernel/memory.c:287-298 | the pages of the release tail lie in the pool and are on no page run yet |
| `KernelMemory.SumCounts` | kernel/memory.c:80-87 | a walk over the links sums the sizes of exactly the listed extents |
| `KernelMemory.Memory.constructor` | kernel/memory.c:32-46 | kalloc_init makes a valid memory with one run over the whole pool |
| `KernelMemory.Memory.PageAllocate` | kernel/memory.c:93-111 | takes the last page of the first run, panics if and only if no page is free |
| `KernelMemory.Memory.PageAllocateConsecutive` | kernel/memory.c:113-150 | takes a run of exactly count pages from the first extent that has one, panics otherwise and changes nothing then |
| `KernelMemory.Memory.PageRelease` | kernel/memory.c:152-187 | the run list in memory becomes the list with the page merged in |
| `KernelMemory.Memory.LinkFreed` | kernel/memory.c:259-285 | the block list becomes the list with the block merged in, the page list survives, and cur->size reads as stated |
| `KernelMemory.Memory.ReleaseTail` | kernel/memory.c:294-298 | the loop merges c consecutive pages into the run list |
| `KernelMemory.Memory.ReleaseWholePages` | kernel/memory.c:287-299 | the pages freed are exactly those wholly inside the bytes the size word covers |
| `KernelMemory.Memory.MemFree` | kernel/memory.c:253-300 | block inserted, exactly the whole pages inside what is read back released, and both lists well threaded when there are none |
| `KernelMemory.Memory.Kfree` | kernel/memory.c:244-250 | takes exactly the abstract kfree step, and keeps validity and all client bytes when the tail is quiet |
| `KernelMemory.Memory.GrowBlocks` | kernel/memory.c:209-217 | moves a page run to the block list without touching a client byte, or reports that the count was cut to zero or no run was found |
| `KernelMemory.Memory.CarveBlock` | kernel/memory.c:222-239 | cuts the block off the end of extent i, writes its header, touches no client byte |
| `KernelMemory.Memory.Kalloc` | kernel/memory.c:189-240 | terminates by (free pages, unscanned nodes), takes exactly the abstract kalloc step on raw memory, returns a new block of n bytes behind a header that holds n, and changes no byte of a live block or held page |
| `KernelMemory.Memory.TakePages` | kernel/memory.c:113-150 | a caller's pages become held, everything else stays valid |
| `KernelMemory.Memory.TakePage` | kernel/memory.c:93-111 | a caller's page_allocate: the last page of the first run becomes held, everything else stays valid, and it panics if and only if no page is free |
| `KernelMemory.ClientStore` | kernel/memory.c:9-22 | a store into a live block or held page leaves both lists threaded through memory as they were |
| `KernelMemory.Memory.StoreInBlock` | kernel/task.c:92-117 | a caller may store any byte into the body of a block kalloc gave it: lists, headers, ownership and every other byte stay as they were |
| `KernelMemory.Memory.StoreInPage` | kernel/memory.c:93-150 | likewise for any byte of a page it holds |
| `KernelMemory.Memory.GivePage` | kernel/memory.c:152-187 | a held page returns to the run list, everything else stays valid |
| `KernelMemory.Memory.ShowMemory` | kernel/memory.c:74-91 | the printed sum plus live blocks plus held pages is the size of the pool |
| `Scheduling.StepKeeps` | kernel/task.c:42-234 | every step keeps the ring distinct, current in it, every task in exactly one place, slices at most 100 |
| `Scheduling.RunKeeps` | kernel/task.c:42-234 | so does every run |
| `Scheduling.IdleOnlyWhenAlone` | kernel/task.c:70-78 | schedule picks the idle task if and only if nothing else is runnable, whether or not the outgoing task has just blocked |
| `Scheduling.ScheduleRotates` | kernel/task.c:42-78 | schedule is cyclic rotation over the runnable tasks, also when the outgoing task has just blocked |
| `Scheduling.FreshSlices` | kernel/task.c:57-60 | schedule refills the outgoing task's slice to 100 and clears its request, a new task starts with 100, a blocked one leaves a request |
| `Scheduling.RequestIsHonoured` | kernel/entry.S:101-107 | an interrupt reschedules if and only if the current task's request is set |
| `Scheduling.QueueIsFifo` | kernel/task.c:171-213 | woken tasks stand behind all others in the ring, in the order in which they blocked |
| `Scheduling.IdleYields` | init/main.c:180 | after system_idle the next tick runs the first runnable task |
| `Scheduling.TurnLasts` | kernel/clock.c:19-22 | a task with slice v keeps the processor through v ticks |
| `Scheduling.FullTurn` | kernel/clock.c:19-22 | a full turn is exactly 101 ticks, after which the next task runs and nothing else has changed |
| `Scheduling.StepProgress` | kernel/clock.c:11-23 | no step moves a task ahead in the ring further from its turn, and every tick brings it closer |
| `Scheduling.RunsWithinBudget` | kernel/clock.c:11-23 | a task ahead of current runs within the ticks its predecessors can still use |
| `Scheduling.BoundedWaiting` | kernel/clock.c:11-23 | a task at forward distance d becomes current within 101 * d ticks of any run |
| `Scheduling.StepTurns` | kernel/clock.c:11-23 | no step moves any waiting task further from its turn, except by a turn for each task that joins |
| `Scheduling.EveryoneGetsATurn` | kernel/clock.c:11-23 | every runnable task, also one that current has passed, becomes current within 101 ticks for each turn it is away and each task that joins meanwhile |
| `Scheduling.ArrivalsJoinAhead` | kernel/task.c:139-143 | a created or woken task joins at the tail, at a known distance ahead of current |
| `KernelTasks.Tasks.constructor` | kernel/task.c:8-9 | before the first process the ring is the idle task with null links |
| `KernelTasks.Tasks.Unlink` | kernel/task.c:51-56 | removing a task leaves a proper ring without it and clears its links |
| `KernelTasks.Tasks.Schedule` | kernel/task.c:42-85 | the next task in cyclic order becomes current, idle only if alone, for both encodings of the empty ring; a blocked task leaves the ring |
| `KernelTasks.Tasks.WakeUp` | kernel/task.c:217-234 | the task joins the ring at its tail, whichever way the empty ring is encoded |
| `KernelTasks.Tasks.WakeWaiters` | kernel/task.c:199-213 | terminates while clearing the links it walks; every waiter joins the run ring once, in blocking order, with null queue links |
| `KernelTasks.Tasks.WakeUpQueue` | kernel/task.c:194-215 | keeps all rings well formed and takes exactly the abstract wake step |
| `KernelTasks.Tasks.DoBlock` | kernel/task.c:160-188 | current joins the wait ring at its end, from the empty, singleton and proper encodings |
| `KernelTasks.Tasks.Block` | kernel/entry.S:88-99 | do_block then schedule keep all rings well formed and take exactly the abstract block step |
| `KernelTasks.Tasks.TimerInterrupt` | kernel/clock.c:11-23 | a tick with its return path keeps all rings well formed and takes exactly the abstract tick step |
| `KernelTasks.Tasks.OtherInterrupt` | kernel/entry.S:101-107 | any other interrupt reschedules if and only if the current task asks for it |
| `KernelTasks.Tasks.SystemIdle` | init/main.c:177-183 | the idle task gives up its slice; takes exactly the abstract step |
| `KernelTasks.Tasks.CreateProcess` | kernel/task.c:103-145 | the new task joins the ring tail; takes exactly the abstract create step |
| `KernelTasks.Tasks.InitQueue` | include/kernel/task.h:47-49 | an empty wait queue comes into being, nothing else changes |
| `LogText.SegmentsAreSegments` | kernel/printk.c:52-65 | cutting a text after every line end yields segments that concatenate to it, only the last possibly unfinished |
| `LogText.NextConcat` | kernel/printk.c:22-78 | the level carried between two printks is that of the concatenated text |
| `LogText.LoggedConcat` | kernel/printk.c:33-78 | what two printks log is what one printk of their segments logs |
| `LogText.ShownConcat` | kernel/printk.c:67-75 | likewise for what a console shows |
| `LogText.PlainLine` | kernel/printk.c:35-50 | a line without a prefix is logged behind "<4>" and shown by consoles of level 4 and up |
| `LogText.PrefixedLine` | kernel/printk.c:36-49 | a line with a prefix is logged as it is and shown without it by consoles of its level and up |
| `LogText.OpenLine` | kernel/printk.c:51-77 | an unfinished message leaves its level to what follows, until a newline or return |
| `LogText.ReplayWithoutPrefix` | kernel/printk.c:112-124 | a line whose prefix is lost is replayed at level 4 |
| `LogText.ReplaySegment` | kernel/printk.c:112-128 | the replay parser, in step with printk, shows what printk showed of a segment and stays in step unless it ended in a return |
| `LogText.ReplayAgrees` | kernel/printk.c:33-130 | replaying a complete log equals live output at every level when no return is followed by text |
| `LogText.ReplayLength` | kernel/printk.c:112-128 | each prefix that replay takes for text costs exactly three characters |
| `LogText.ReplayAgreesIff` | kernel/printk.c:33-130 | on a console that shows all levels, replay equals live output if and only if no return is followed by text |
| `LogText.ReplayAgreesAtAllLevelsIff` | kernel/printk.c:33-130 | replay equals live output for consoles of every level if and only if no return is followed by text |
| `LogText.ReturnWitness` | kernel/printk.c:61-128 | after "a", a return and "b", a console of level 7 sees the second prefix as text |
| `LogText.PartAgrees` | kernel/printk.c:112-128 | when one segment replays as shown live, for a parser in step, in a line that goes on, or behind a return it has missed |
| `LogText.AgreesThroughoutIff` | kernel/printk.c:33-130 | from any states of printk and parser, agreement on every initial part of the history is equivalent to a condition on neighbouring segments |
| `LogText.ReplayAlwaysAgreesIff` | kernel/printk.c:33-130 | for one console level, replay equals live output at every moment if and only if returns with lines behind them, and those lines, are hidden at that level |
| `LogText.ReplayAfterNewline` | kernel/printk.c:112-128 | a newline brings the replay parser into step, whatever precedes it |
| `LogText.LoggedBehindNewline` | kernel/printk.c:33-60 | what the log holds behind a newline is the complete log of the segments after it |
| `LogText.ReplayOfTail` | kernel/printk.c:100-130 | however much of the log is lost, from each kept newline on replay equals live output of the segments behind it |
| `LogText.InteriorReturnInText` | kernel/printk.c:61-64 | that condition, read off the printed characters |
| `KernelLog.Log.constructor` | kernel/printk.c:7-22 | the log starts empty, without a current level |
| `KernelLog.Log.LogChar` | kernel/printk.c:53-60 | the ring holds the last 16384 characters ever logged, in order, through every wrap |
| `KernelLog.Log.KeptIsTheEnd` | kernel/printk.c:8-13 | the log keeps exactly the last 16384 characters |
| `KernelLog.Log.LogLine` | kernel/printk.c:51-65 | logs up to and including the first line end and stops there |
| `KernelLog.Log.StartSegment` | kernel/printk.c:34-50 | a missing level is written into the buffer before the text without disturbing what is still to be printed |
| `KernelLog.Log.WriteConsoles` | kernel/printk.c:67-75 | exactly the consoles that can write and whose level admits the message receive it |
| `KernelLog.Log.PrintSegment` | kernel/printk.c:34-77 | one pass of the outer loop logs, shows and carries the level as specified |
| `KernelLog.Log.PrintSegments` | kernel/printk.c:33-78 | the whole loop does so for every segment of the text |
| `KernelLog.Log.Printk` | kernel/printk.c:17-83 | the log and every console gain what the text means at the current level |
| `KernelLog.ShowChunk` | kernel/printk.c:109-129 | handling one chunk of at most 15 characters is invisible: the rest replays as if the log had been parsed whole |
| `KernelLog.Log.ReplayTo` | kernel/printk.c:100-130 | the chunked replay writes what an unchunked parse of the kept log shows |
| `KernelLog.Log.RegisterConsole` | kernel/printk.c:85-133 | a new console shows what live printk would have shown it from the start, if nothing was lost and its level hides the returns followed by text (on all levels if and only if there are none); once the ring has wrapped, the same holds from the first kept newline on |
| `Numbers.DivideInHalves` | kernel/vsprintf.c:29-42 | dividing the halves in turn is exact division, and the partial quotient fits 32 bits |
| `Numbers.DoDiv` | kernel/vsprintf.c:29-42 | do_div returns quotient and remainder of the 64-bit division, with no trap |
| `Numbers.DigitsReadBack` | kernel/vsprintf.c:182-186 | the digits of a number denote it, in every base the parsers know |
| `Numbers.TakeDigits` | kernel/vsprintf.c:182-186 | the conversion loop terminates, needs at most 64 of tmp's 66 places, and leaves the digits reversed |
| `Numbers.SplitSign` | kernel/vsprintf.c:162-181 | sign, magnitude (also of the most negative number) and remaining width |
| `Numbers.WriteField` | kernel/vsprintf.c:187-212 | the five output loops write padding, head, zeros and digits in the order the flags ask for |
| `Numbers.Number` | kernel/vsprintf.c:149-213 | number writes the specified field, or fails if and only if the base is not 2 to 36 |
| `Numbers.FieldLength` | kernel/vsprintf.c:149-213 | a field is max(width, sign + prefix + max(digits, precision)) long |
| `Numbers.FieldParts` | kernel/vsprintf.c:149-213 | spaces, sign, prefix, zeros, digits and spaces of a field, each fixed by flags, width and precision |
| `Numbers.FieldCase` | kernel/vsprintf.c:151-156 | prefix and digits are of the case the flag asks for |
| `Numbers.DigitsTaken` | kernel/vsprintf.c:109-110 | the simple parsers take hexadecimal digits only |
| `Numbers.SimpleStrToU` | kernel/vsprintf.c:44-117 | the value, modulo the word, of the longest digit run after base detection, and where it ends |
| `Numbers.SimpleStrToS` | kernel/vsprintf.c:75-130 | the same with a minus sign negating the word |
| `Numbers.BareHexPrefix` | kernel/vsprintf.c:98-108 | "0x" without a hexadecimal digit behind it is a zero that ends at the x |
| `Numbers.PrintThenParseIff` | kernel/vsprintf.c:94-213 | parsing a printed 64-bit number in its base gives it back if and only if it is zero or no space and no "0x" precede the digits |
| `Numbers.SpacesWitness` | kernel/vsprintf.c:94-213 | 5 printed to width 3 reads as 0 |
| `Numbers.PrintThenDetectIff` | kernel/vsprintf.c:94-213 | with base 0, a '#' octal or hex field reads back if and only if it is zero or has neither leading spaces nor the upper-case prefix |
| `Numbers.OctalReadingIsLess` | kernel/vsprintf.c:98-113 | a decimal read in base 8 up to its first non-octal digit gives the same number if and only if it is below 8, and less otherwise |
| `Numbers.PrintDecimalThenDetectIff` | kernel/vsprintf.c:94-213 | with base 0, a decimal field reads back if and only if it is zero, or has no leading spaces and is below 8 or has no leading zeros |
| `Numbers.PrintThenParseSignedIff` | kernel/vsprintf.c:125-213 | signed printing and simple_strtoll are inverse on a 64-bit pattern if and only if it is zero or no space, plus or "0x" precedes the digits |
| `Strtoul.CutoffDecides` | kernel/perlwrap.c:776-799 | the cutoff and cutlim test holds if and only if one more digit would exceed ULONG_MAX |
| `Strtoul.Gather` | kernel/perlwrap.c:779-800 | the accumulator never wraps; overflow is set if and only if the digits' value exceeds ULONG_MAX; otherwise the accumulator is that value |
| `Strtoul.StrToUl` | kernel/perlwrap.c:726-834 | EINVAL, saturation with ERANGE, negation modulo 2^32, and endptr (end of the digits, the 'x' of a bare "0x", or the start) are exactly as the standard's wording gives them |
| `Strtoul.OutcomeIs` | kernel/perlwrap.c:726-834 | that specification fixes one outcome for every text and base |
| `Strtoul.ValueOfPrinted` | kernel/vsprintf.c:182-209 | digits printed in any base up to 36, behind any zeros, denote the number |
| `Strtoul.PrintThenStrToUl` | kernel/perlwrap.c:726-834 | strtoul reads back whatever number prints, in every base, width, precision and flag combination, stops at the end of its digits, and saturates what exceeds 32 bits |
| `Strtoul.PrintThenDetectStrToUl` | kernel/perlwrap.c:759-769 | the same with base 0 for '#' octal, '#' hex and decimals without leading zeros |
| `Strtoul.InvalidBases` | kernel/perlwrap.c:737-740 | EINVAL is for bases below 0, 1 and above 36, and such a call stores no end |
| `Strtoul.NothingConverted` | kernel/perlwrap.c:802-834 | a text that starts with no digit, letter, sign or white space gives 0 and its own start |
| `Strtoul.BareHexPrefix` | kernel/perlwrap.c:819-828 | "0x" without a hexadecimal digit gives 0 and ends at the x |
| `Strtoul.WhiteSpaceSkipped` | kernel/ctype.c:10-34 | exactly the seven white-space characters of the ctype table are skipped |
| `Strtoul.Atoi` | kernel/perlwrap.c:836-840 | atoi is the conversion in base 10, seen as a signed int |
| `Strtoul.PrintThenAtoi` | kernel/perlwrap.c:836-840 | a signed int printed in decimal in any field comes back through atoi |
| `Vsprintf.ScanFlags` | kernel/vsprintf.c:248-258 | the flag loop reads exactly the flags at its position |
| `Vsprintf.SkipAtoi` | kernel/vsprintf.c:132-139 | reads the number of the longest digit run |
| `Vsprintf.ScanWidth` | kernel/vsprintf.c:260-272 | the width from digits or argument, a negative argument meaning left justification |
| `Vsprintf.ScanPrecision` | kernel/vsprintf.c:274-287 | the precision from digits or argument, never negative after a dot |
| `Vsprintf.ScanQualifier` | kernel/vsprintf.c:289-294 | at most one qualifier |
| `Vsprintf.ScanDirective` | kernel/vsprintf.c:248-294 | the interleaved scan finds what parsing the directive first and fetching its arguments afterwards finds |
| `Vsprintf.Strnlen` | kernel/vsprintf.c:20-27 | the length of a string or the limit, whichever is smaller |
| `Vsprintf.PutChar` | kernel/vsprintf.c:300-307 | %c writes the character padded to the width |
| `Vsprintf.PutString` | kernel/vsprintf.c:309-323 | %s writes the string cut to the precision and padded to the width |
| `Vsprintf.PutPointer` | kernel/vsprintf.c:325-333 | %p writes a hex field, zero-padded to eight digits unless a width is given |
| `Vsprintf.FetchInteger` | kernel/vsprintf.c:378-394 | the argument widened to 64 bits as qualifier and sign demand |
| `Vsprintf.PutInteger` | kernel/vsprintf.c:353-395 | an integer conversion writes its field |
| `Vsprintf.PutConversion` | kernel/vsprintf.c:299-395 | the switch appends what the conversion means and consumes its argument |
| `Vsprintf.Vsprintf` | kernel/vsprintf.c:224-399 | the scan terminates despite its step back, writes exactly the rendered pieces of the parsed format and a NUL, and returns their length |
| `Vsprintf.DirectiveParses` | kernel/vsprintf.c:248-299 | a directive spelled out and parsed is the same directive, and what follows it is left |
| `Vsprintf.ShowParses` | kernel/vsprintf.c:242-299 | pieces spelled as a format and parsed are the same pieces, whatever follows |
| `Vsprintf.RenderConcat` | kernel/vsprintf.c:242-399 | a concatenation of pieces prints the concatenation, each taking its arguments in turn |
| `Vsprintf.StringConversion` | kernel/vsprintf.c:309-323 | %s shows its string, or "<NULL>", cut to the precision and filled with spaces on the side the flag asks for |
| `Vsprintf.CharConversion` | kernel/vsprintf.c:300-307 | %c shows its argument's low byte, filled likewise |
| `Vsprintf.PercentConversion` | kernel/vsprintf.c:349-376 | %% and a format that ends too early print a percent sign and take no argument |
| `Vsprintf.UnknownConversion` | kernel/vsprintf.c:370-376 | an unknown conversion prints itself |
| `Vsprintf.IntegerConversions` | kernel/vsprintf.c:353-395 | base, sign and case of each of o, x, X, d, i and u |
| `Vsprintf.IntegerArguments` | kernel/vsprintf.c:378-394 | 'L' takes a long long, every other qualifier a word |
| `Vsprintf.LetterCase` | kernel/vsprintf.c:358-362 | %X prints capitals, every other number small letters |
| `Vsprintf.PlainPointer` | kernel/vsprintf.c:325-333 | a bare %p is eight lower-case hexadecimal digits |
| `Vsprintf.PointerReadsBack` | kernel/vsprintf.c:325-333 | a pointer in any field reads back in base 16 |
| `Vsprintf.StarsAreNumbers` | kernel/vsprintf.c:264-286 | a star means the number its argument holds, negative widths left justification, negative precisions zero, widths first |
| `Vsprintf.GivenCounts` | kernel/vsprintf.c:260-287 | numbers in the format are width and precision |
| `Vsprintf.AbsentCounts` | kernel/vsprintf.c:261-275 | no width is a width of zero except for pointers, no precision one of zero for numbers |
| `Vsprintf.FetchedIsMeant` | kernel/vsprintf.c:378-394 | the 64 bits fetched are the two's complement of the short, int, long or long long that qualifier and sign mean |
| `Vsprintf.FormatThenAtoi` | kernel/vsprintf.c:364-395 | an integer of any qualifier printed by %d or %i under any flags, width and precision comes back through atoi if it is an int, else in its low 32 bits or saturated |
| `Vsprintf.FormatThenStrToUl` | kernel/vsprintf.c:353-395 | an integer of any qualifier printed by %o, %x, %X or %u comes back through strtoul, saturated beyond 32 bits |
| `BootDisk.IncSector` | tools/build.c:35-60 | byte arithmetic on sector, head and track is addition on linear sector numbers |
| `BootDisk.StoreEntry` | tools/build.c:206-207 | a map entry is stored in its five bytes, the rest of the map stays |
| `BootDisk.MapKernel` | tools/build.c:195-215 | the map lists consecutive extents, each inside a cylinder, covering exactly the kernel, in at most 80 entries followed by zeros |
| `BootDisk.DescribesCount` | tools/build.c:195-215 | such a list has at most one extent per cylinder touched |
| `BootDisk.PatchBootSector` | tools/build.c:127-180 | the boot sector no longer halts and points at the second stage behind it; the rest of it stays |
| `BootDisk.GoodHeaders` | tools/build.c:121-128 | a header is good if and only if it spells BOOT and its 16-bit words are the id, 0x1234 and 1 |
| `BootDisk.AssembledHeaders` | boot/bootsect.S:29-35 | the headers as both stages are assembled are good |
| `BootDisk.BuildImage` | tools/build.c:112-235 | an image is written if and only if both headers are right and the second stage is at most 8K; it holds boot sector and second stage unchanged but for the patched fields, the map and the kernel in their places |
| `BootDisk.ImageBytes` | tools/build.c:170-235 | halt bit, second-stage address and map address at their byte offsets in the image, map in front of the kernel |
| `BootDisk.PaddedFile` | tools/build.c:140-167 | a file in whole sectors is itself and at most a sector of zeros |
| `BootDisk.WholeBootSector` | tools/build.c:112-120 | the boot sector is the first 512 bytes of its file, zeros where that is shorter |
| `BootDisk.PlacedBytes` | boot/second.S:163-200 | placed data is in memory byte for byte, each address written by exactly one move |
| `BootDisk.AdvanceBase` | boot/second.S:191-194 | two 16-bit additions with carry advance the 24-bit destination by the bytes moved |
| `BootDisk.LoadKernel` | boot/second.S:132-200 | the interpreter stops at the zero entry, before its debug counter of 194 fetches stops the machine, and has moved the mapped sectors, each once and in order, to consecutive addresses from 1 MB |
| `BootDisk.FirstStage` | boot/bootsect.S:66-99 | the first stage loads exactly the second stage, stops at the zero entry and does not halt |
| `BootDisk.SecondStage` | boot/second.S:80-200 | from a bootable image the second stage accepts its header, finds the map, and the kernel arrives at 1 MB |
| `BootDisk.BuildThenBoot` | tools/build.c:112-235 | for every kernel that fits the floppy, building and then booting through both stages recovers the kernel |
| `Calibrate.Coarse` | init/main.c:228-246 | doubling finds the last power of two short of a tick, or runs off the word to zero |
| `Calibrate.TrialHalves` | init/main.c:248-256 | one trial halves what is uncertain about the tick |
| `Calibrate.TryBit` | init/main.c:249-255 | setting a bit and clearing it again on a missed tick keeps the largest multiple short of a tick |
| `Calibrate.Refine` | init/main.c:246-256 | eight trials below the leading bit leave the largest multiple of 2^(k-8) short of a tick |
| `Calibrate.CalibrateDelay` | init/main.c:223-256 | the result is the largest multiple of 2^(k-8) short of a tick, 2^k being the last power short of one; below and above the searchable range it is 2^12 and 0 |
| `Calibrate.RelativeError` | init/main.c:218-256 | the tick exceeds the result by at most 1/256 of it |
| `Calibrate.NothingWraps` | kernel/delay.c:64-76 | up to 20000 microseconds no product leaves its word |
| `Calibrate.UdelayAccuracy` | kernel/delay.c:64-76 | the count passed to __delay never exceeds the request and falls short by less than 100 loops plus the fraction lost in 2^32 / 10^6 |
| `Calibrate.CalibratedDelay` | kernel/delay.c:64-76 | calibration and scaling together never ask for more than the request in true ticks, with both errors added up |
| `Calibrate.LoopDelay` | kernel/delay.c:44-54 | the count-down runs one round more than its argument up to 2^31, and a single round above |
| `Calibrate.DelayRunsIff` | kernel/delay.c:44-76 | __udelay's count is run in full if and only if the scaled product stays below the sign bit, as it does up to 10000 microseconds |
| `Calibrate.DelayWitness` | kernel/delay.c:44-76 | 20000 microseconds at the largest loops_per_jiffy return after one round |

## Left out

- KernelMemory.Memory.Kalloc: requests whose page count is cut while pages are to be had are outside the method, because the result is not a valid memory (`Allocator.KallocInvIffCutSafe`); so are requests below 4 bytes, whose freed block could not hold a list node, and above 0xEFFF0000, where 32-bit sums of sizes may wrap.
- KernelMemory.Memory.TakePages: the count is the 16-bit number the function can receive.
- KernelMemory.Memory.MemFree: when the release tail does free pages, nothing is promised about the block list, whose nodes the released pages may overwrite.
- KernelMemory.Memory.Kfree: likewise; `Allocator.KfreeInvIffQuietTail` says exactly when this happens.
- KernelMemory.Memory.constructor: memory is below 256 MB, so that page numbers fit 16 bits, and the pool holds at least a page.
- Allocator.DonationInvIff: freeing the init segment is stated of the ownership machine, not of raw memory.
- KernelLog.Log.Printk: the formatted text fits the 1024-byte buffer with its level prefix; the source does not check this.
- BootDisk.IncSector: stated where the byte-sized sector and track fields do not wrap, which the builder never reaches on a 2880-sector floppy.
- BootDisk.BuildThenBoot: the boot sector file holds zeros behind its first address, as boot/bootsect.S assembles it; build.c does not check this.
- BootDisk.SecondStage: the second map address, always zero in an image, and the disk parameter patch are not modelled.
- KernelMemory.Memory.PageAllocate: keeps the page list alone; `KernelMemory.Memory.TakePage` states the whole call.
- KernelLog.Log.RegisterConsole: a console without a write function is not registered; the source would call through the null pointer.
- BootDisk.BuildImage: images beyond the 2880 sectors of the floppy, which build.c would write with wrapping track numbers, are outside the model.
- BootDisk.LoadKernel: read and move errors are not modelled.
- BootDisk.FirstStage: the restart after a read error is not modelled.
- BootDisk.ReadSectors: the BIOS read is assumed to succeed and to return consecutive sectors inside one cylinder.
- Vsprintf.Vsprintf: %n, va_list mechanics and overflow of int in widths are not modelled; arguments are a typed sequence that must match the format, as C demands, and the output buffer is as large as needed.
- Numbers.SimpleStrToU: simple_strtoul and simple_strtoull are one method with the word size as a parameter; they differ in nothing else for ASCII digits.
- KernelTasks.Tasks.CreateProcess: the list of all tasks, the register frame and the stack of the new task are not modelled.
- KernelTasks.Tasks.Schedule: the stack switch itself, the kernel lock and the status line are not modelled; kernel code between two steps runs without interruption.
- Scheduling.BoundedWaiting: nothing is claimed for a task that current has already passed in the ring; new arrivals can delay it without bound, as in the source.
- Calibrate.CalibrateDelay: the clock is a threshold on the count passed to __delay; waiting for jiffies is abstracted away, as is the time stamp counter variant, which is switched off.
- Calls of printk inside the allocator and the scheduler: logging only.
- Port I/O, interrupt controller, video memory, parallel port, protected-mode entry: hardware effects.
- kernel/perlwrap.c apart from strtoul and atoi, and all of perl/: stubs and foreign calls.
- Bitmaps, descriptor tables and the ctype table as data: small packing; the table enters as character classes.
