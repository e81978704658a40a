# A verified model of the reference monitor

The repository is a Linux kernel reference monitor in three parts: a module that keeps a blacklist of paths and
blocks operations on them, a single-file file system that holds the append-only log, and a module that discovers
the system call table. This project models the logic of the three parts in Dafny and proves what they promise.

Code that updates state in place is modelled by classes and methods with loops (`Blacklist`, `LogFile`,
`SyscallTable`, `TableFinder`, `Password`, `Monitor`, `LogPipeline`, `PrintWalk`). Each such method is proved against
a function on values, and the theorems about whole runs and interleavings are about those functions.

The main results:

- **The lookup under every interleaving.** `is_blacklisted` reads the size, the state (twice) and the head without the
  lock and then walks the list under it. `InterleavedLookup` runs it on real node objects with arbitrary critical
  sections of other threads between the steps. A stale head still leads to every listed node if and only if the
  list was not emptied in between (`StaleWalkCoverage`); a path that is protected at every moment is always found,
  even if the protecting entry changes (`AnswerComplete`); every negative answer is right at some moment of the call
  (`NegativeAnswerIsAtomic`); every positive answer rests on an entry that was listed between reading the head and
  taking the lock (`AnswerSound`). For a given schedule of switches, every positive answer is right at some moment
  of the call if and only if the monitor is on from reading the head until taking the lock, or the second read of
  the state finds REC_OFF (`ScheduleDecides`).
- **The handlers under every interleaving.** A handler takes no lock and makes one or two lookups, with critical
  sections of other threads inside and between them. A block always rests on an entry that gave reason for it during
  one of the lookups (`BlockIsSound`); an operation is always blocked if a path it would change is protected at every
  moment while the monitor is on (`ProtectedIsBlocked`, `ProtectedInRun`); every handler but those of rename and link
  lets an operation pass only if that is right at some moment (`PassIsRight`). A handler with two lookups can let an
  operation pass that is right to pass at no moment (`RenameSlipsThrough`); for a given schedule between its walks that
  is ruled out if and only if one of the names extends the other, the monitor is off in between, or no entry for the
  first name is added before one for the second is removed (`PassDecides`).
- **Those schedules are runs of the system calls.** Once the state is REC_ON, callers with the password can have any
  sequence of edits and switches committed, by calls that made their checks earlier (`EveryScheduleRuns`); so the
  failing schedules above occur in runs from module load (`LateAnswerRuns`, `WrongPassRuns`).
- **The unlocked walk of `sys_print_blacklist`** prints only nodes that were listed at some moment since the head was
  read (`PrintedWasListed`), none twice (`VisitedAscends`), and, if it ends, every entry that stayed listed
  (`StayingEntryIsPrinted`). It reads `next` twice in each round; the second read is sure to give a node if and only if
  no removal runs in between (`StepLandsExactly`). `InterleavedPrint` runs it on real node objects.
- **The blacklist over whole runs** is the insertion-ordered, duplicate-free list of the accepted edits, and the
  size counter exceeds its length by exactly the number of removals that were not at the head (`RunRefinesList`).
- **The log** holds a row for every operation a handler blocked, except those still queued, given up at open, or
  refused by a full volume (`Conservation`, `LogHoldsProcessedRows`). It is append-only over whole runs, keeps every row
  in one piece in one block, and holds exactly the header and the rows that fitted, in order (`LogText`). The 100-block
  image takes any 1567 rows of at most 255 bytes and not always 1568 (`CapacityBound`, `CapacityIsExact`). Readers see
  exactly the file's bytes however reads and writes interleave (`ReaderSeesPrefix`).
- **The system call table** found is the lowest one in the searched range and no unmapped word is read on the way
  (`FindSyscallTable`, and `LoadIsSafe` for the processor's own translation); the entries acquired by the monitor and
  those published by the discoverer agree exactly when no earlier slot repeats (`AcquiresPlaceholder`, `ModulesAgree`);
  loading and unloading is the identity on the table (`LoadAndUnload`).
- **Authority under every interleaving.** The system calls check without the lock and act later under it. Calls
  without root or without the password can be deleted from any interleaving without changing where it ends
  (`UnauthorisedCallsDoNothing`). An edit that saw a reconfiguration state at its check is carried out in one if and
  only if the last switch that took the lock in between, if any, was to one (`EditStateExactly`, `EditWhileOff`).
  The probes are sure to follow a switch if and only if every switch still in its probe loop writes the same value
  (`SwitchAgreement`, `ProbesAgainstState`).
- **Blocking without interference.** After any interleaving of calls, an operation whose handler runs undisturbed is
  blocked exactly when its probe is enabled, the monitor is on, and an entry protects a path the operation would change
  or spells out a name the handler tests together with the byte left behind it (`BlockedExactly`).

Conventions and assumptions:

- A C `char` is a Dafny `char`; a C string is a `string` without NUL, or a buffer that holds a NUL where the code
  works on buffers. Addresses and machine words are numbers, with shifts and masks as division and remainder.
- A critical section under the spinlock or the mutex is one step, and so is each read or write outside it. What other
  threads do between two steps is an arbitrary sequence of critical sections.
- The two evaluations of `reference_monitor.state` in one condition are two reads; with both at the same moment the
  model covers a compiler that loads the field once.
- A newly allocated blacklist node points nowhere: the source never assigns `next` (blacklist.c:30-39).
- The state codes are those of the macros (ON 0, OFF 1, REC_ON 2, REC_OFF 3); the comment on the `state` field
  gives others.
- `onefile_write` copies past the block for payloads over 4096 bytes, so its model asks for at most 4096; the
  logger's rows are shown to meet that.
- Memory that the code leaves uninitialised or reads beyond (the byte after a pathname, what follows the copied
  password, the unset fields of the superblock and the inode) is a parameter with any value.
- SHA-256 is a parameter, a function from strings to 32 bytes.
- The design text asks for a hash of the program's content in the log; the code hashes the program's path, and so
  does the model.
- The read length is below 2^63, as the kernel's read path guarantees before calling `onefilefs_read`, so that
  `*off + len` does not wrap.

## Model

| member | source | states |
|---|---|---|
| `BlacklistStore.ChainAscends` | reference-monitor/stack_reference_monitor.c:395-413 | a walk along `next`, also through unlinked nodes, meets strictly later-inserted nodes and so ends |
| `BlacklistStore.ChainLinked` | reference-monitor/utils/blacklist.c:43-78 | linking a new node at the tail extends exactly the chains that go through the tail |
| `BlacklistStore.ChainBypassed` | reference-monitor/utils/blacklist.c:126-138 | unlinking a node drops it from exactly the chains that go through its predecessor; other stale chains keep it |
| `BlacklistRuns.AddChains` | reference-monitor/utils/blacklist.c:41-81 | what an add does to the list and to any stale chain |
| `BlacklistRuns.RemoveChains` | reference-monitor/utils/blacklist.c:111-139 | what a removal does to the list and to any stale chain |
| `BlacklistRuns.AddRefines` | reference-monitor/utils/blacklist.c:41-86 | the pointer updates append the path unless listed, keep paths distinct, and move the counter with the length |
| `BlacklistRuns.RemoveRefines` | reference-monitor/utils/blacklist.c:111-150 | the pointer updates delete the path, and the counter is left one ahead exactly when the node was not the head |
| `BlacklistRuns.RunRefinesList` | reference-monitor/utils/blacklist.c:41-150 | after any run the list is the duplicate-free fold of the operations and size is length plus interior removals |
| `BlacklistRuns.SizeZeroMeansEmpty` | reference-monitor/stack_reference_monitor.c:382-385 | size 0 exactly when the list is empty and no interior removal ever happened, so the shortcut hides nothing |
| `BlacklistRuns.SizeIsNotLength` | reference-monitor/utils/blacklist.c:136-138 | a run after which the counter is larger than the list is long |
| `Blacklist.List.constructor` | reference-monitor/stack_reference_monitor.c:523-527 | an empty list with size 0 |
| `Blacklist.List.FindLast` | reference-monitor/utils/blacklist.c:43-76 | the search finds the path if and only if it is listed, and otherwise stops at the last node |
| `Blacklist.List.LinkIn` | reference-monitor/utils/blacklist.c:44-80 | the writes to head, tail and counter, node by node against the graph |
| `Blacklist.List.Add` | reference-monitor/utils/blacklist.c:41-86 | the heap after an add is the graph after an add; EEXIST exactly when the path was listed |
| `Blacklist.List.FindWithPrevious` | reference-monitor/utils/blacklist.c:126-134 | the loop stops at the first node with the path, with its predecessor in hand, or at the end |
| `Blacklist.List.DropHead` | reference-monitor/utils/blacklist.c:118-123 | the head moves on and the counter goes down; the old head keeps its pointer |
| `Blacklist.List.Bypass` | reference-monitor/utils/blacklist.c:136-138 | the predecessor skips the node; node and counter are left alone |
| `Blacklist.List.Remove` | reference-monitor/utils/blacklist.c:111-150 | the heap after a removal is the graph after a removal; EINVAL exactly when the path was not listed |
| `Blacklist.List.Walk` | reference-monitor/stack_reference_monitor.c:394-415 | from any node ever inserted, the loop ends and answers whether a node on that chain protects the path |
| `Blacklist.InterleavedLookup` | reference-monitor/stack_reference_monitor.c:378-419 | the lookup on real pointers, with any critical sections between its steps and both reads of the state, gives the stepwise answer |
| `Lookup.StaleChain` | reference-monitor/stack_reference_monitor.c:392-394 | a stale head leads to every listed node or to none, by whether the list was ever empty in between |
| `Lookup.StaleWalkCoverage` | reference-monitor/stack_reference_monitor.c:392-415 | the walk covers the list as it is under the lock if and only if the list was not emptied since (or is empty) |
| `Lookup.VisitedWasLive` | reference-monitor/stack_reference_monitor.c:392-415 | every node the walk visits was listed at some moment since the head was read |
| `Lookup.AnswerSound` | reference-monitor/stack_reference_monitor.c:378-419 | answer 1 implies size not 0, state other than OFF and then other than REC_OFF, and a listed entry protecting the path at some moment between head read and lock |
| `Lookup.AnswerWhileOff` | reference-monitor/stack_reference_monitor.c:386-392 | answer 1 although the monitor is off at every moment, by a switch from REC_OFF to OFF between the two reads |
| `Lookup.AnswerComplete` | reference-monitor/stack_reference_monitor.c:378-419 | a path protected at every moment from head read to lock is found, whichever entries protect it |
| `Lookup.StayingEntryIsFound` | reference-monitor/stack_reference_monitor.c:378-419 | an entry that stays listed while the monitor stays on is found in every interleaving |
| `Lookup.NegativeAnswerIsAtomic` | reference-monitor/stack_reference_monitor.c:382-418 | answer 0 is what an atomic lookup would answer at some moment of the call |
| `Lookup.StaleWalkMisses` | reference-monitor/stack_reference_monitor.c:392-415 | an interleaving that empties and refills the list, after which the walk misses a listed path |
| `Lookup.PositiveAnswerIsAtomic` | reference-monitor/stack_reference_monitor.c:386-410 | answer 1 is atomic at some moment when the monitor is on from reading the head until taking the lock |
| `SwitchSchedules.LateAnswer` | reference-monitor/stack_reference_monitor.c:386-410 | for every schedule of switches with the monitor off at such a moment, a list and edits that make answer 1 wrong at every moment |
| `SwitchSchedules.ScheduleDecides` | reference-monitor/stack_reference_monitor.c:386-410 | for a schedule of switches, answer 1 is always atomic at some moment if and only if the monitor is on from head read to lock or the second read finds REC_OFF |
| `SwitchSchedules.PositiveAnswerMayBeLate` | reference-monitor/stack_reference_monitor.c:386-410 | the shortest failing schedule, a single switch to REC_OFF after the state was read |
| `Lookup.UndisturbedAnswer` | reference-monitor/stack_reference_monitor.c:382-418 | without interference the lookup answers whether the monitor is on and a listed entry protects the path |
| `CStrings.StrNCmpIsPrefix` | reference-monitor/stack_reference_monitor.c:397 | comparing the first n bytes of two C strings is a prefix test |
| `PathMatching.MatchEntry` | reference-monitor/stack_reference_monitor.c:397-411 | the two comparisons amount to: the path starts with the entry minus one trailing slash; no index is out of range |
| `PathMatching.BlockedExtends` | reference-monitor/stack_reference_monitor.c:397-411 | blocking is closed under extending the path |
| `PathMatching.PathFromDentry` | reference-monitor/utils/utils.c:173-186 | the buffer holds the path, possibly followed by the one byte the allocator left |
| `PathMatching.StrayByte` | reference-monitor/utils/utils.c:182-183 | the stray byte never lifts a block, and adds one exactly when an entry spells the path with it |
| `Interception.SeenBlocks` | reference-monitor/kprobes/kprobes.c:62-63 | looking up what the handler reads adds to the path's own protection exactly the entries that spell out the left byte |
| `Interception.TestsInOrder` | reference-monitor/kprobes/kprobes.c:42-307 | each handler blocks exactly when its first lookup finds its first name or its second lookup its second |
| `Interception.FoundConcerns` | reference-monitor/kprobes/kprobes.c:42-307 | what any lookup of a handler finds protects a path to be changed or spells out a tested name; the rmdir parent test adds nothing else |
| `Interception.BlocksExactly` | reference-monitor/kprobes/kprobes.c:42-307 | with all lookups on one list, the ten handlers block exactly when a path to be changed is protected or an entry spells out a tested name with its left byte |
| `Interception.LeftByteBlocks` | reference-monitor/kprobes/kprobes.c:244 | an rmdir that only the byte left behind the parent's name blocks |
| `Handlers.BlockIsSound` | reference-monitor/kprobes/kprobes.c:42-307 | in every interleaving a block rests on a list that gave reason to block, at a moment between head read and lock of one of the lookups |
| `Handlers.ProtectedIsBlocked` | reference-monitor/kprobes/kprobes.c:42-307 | all ten handlers block whenever a path to be changed is protected at every moment of the handler, with the monitor on |
| `Handlers.SinglePassIsAtomic` | reference-monitor/kprobes/kprobes.c:42-307 | a handler with one lookup passes only if an atomic handler would at some moment |
| `Handlers.PassIsRight` | reference-monitor/kprobes/kprobes.c:231-253 | for all but rename and link, a pass has a moment with the monitor off or no path to be changed protected; the rmdir handler tests the directory first |
| `Handlers.MissesAreMarked` | reference-monitor/kprobes/kprobes.c:213-219 | two misses that are right at no moment have an add for the first name and a later removal for the second between the walks |
| `Handlers.ComparableMisses` | reference-monitor/kprobes/kprobes.c:90-96 | two misses of names of which one extends the other are right at some moment |
| `HandlerSchedules.Race` | reference-monitor/kprobes/kprobes.c:213-219 | for every schedule of switches and marks, edits with that schedule throughout which one of the names is protected |
| `HandlerSchedules.WrongPass` | reference-monitor/kprobes/kprobes.c:213-219 | a pass right at no moment needs unrelated names, the monitor on between the walks, and an add for the first name before a removal for the second |
| `HandlerSchedules.WrongPassExists` | reference-monitor/kprobes/kprobes.c:213-219 | for every such schedule, a list and edits with which the operation passes and should at no moment |
| `HandlerSchedules.PassDecides` | reference-monitor/kprobes/kprobes.c:90-96 | the if-and-only-if over schedules for handlers with two lookups |
| `HandlerSchedules.RenameSlipsThrough` | reference-monitor/kprobes/kprobes.c:213-219 | a rename of /s to /d passes although at every moment the monitor is on and one of the paths is protected |
| `PrintWalk.PrintedWasListed` | reference-monitor/stack_reference_monitor.c:296-349 | every node printed was listed at some moment since the head was read, whatever edits run between the steps |
| `PrintWalk.StayingEntryIsPrinted` | reference-monitor/stack_reference_monitor.c:296-349 | a walk that ends has printed every entry that stayed listed |
| `PrintWalk.VisitedAscends` | reference-monitor/stack_reference_monitor.c:323-337 | the walk meets strictly later-inserted nodes, so none twice |
| `PrintWalk.QuietWalkPrintsList` | reference-monitor/stack_reference_monitor.c:323-348 | without interference the walk prints the list |
| `PrintWalk.StepLandsExactly` | reference-monitor/stack_reference_monitor.c:323-336 | after a successful test the step is sure to reach a node if and only if no removal runs in between |
| `PrintWalk.NamesOfVisited` | reference-monitor/stack_reference_monitor.c:325-348 | the paths printed are those of the visited nodes at any later moment |
| `PrintWalk.InterleavedPrint` | reference-monitor/stack_reference_monitor.c:296-349 | the walk on real pointers with critical sections between its steps: what it prints, and whether it finds the list empty, ends, or steps off it |
| `Monitor.ServeKeeps` | reference-monitor/stack_reference_monitor.c:85-148 | every complete call keeps the state in 0..3, the list invariant, and probes enabled exactly when ON or REC_ON |
| `MonitorSteps.AdvanceKeeps` | reference-monitor/stack_reference_monitor.c:85-275 | every step of every call keeps the state in 0..3 and every waiting call authorised, an edit having seen REC_ON or REC_OFF |
| `MonitorSteps.ChangesAreAuthorised` | reference-monitor/stack_reference_monitor.c:203-272 | in every step a list change is an authorised edit that saw REC at its check, a state change an authorised switch, a probe change a switch's loop |
| `MonitorSteps.SeenAtCheck` | reference-monitor/stack_reference_monitor.c:203-207 | the state a waiting call saw is the state at its own check, with no lock taken by it since |
| `MonitorSteps.UnauthorisedCallsDoNothing` | reference-monitor/utils/utils.c:98-142 | deleting all unauthorised calls from any interleaving, with any password bytes, leaves its end unchanged |
| `MonitorSteps.RunWorld` | reference-monitor/stack_reference_monitor.c:106-108 | list and state are those of the committed critical sections in lock order, so the lookup results apply |
| `MonitorSteps.RunBlacklist` | reference-monitor/stack_reference_monitor.c:194-275 | after any interleaving the blacklist is the fold of the committed edits |
| `MonitorSteps.EditStateExactly` | reference-monitor/stack_reference_monitor.c:203-224 | an edit is carried out in REC_ON or REC_OFF if and only if the last switch locked between its check and its lock, if any, was to one |
| `MonitorSteps.EditWhileOff` | reference-monitor/stack_reference_monitor.c:203-224 | an interleaving in which an edit changes the list in OFF |
| `ProbeLoops.AgreementExactly` | reference-monitor/kprobes/kprobes.c:319-359 | loops that interleave are sure to end with a new loop's value if and only if every loop in progress writes that value |
| `MonitorProbes.SwitchAgreement` | reference-monitor/stack_reference_monitor.c:106-117 | when a switch locks, the probes are sure to end up agreeing with its state if and only if all switches still in their loops write the same value |
| `MonitorProbes.CompleteCall` | reference-monitor/stack_reference_monitor.c:85-275 | the steps of one call with nothing in between amount to serving it as a whole |
| `MonitorProbes.ProbesAgainstState` | reference-monitor/stack_reference_monitor.c:106-117 | a run from module load after which the state is OFF and all probes are enabled |
| `ReachableSchedules.MomentOfRun` | reference-monitor/stack_reference_monitor.c:85-275 | every moment of the committed events is a moment of the run |
| `ReachableSchedules.ProtectedInRun` | reference-monitor/kprobes/kprobes.c:42-307 | in every run from module load, an operation with a path protected and the monitor on at every moment of its handler is blocked |
| `ReachableSchedules.EveryScheduleRuns` | reference-monitor/stack_reference_monitor.c:85-275 | after a switch to REC_ON, any edits and switches in any order are committed by a run from module load of calls that all passed their checks |
| `ReachableSchedules.LateAnswerRuns` | reference-monitor/stack_reference_monitor.c:386-410 | for every schedule with the monitor off between head read and lock, a run of the system calls in which answer 1 is right at no moment |
| `ReachableSchedules.WrongPassRuns` | reference-monitor/kprobes/kprobes.c:213-219 | for every failing schedule of a handler with two lookups, a run of the system calls in which the operation slips through |
| `MonitorProbes.BlockedExactly` | reference-monitor/kprobes/kprobes.c:42-359 | after any interleaving of calls, with the handler undisturbed: blocked exactly when the probe is enabled, the monitor on, and a committed entry protects a changed path or spells out a tested name |
| `MonitorProbes.BlockedBetweenCalls` | reference-monitor/kprobes/kprobes.c:42-359 | between complete calls the state and the list alone decide |
| `Monitor.ReferenceMonitor.constructor` | reference-monitor/stack_reference_monitor.c:518-541 | initial state OFF, empty list, all probes disabled, stored password hash |
| `Monitor.ReferenceMonitor.SetProbes` | reference-monitor/kprobes/kprobes.c:319-359 | the loop sets all ten probes and nothing else |
| `Monitor.ReferenceMonitor.CheckPassword` | reference-monitor/utils/utils.c:98-131 | 0 exactly when the digests are equal, EACCES otherwise |
| `Monitor.ReferenceMonitor.SwitchState` | reference-monitor/stack_reference_monitor.c:86-148 | checks in order, then state and probes; the whole new state and the return value |
| `Monitor.ReferenceMonitor.AddToBlacklist` | reference-monitor/stack_reference_monitor.c:203-230 | checks in order, then the add; the whole new state and the return value |
| `Monitor.ReferenceMonitor.RemoveFromBlacklist` | reference-monitor/stack_reference_monitor.c:245-272 | checks in order, then the removal; a missing path returns 1 |
| `Monitor.ReferenceMonitor.IsBlacklisted` | reference-monitor/stack_reference_monitor.c:378-419 | the undisturbed lookup answers atomically |
| `Password.GetPassword` | client/client.c:369-441 | the loop takes keys until newline, end or a full buffer; the buffer holds the edited line and a NUL below sz |
| `Password.WholeLineTaken` | client/client.c:408-427 | the whole line is taken if and only if the edited text always fits, else the editor stops early |
| `Password.KernelSeesLine` | reference-monitor/utils/utils.c:103-121 | the 32 copied bytes hold the typed line exactly when no NUL was typed |
| `Password.WriteHex` | reference-monitor/utils/utils.c:73-74 | the loop fills the buffer with the hexadecimal digits and a terminator |
| `Password.UnhexHex` | reference-monitor/utils/utils.c:64-74 | the encoding is invertible and a C string |
| `Password.CopiedTextWithin` | reference-monitor/utils/utils.c:103-121 | memory behind the 32 copied bytes is without influence if and only if the caller terminated the string; else all 32 are hashed |
| `Password.Encrypt` | reference-monitor/utils/utils.c:22-85 | the result is the hexadecimal digest of the text |
| `Password.PasswordCheck` | reference-monitor/utils/utils.c:98-131 | for any 32 bytes and any memory behind them, accepts exactly when the stored string is that of the found text's digest |
| `Password.StoredStringDecides` | reference-monitor/utils/utils.c:121 | equal strings exactly when equal digests |
| `LogVolume.StartInBlock` | log-filesystem/file.c:107-118 | a payload of at most one block starts where it stays inside one block, after a gap shorter than itself |
| `LogVolume.AppendContent` | log-filesystem/file.c:107-132 | the new file is the old file, the skipped bytes and the payload; the first two blocks are untouched |
| `LogVolume.CopyIsAppend` | log-filesystem/file.c:120-136 | copying the payload byte by byte into the chosen block is the append |
| `LogVolume.RunKeepsPrefix` | log-filesystem/file.c:107-136 | over any run the old file is a prefix of the new one and blocks 0 and 1 never change |
| `LogVolume.RowStaysInOneBlock` | log-filesystem/file.c:107-136 | every row written in a run is there at the end in one piece in one block, behind a gap shorter than the row |
| `LogVolume.GrowthBound` | log-filesystem/file.c:107-136 | the file grows by at most twice the bytes written |
| `LogVolume.LogText` | log-filesystem/file.c:107-136 | the text of the file is the old text and exactly the rows that fitted, in writing order |
| `LogVolume.StaleSizeRead` | log-filesystem/file.c:22-63 | appends between sampling the size and taking the mutex do not change what a read returns |
| `LogVolume.ReaderSeesPrefix` | log-filesystem/file.c:17-142 | however reads and writes interleave, a reader from offset 0 has exactly the file up to its offset |
| `LogVolume.EmptyReadMeansEnd` | log-filesystem/file.c:31-44 | a read with a positive buffer is empty exactly at the end of the file, and then the reader has all of it |
| `LogCapacity.PackedStep` | log-filesystem/file.c:107-132 | each row keeps the packing bound, and before row 1568 the target block is inside the image |
| `LogCapacity.CapacityBound` | log-filesystem/file.c:107-132 | on the 100-block image, after fewer than 1567 rows of at most 255 bytes, of any lengths, the next one fits |
| `LogCapacity.CapacityIsExact` | log-filesystem/file.c:107-125 | on the 100-block image, after any 1567 rows of 255 bytes no further such row fits |
| `LogFile.DecodeEncode` | log-filesystem/file_system.h:28-57 | a little-endian field reads back as the value written |
| `LogFile.FieldHolds` | log-filesystem/file_system.h:28-57 | a field of bytes holds a value if and only if it is that value's encoding |
| `LogFile.Put` | log-filesystem/singlefilemakefs.c:45 | one write puts its bytes at the position and changes nothing behind them |
| `LogFile.MakeFileSystem` | log-filesystem/singlefilemakefs.c:40-92 | magic, file size and header text lie where mount, lookup and read look for them; all later bytes are zero |
| `LogFile.Mount` | log-filesystem/file_system.c:40-53 | a device of bytes mounts if and only if the encoded magic number is in place; a fresh image mounts |
| `LogFile.OpenLog.constructor` | log-filesystem/file.c:183-192 | the size that was encoded in the inode is read back; the file is usable exactly when it fits the device; on a fresh image it is the header line |
| `LogFile.OpenLog.Write` | log-filesystem/file.c:79-142 | the device and the size after the call are those of an append; EIO exactly when there is no such block |
| `LogFile.OpenLog.Read` | log-filesystem/file.c:22-63 | returns the bytes of one block, clamped to the sampled size |
| `LogFile.OpenLog.ReadAll` | log-filesystem/file.c:31-63 | a loop from offset 0 with any positive buffers ends with the whole file |
| `LogFile.FreshLookup` | log-filesystem/file.c:183-192 | on a fresh image the magic number matches, the size is 58 and the file is the header line |
| `LogFile.FreshLog` | log-filesystem/singlefilemakefs.c:27-92 | mkfs, mount, lookup and a read loop yield exactly the header text |
| `LogPipeline.RowIsWritable` | reference-monitor/log/logger.c:45-56 | every row meets the writer's bound, and is complete exactly when ids and path take at most 188 characters |
| `LogPipeline.Conservation` | reference-monitor/kprobes/kprobes.c:29-40 | in every run the operations that handlers blocked are those pending, those dropped at open, and those handed to the writer |
| `LogPipeline.VolumeIsAppends` | reference-monitor/log/logger.c:49-56 | in every run the device is the initial one with the processed rows appended in processing order |
| `LogPipeline.LogHoldsProcessedRows` | reference-monitor/log/logger.c:38-66 | the log's text is the header line and the accepted rows in processing order, none missing up to 1567 |
| `LogPipeline.Logger.DeferredWork` | reference-monitor/log/logger.c:38-65 | one item leaves the queue, and its row is appended unless the log could not be opened |
| `SyscallTable.Collect` | reference-monitor/syscall-mount/scth.c:125-149 | the inner loops gather the occurrences of the value in order until enough are found |
| `SyscallTable.GetEntries` | reference-monitor/syscall-mount/scth.c:89-170 | succeeds exactly when the first repeated value occurs often enough, with its first occurrences; else changes nothing |
| `SyscallTable.AcquiredUnique` | reference-monitor/syscall-mount/scth.c:112-167 | the table determines the acquired entries and the address |
| `SyscallTable.PublishFree` | syscall-table-discoverer/usctm.c:182-188 | the published entries are the first fifteen placeholder slots |
| `SyscallTable.AcquiresPlaceholder` | reference-monitor/syscall-mount/scth.c:112-169 | on an accepted table the monitor acquires the placeholder if and only if no slot before the first placeholder repeats |
| `SyscallTable.OtherValueAcquired` | reference-monitor/syscall-mount/scth.c:112-169 | an accepted table from which six entries of another value are acquired |
| `SyscallTable.ModulesAgree` | syscall-table-discoverer/usctm.c:119-136 | if only the placeholder repeats, six entries are acquired, the first six published, from 134 unless slot 0 is free |
| `SyscallTable.Overwrite` | reference-monitor/stack_reference_monitor.c:469-472 | the loop writes the given slots and no other |
| `SyscallTable.Installation.Install` | reference-monitor/stack_reference_monitor.c:445-474 | the acquired slots hold the new calls and no other slot changes; on failure the table is untouched |
| `SyscallTable.Installation.Restore` | reference-monitor/stack_reference_monitor.c:558-564 | the acquired slots hold the saved placeholder again and no other slot changes |
| `SyscallTable.Installation.LoadAndUnload` | reference-monitor/stack_reference_monitor.c:424-564 | installing and cleaning up is the identity on the table |
| `SyscallTable.RestoreIsIdentity` | reference-monitor/stack_reference_monitor.c:558-563 | restoring undoes installing because the slots are distinct and held the placeholder |
| `Paging.ReturnedInt` | syscall-table-discoverer/lib/vtpmo.c:150-176 | NO_MAP exactly when a level is invalid or the frame number's low 32 bits are all ones; a frame below 2^31 is returned as it is |
| `Paging.ConstantOnPage` | syscall-table-discoverer/lib/vtpmo.c:67-70 | the answer is constant over each 4 KiB page |
| `Paging.ConstantOnLarge` | syscall-table-discoverer/lib/vtpmo.c:143-153 | the answer is constant over each 2 MiB mapping |
| `Paging.AgreesWithProcessor` | syscall-table-discoverer/lib/vtpmo.c:105-176 | the walk faults exactly when 4-level translation does, and else gives the first frame of the mapping used |
| `Paging.ReturnsFrame` | syscall-table-discoverer/lib/vtpmo.c:82-176 | the returned int is NO_MAP exactly when translation faults or the frame's low 32 bits are all ones, and the mapping's first frame below 2^31 |
| `TableFinder.GoodArea` | syscall-table-discoverer/usctm.c:85-99 | no word from 1 to 133 equals word 134 |
| `TableFinder.Matches` | syscall-table-discoverer/usctm.c:119-131 | the test accepts exactly the tables with the placeholder pattern |
| `TableFinder.GuardDecides` | syscall-table-discoverer/usctm.c:109-116 | past the guard every word is mapped; at the break no later start in the page is readable |
| `TableFinder.ValidatePage` | syscall-table-discoverer/usctm.c:104-140 | the lowest readable match in the page, or none exists |
| `TableFinder.FindTable` | syscall-table-discoverer/usctm.c:143-161 | the lowest readable match in the searched range, or none exists; no unmapped word is read |
| `TableFinder.LoadIsSafe` | syscall-table-discoverer/usctm.c:85-131 | the processor does not fault on any word that the walk finds mapped |
| `TableFinder.FindSyscallTable` | syscall-table-discoverer/usctm.c:143-161 | the same over real page tables, where one walk per page decides readability; no word of the table found faults |

## Left out

- Kernel services: failed allocations and user copies, cr0 writes, kretprobe registration and missed probes.
- Overflow of `blacklist_size`, an int that would need 2^31 operations to wrap.
- The text that `sys_print_blacklist` builds, whose buffer handling gives no sound basis for a model, and its comparison of sizes; its walk is modelled.
- Persistence of the log across mounts: the file size on the device is never rewritten.
- Interception of the monitor's own log writes, and how `dentry_path_raw` names paths below a mount point.
- Table entries 237 to 255 as a claim about mapped memory: the mapped-page test stops at entry 236.
- A pathname that could not be built: the handlers would pass a null pointer to the lookup.
- Payloads over one block in `onefile_write`, which write outside the buffer.
- Client menus, terminal modes, shell scripts, Makefiles and the demo programs.
- Blacklist.List.Walk: compares entries as strings, because MatchEntry proves that the comparison of buffers is the same.
- Blacklist.List.Add: does not keep the node that the source allocates before the search when the path turns out to be listed.
- TableFinder.LoadIsSafe: assumes of the visited entries what Paging.AgreesWithProcessor assumes.
- Paging.AgreesWithProcessor: assumes entry bits 52 to 62 clear, no 1 GiB page and no attribute bits below bit 21 of a 2 MiB entry, which the code does not look at.
- Paging.Frame: shifts and masks are division and remainder on numbers instead of operations on machine words.
