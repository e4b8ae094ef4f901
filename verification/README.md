# Jaaru: crash engine, exploration and their data structures

Jaaru is a model checker for programs that use persistent memory. It runs the program, injects crashes, runs what comes after the crash, and explores every value that a post-crash load may return. This project models the parts of Jaaru that carry its guarantees and proves those guarantees for all inputs and all runs.

`dafny verify dfyconfig.toml` checks everything.

## The crash engine

Committed stores go to a list per 8-byte word, in the order of their sequence numbers (`Memory`, `StoreList`). A cache line of an execution carries an interval of the points at which it may have been written back; an end of 0 means that nothing bounds it from above (`Column`). A load after a crash is offered vectors of stores, one per byte, collected from the newest execution down (`Enumeration`). The vector that is taken narrows the intervals.

Three machines share one notion of event (`Engine`):

- the lazy machine does what the checker does: it never fixes a write-back point, and only narrows intervals;
- the eager machine fixes one point per execution and line at the crash;
- the byte machine has one flat memory, and at a crash every line keeps the stores up to its point (`ByteMachine`).

`LazyEager` relates the first two, `ByteMachine` the last two, and `ByteMachine.CheckerIsExact` is the result: the checker shows a run of values only if a real machine can, and shows every such run unless a load of it meets an initialization store that the program issued. `Execution`, `PostCrashRead` and `HandleRead` are the methods of the source that read and update the objects, tied to the steps of the lazy machine.

`StoreBuffers` and `Tso` model threads with store buffers and flush buffers and every interleaving of them, `TsoMemory` proves that loads without a crash are those of x86-TSO (Intel 64 and IA-32 Architectures Software Developer's Manual, Volume 3A, section 8.2.2) and that stores commit once and in program order, `FlushCoverage` says by the history of a run what a completed flush covers, `Persistence` that a store, a flush and a fence together make the store persistent, `Fences` when a flush promises no more than it should, `CrashPoints` that the few points at which the checker crashes suffice. `Eviction` and `ThreadMemory` are the buffers as the object that the source updates, crash checks included, and `CheckPoints` proves that the checks made on the way are those that suffice.

Assumptions, stated as preconditions: an access stays inside one 8-byte word, because lists are kept per word; every store is instrumented; the stores of a program have numbers of at least 2, because number 1 goes to the start of the main thread (the clock starts at `FRESH_CLOCK`).

Two places where the code does less than its comments suggest, both kept as they are and characterised exactly:

- the clock of the last sfence shares its storage with the stored value, so a clflushopt that leaves the store buffer before any sfence of its thread reads the unset value 0xdeadbeef and counts later stores as written back (`Fences.BeginsOrderedExactly`, `Fences.UnfencedFlushLosesState`), and the crash points of the checker then do not suffice (`Fences.ReducesExactlyWhenFenced`, `Fences.UnfencedLosesCrashPoint`);
- an initialization store ends the search of an execution even if it lies inside the interval, so an atomic_init that the program executes on persistent memory can lose states (`Enumeration.ExploresAllExactly` says when for one load, `LazyEager.OffersAllExactly` over runs, `ByteMachine.InitStoreLosesRun` is a run).

## Exploration

`ChoiceTree` is the tree of choices of a deterministic program with crash edges, its leaves in lexicographic order, and the step to the next leaf. `NodeStacks` is the stack of choices of one execution, `Exploration` relates the stack of stacks and the replay queue to a position in the tree, and `Checker` is the driver with the loops of the source. `Checker.ExploreAll` is the result.

## Data races

`Races` proves the detector exact over histories of plain accesses to a byte, and says at which accesses it reports once atomic ones are mixed in; it then reports only races, but not all. `ShadowWords` shows that packed words and expanded records refine one summary, `RaceDetector` is the record with its arrays, `ShadowMemory` the multi-byte checks with their fast path, `ClockVectors` the vector clocks.

## Containers and allocator

`ProbeTables` and `HashTable` are linear probing with backward-shift deletion, for any equality of keys and any hash function that respects it; a map from classes of keys is what they refine. `HashSet` is the linked set over it and its iterator. `RadixTrees` and `ActionList` are the list of actions in the order of their sequence numbers, with the radix tree that finds the place of a new one. `TreeBins`, `Tries` and `BestFit` are the bins of large chunks of the allocator: index arithmetic, the bitwise tries and the best-fit searches. From sizes of 2^40 on, the index macro cuts the shifted size to 32 bits; `TreeBins.HugeIndexExact` says when the bin is still right. `SmallBins` are the bins of small chunks. `Tiles` and `HeapSteps` are the chunks of one segment with their boundary tags, `Mspace` is the heap that allocates from it and frees to it, and `HeapRuns` says what its invariant means to a program over any sequence of requests. The heap has one segment below 2^40 bytes, as a block of a given capacity makes it; asking the system for more memory is taken to fail.

## Model

| member | source | states |
|---|---|---|
| ByteMachine.CheckerIsExact | Model/execution.cc:409-505 | Main result of the crash engine: for every run of commits, initialization stores among them, flushes, loads and crashes, over any number of crashes, loads may return values under the checker only if a machine with one flat memory, losing at each crash what some write-back point per line loses, may return them; and the checker allows every such run in which no load meets an initialization store inside an interval |
| ByteMachine.PlainMeetsNoInit | API/atomicapi.cc:58-72 | A run in which the program issues no initialization store meets none, so for it the two sides are equivalent |
| ByteMachine.UncrashedMeetsNoInit | Model/execution.cc:1418-1431 | Neither does a run without a crash, whatever it stores |
| ByteMachine.InitStoreLosesRun | Model/execution.cc:1509-1517 | A concrete run (a store, an initialization store over it, a crash, a load of the first value) that a real machine can show and the checker does not |
| LazyEager.LazyEagerEquivalent | Model/execution.cc:437-492 | Interval refinement is exact over whole runs: a run that the checker accepts is explained by exactly the choices of one write-back point per execution and line that lie in the final intervals; and every run that some choice explains is accepted if no load meets an initialization store |
| LazyEager.OffersAllExactly | Model/execution.cc:1440-1539 | After any accepted run, the next load is offered every vector that some choice explains if and only if it meets no initialization store inside an interval |
| LazyEager.LazyRunExplained | Model/execution.cc:437-492 | The product of the intervals is never empty: every run the checker accepts is explained by some choice of points |
| Column.NarrowReadExact | Model/execution.cc:437-492 | One read, all executions: the points inside the narrowed intervals are exactly the points inside the old ones under which every byte reads from the store taken, and the new intervals are not empty |
| Column.NarrowByteExact | Model/execution.cc:437-492 | One byte: the walk from the newest execution down to the one read from keeps exactly the points that make this byte come from this store |
| Column.RealizableFromPrior | Model/execution.cc:1433-1433 | Every vector a read may take names a store for each open byte, from the executions that hold it |
| Enumeration.LookForWritesInPriorExecution | Model/execution.cc:1440-1539 | The vectors collected from one crashed execution are, as a set, exactly the seeds overlaid with the stores up to some point of the window of its line, and the early exit is taken only with every slot filled |
| Enumeration.ExploresAllExactly | Model/execution.cc:1509-1517 | All executions and any seed: every vector that points of the intervals give is explored, if and only if there is no open byte that can come down to an execution in which an initialization store touching the read lies inside the interval, at or above a store of that byte |
| Enumeration.WindowsAreRanges | Model/execution.cc:1509-1517 | When only original contents count as initialization, no load meets one |
| Enumeration.WindowsInside | Model/execution.cc:1509-1517 | Whatever the windows give, points of the intervals give too |
| Enumeration.InitLosesRead | Model/execution.cc:1509-1517 | If a load meets an initialization store, the vector read with every line written back as early as it may be is lost |
| Enumeration.ReachedLast | Model/execution.cc:1418-1431 | Once the walk down the executions has stopped, the vectors at hand are exactly the realizable ones |
| StoreList.AddStoreSameBytes | Model/execution.cc:1183-1232 | A list without its redundant stores and the full history supply the same byte at every address and every point |
| StoreList.SubsumedSameByte | Model/execution.cc:1183-1232 | A store that is dropped would have written the byte that is already there |
| StoreList.SubsumedExactly | Model/execution.cc:1195-1224 | A store is dropped if and only if some store of the list holds all its bytes and no store after that one overlaps it |
| EngineInvariant.NextInv | Model/execution.cc:1183-1232 | Every step keeps the lists sorted by sequence number inside their word, numbers at most the clock, intervals of crashed executions non-empty, running ones unbounded, and original contents first in the oldest execution |
| EngineInvariant.EnsureInv | Model/execution.cc:1022-1038 | Recording original contents at a first access keeps that invariant |
| LazyEager.RealizableIsFull | Model/execution.cc:1022-1038 | Every vector offered to a load fills every slot, because the oldest execution holds the original contents of the word |
| ByteMachine.EagerIsMachine | Model/execution.cc:1183-1232 | Every run with points fixed at the crashes is, value for value, a run of the flat memory machine |
| ByteMachine.MachineIsEager | Model/execution.cc:1183-1232 | Every run of the flat memory machine comes from stores that the lists hold |
| Execution.ModelExecution.AddWriteToLists | Model/execution.cc:1183-1232 | Appends the store unless the newest overlapping store holds its bytes already; the flag of recorded stores is reset exactly when it is appended |
| Execution.ModelExecution.EnsureInitialValue | Model/execution.cc:1022-1038 | Puts the original contents of the word first, once, and counts that as a recorded store |
| Execution.ModelExecution.GetCacheLine | Model/execution.cc:715-722 | Makes a line on demand without changing what any reader sees |
| Execution.CheckOverlap | Model/threadmemory.h:15-34 | Fills exactly the open slots the store covers, keeps the count of open slots right, and reports done exactly when none is left |
| Execution.FillNewestFirst | Model/execution.cc:1311-1324 | Each slot gets the newest covering store of the list |
| PostCrashRead.ReadHere | Model/execution.cc:451-472 | In the execution read from, the interval starts at the store and ends before the next store of that byte |
| PostCrashRead.ReadElsewhere | Model/execution.cc:474-490 | In an execution passed over, the interval ends before its first store of that byte |
| PostCrashRead.NarrowForByte | Model/execution.cc:441-491 | The walk over the executions for one byte narrows exactly the lines of the executions newer than, and equal to, the one read from |
| PostCrashRead.ProcessRead | Model/execution.cc:409-505 | The objects end in the intervals of the specification of a whole read, and the value is assembled from the stores taken |
| PostCrashRead.BuildMayReadFrom | Model/execution.cc:1365-1437 | The vectors returned are exactly those realizable after the store buffer, the running execution and the crashed ones |
| HandleRead.Candidates | Model/execution.cc:1365-1437 | In every reachable state, initialization stores included, the candidates of a load are exactly those the engine offers, full and at least one |
| HandleRead.HandleRead | Model/execution.cc:1040-1092 | A whole load: the candidates are exactly the vectors the engine may take, and taking the chosen one leads the objects where the step of the engine leads |
| TsoMemory.CheckerRefinesTso | Model/execution.cc:1311-1324 | Refinement of x86-TSO: without a crash, for every interleaving, the checker lets the reads return exactly the newest own buffered store or else the byte of one flat memory |
| TsoMemory.CommittedInProgramOrder | Model/threadmemory.cc:58-111 | For every interleaving, what a thread has committed followed by what it still buffers is what it issued: each store commits once and in program order |
| TsoMemory.FlatMemory | Model/execution.cc:1183-1232 | The history up to the clock shows every reader the byte that the last committed store left |
| Tso.RunGood | Model/threadmemory.cc:18-135 | Every reachable state: buffers hold the end of the program in order, numbers increase in program order, every flush knows the latest operation on its line before it, and every completed flush has its guarantee |
| Tso.FlushGuarantee | Model/execution.cc:684-713 | Once a clflush, or a drained clflushopt, has completed, every earlier store of its thread to the line is committed and the interval of the line starts at or after all of them, for the rest of the execution |
| Tso.PendingFlushesCounted | Model/threadmemory.cc:183-185 | The flush counter is zero exactly when no flush of the thread is pending in either buffer |
| FlushCoverage.FlushCoversCommitted | Model/execution.cc:694-698 | Over whole runs: from the completion of a clflush or clflushopt on, the interval of its line starts at or after every number that any thread had been given when the flush was issued |
| FlushCoverage.FlushAfterFence | Model/threadmemory.cc:96-100 | Over whole runs: from the completion of a clflushopt on, the interval of its line starts at or after the number of every sfence that left the store buffer of its thread before the clflushopt did |
| FlushCoverage.FlushMovesExactly | Model/execution.cc:684-699 | What a clflushopt covers, exactly and by the history of the run: the start becomes the latest of the old start, the clock at its issue, the number of the latest store or clflush of its thread to the line before it, and the number of the last sfence before it, or the unset value if there was none |
| FlushCoverage.LastFenceIs | Model/threadmemory.cc:66-72 | The recorded last sfence is the last one that the thread evicted in this execution |
| FlushCoverage.NumberIs | Model/threadmemory.cc:187-193 | The number of an action is the one given by the step at which it took effect in this execution |
| Persistence.StoreFlushFence | Model/execution.cc:684-713 | The promise to the program: in every run, a store followed by a flush of its line, and the flush by an evicted sfence (or by a drained flush buffer; a clflush needs neither), is committed and its line starts at its number or later, so that no crash loses it |
| Persistence.FencedFlushCompletes | Model/threadmemory.cc:66-72 | A flush that left the store buffer is completed once an sfence after it has been evicted |
| StoreBuffers.DrainGuarantees | Model/execution.cc:688-699 | The start computed for a clflushopt covers every earlier store of the thread to the line, through the one recorded last operation on the line |
| StoreBuffers.ClflushGuarantees | Model/execution.cc:685-686 | A clflush is numbered after every earlier store of its thread |
| StoreBuffers.FlushPointRecent | Model/execution.cc:688-699 | The new start stays at most at the current number if and only if the operation is a clflush, or the thread had evicted an sfence before it, or the clock has passed the unset value |
| Fences.BeginsOrderedExactly | Model/threadmemory.cc:96-100 | Over whole runs, starts of intervals never move back and never pass the present if and only if every clflushopt that completes left the store buffer after an sfence of its thread |
| Fences.OrderlyExactlyWhenFenced | Model/threadmemory.cc:96-100 | The same condition for the memory events that the threads produce |
| Fences.UnfencedFlushLosesState | Model/action.h:222-225 | A concrete program with a clflushopt before any sfence: the checker does not show the crash that loses a later store to the line, although the flush promises only what came before it |
| CrashPoints.CrashPointsSuffice | Model/execution.cc:755-774 | Crash-point reduction: whatever can follow a crash after any event of an execution can also follow a crash at some check that is made, even with checks skipped while no store was recorded, if starts of intervals move forward and stay in the past; the checker shows it unless a load meets an initialization store |
| CrashPoints.RedundantInvisible | Model/execution.cc:1183-1232 | A store that is not recorded changes no byte at any write-back point |
| CrashPoints.LastCheck | Model/execution.cc:755-774 | Whenever a check is skipped, an earlier check was made and no store has been recorded since |
| CheckPoints.ChecksAreMade | Model/execution.cc:755-774 | Over whole runs of issuing, emptying store buffers and flush buffers, loading and recording original contents, with any choices at the checks: the run takes the steps it takes without checks, up to a crash; on the way it makes every check that CrashPoints counts, and the only one answered yes is the one that crashes it |
| CheckPoints.ChosenCrashHappens | Model/execution.cc:762-773 | If the crash is chosen at any of these checks and nowhere else, the run crashes after exactly the events before it |
| CheckPoints.LastTestMade | Model/model.cc:634-636 | If CrashPoints counts the check at the end of the program, the last test is made there |
| CheckPoints.EveryCrashIsChosen | Model/execution.cc:755-774 | The reduction carried to the checks that are made: for a program whose completed clflushopts are fenced, whatever can follow a crash after any event can also follow a crash that the run makes when it is chosen, or the one at its end |
| CheckPoints.EvictFirstTracks | Model/threadmemory.cc:113-125 | Emptying a store buffer with the checks on the way keeps the flag of recorded stores in step with the events |
| CheckPoints.DrainAllTracks | Model/threadmemory.cc:127-135 | The same for a flush buffer |
| CrashPoints.OverBegunLoses | Model/execution.cc:755-774 | The converse for one line: once the interval of a line starts in the future, one more store to it gives an execution with a crash point and a continuation that no check shows |
| Fences.FencedCrashPointsSuffice | Model/model.cc:634-636 | The reduction for every program whose completed clflushopts are fenced, the check at the end of the program included |
| Fences.ReducesExactlyWhenFenced | Model/execution.cc:755-774 | The exact condition: however an execution goes on from any of its points with later flushes fenced, the checks stand for all crash points, if and only if its own completed clflushopts are fenced |
| Fences.UnfencedLosesCrashPoint | Model/execution.cc:755-774 | A concrete program (a clflushopt without an sfence, then two stores to its line) with a crash between the stores that no check shows |
| Eviction.EvictFirstLeads | Model/threadmemory.cc:113-135 | Emptying a store buffer, or a first part of it, with the flush buffers it drains on the way, is a run of single evictions and drains up to the crash; without a crash it has exactly as many evictions as asked for |
| Eviction.DrainAllLeads | Model/threadmemory.cc:127-135 | Emptying a flush buffer is a run of single drains up to the crash |
| Eviction.RecordedIsCommit | Model/threadmemory.cc:187-193 | An evicted store does to the running execution what the commit of the engine does |
| ThreadMemories.ShouldInsertCrash | Model/execution.cc:755-774 | Crashes exactly if a crash is left to inject, a store was recorded since the last check, the first crash number is reached, and the choice is the crash; the flag of recorded stores changes exactly when a check is made and passed, and then suspends the next ones |
| ThreadMemories.PersistCacheLine | Model/execution.cc:684-699 | Moves only the start of the interval of the flushed line, as the flush of the specification does; FlushCoverage says by the history of the run what it covers |
| ThreadMemories.ThreadMemory.EvictCacheOp | Model/execution.cc:701-713 | A flush either crashes with nothing else changed, or takes the next number and moves its line |
| ThreadMemories.ThreadMemory.AddCacheOp | Model/threadmemory.cc:18-30 | Refines the issue of a flush |
| ThreadMemories.ThreadMemory.AddWrite | Model/threadmemory.cc:37-41 | Refines the issue of a store |
| ThreadMemories.ThreadMemory.AddOp | Model/threadmemory.cc:32-35 | Refines the issue of a store fence |
| ThreadMemories.ThreadMemory.EvictOpFromStoreBuffer | Model/threadmemory.cc:58-94 | Refines the eviction of one action of any kind, crash included; an sfence becomes the last one of its thread |
| ThreadMemories.ThreadMemory.PopFromStoreBuffer | Model/threadmemory.cc:102-111 | Refines the eviction of the oldest action, and does nothing on an empty buffer |
| ThreadMemories.ThreadMemory.EmptyStoreBuffer | Model/threadmemory.cc:113-125 | Evicts everything in order, or up to the crash: without one the buffer is empty |
| ThreadMemories.ThreadMemory.EmptyFlushBuffer | Model/threadmemory.cc:127-135 | Drains everything in order, or up to the crash |
| ThreadMemories.ThreadMemory.EmptyWrites | Model/threadmemory.cc:154-181 | Evicts exactly up to the newest store to the address, after which no buffered store covers it; true if and only if there was one and no crash came first |
| ThreadMemories.UpToNewest | Model/threadmemory.cc:154-163 | The first n actions end with a store to the address, unless n is 0, and no later one is |
| ThreadMemories.ThreadMemory.FreeActions | Model/threadmemory.cc:137-152 | A crash takes what was buffered |
| ThreadMemories.ThreadMemory.GetLastWriteFromStoreBuffer | Model/threadmemory.cc:43-56 | Each slot of a load gets the newest own buffered store that covers it |
| Checker.ExploreAll | Model/model.cc:350-406 | Main result of exploration: for every finite tree of choices with crashes, the driver visits the list of its leaves, in lexicographic order, and stops |
| ChoiceTree.LeavesExactlyOnce | Model/nodestack.cc:162-177 | Every path to a leaf is in that list at exactly one position |
| ChoiceTree.LeavesArePaths | Model/nodestack.cc:162-177 | The list holds the paths to leaves and nothing else |
| ChoiceTree.LeavesOrdered | Model/nodestack.cc:162-177 | The list is strictly increasing in lexicographic order |
| ChoiceTree.RemainingStep | Model/nodestack.cc:162-177 | Going to the next leaf passes over none and repeats none |
| ChoiceTree.SuccIsLastMore | Model/nodestack.h:70-70 | There is a next leaf exactly when some node of some execution of the crash chain has an alternative left |
| Exploration.ChoiceStep | Model/nodestack.cc:162-177 | At every choice of a run the recorded number of alternatives agrees with the one asked for, and the alternative taken is the one on the way to the next leaf |
| Exploration.CrashStep | Model/model.cc:657-688 | After a crash the stack taken for replay is the record of the post-crash execution, and backtracking is armed only in the innermost one |
| Exploration.FinishStep | Model/model.cc:352-396 | After a run, exploration goes on exactly if there is a next leaf, and the stacks are then set up to lead there |
| Exploration.DiscardKeeps | Model/model.cc:352-376 | The executions dropped are exactly those after the deepest one with an alternative left |
| Exploration.RewindBuilds | Model/model.cc:378-387 | The stacks queued for replay are the records of the executions kept, outermost first |
| NodeStacks.NodeStack.ExploreNext | Model/nodestack.cc:162-177 | Refines the recorded, advanced or new choice of the value model; the assertion on the number of alternatives is its precondition |
| NodeStacks.NodeStack.GetNext | Model/nodestack.cc:142-154 | Steps to the next recorded node if there is one |
| NodeStacks.NodeStack.ResetExecution | Model/nodestack.cc:156-160 | Arms the last backtracking point and starts over |
| Checker.ModelChecker.StartChecker | Model/model.cc:657-688 | Starts the post-crash execution on the next stack to replay, or on a new one |
| Checker.ModelChecker.FinishExecution | Model/model.cc:350-406 | Both loops together refine the end of a run of the value model |
| Checker.RunProgram | Model/model.cc:600-645 | One run of the program under the checker takes the path that exploration is due to take |
| Races.DetectorIsExact | Model/datarace.cc:563-690 | For every history of accesses to a byte with causally closed clocks, a report at some access means that two accesses race; for plain accesses, there is a report if and only if there is a race |
| Races.ReportedExactly | Model/datarace.cc:694-753 | For every history of plain and atomic accesses: a report at an access if and only if the last write, or for a write some plain read since then, is not ordered before it, unless an atomic access follows an atomic write |
| Races.AtomicsLoseRaces | Model/datarace.cc:694-706 | Two concrete histories with atomic accesses that have a race and no report |
| Races.PruningLosesNoRace | Model/datarace.cc:579-625 | A write may race with some plain read since the last write if and only if it may race with a read that is still remembered |
| Races.ReportIsRace | Model/datarace.cc:164-168 | Whatever is reported is a race of the history |
| Races.RaceIsReported | Model/datarace.cc:260-301 | If two plain accesses of a plain history race, some access up to the later one is reported |
| ShadowWords.DecodeEncode | Model/datarace.h:109-140 | Packing and unpacking a shadow word loses nothing for fields within their masks, and the word fits 64 bits |
| ShadowWords.CellReadRefines | Model/datarace.cc:629-681 | For all thread ids and clocks and in either form, a read does to a cell what it does to the summary; records keep their reads within their arrays |
| ShadowWords.CellWriteRefines | Model/datarace.cc:304-484 | The same for a plain or atomic write |
| ShadowWords.ExpandKeeps | Model/datarace.cc:174-198 | Expanding a word keeps the summary |
| ShadowWords.GrownFits | Model/datarace.cc:602-618 | There is room for the next read after compaction: arrays are full only at powers of two, and grow there |
| ShadowWords.ShadowCellIsExact | Model/datarace.cc:629-753 | The cell of a byte, through all its forms and over plain and atomic accesses, reports only races; over plain accesses it reports some race if and only if the history has one |
| ShadowWords.CellReportsSame | Model/datarace.cc:629-753 | At every access of every history the cell reports exactly what the detector over summaries reports |
| RaceDetector.RaceRecordObject.FullRaceCheckRead | Model/datarace.cc:563-627 | In place, with the arrays never indexed past their length: the kept reads and the new one, and the report against the last write |
| RaceDetector.RaceRecordObject.FullRaceCheckWrite | Model/datarace.cc:261-301 | The report is a race with some read or with the last write; reads are forgotten |
| RaceDetector.RaceRecordObject.AtomFullRaceCheckWrite | Model/datarace.cc:373-416 | An atomic write is compared only if the last write was not atomic, and marks the record |
| RaceDetector.RaceRecordObject.Shorten | Model/datarace.cc:577-600 | Compaction in place keeps exactly the reads not subsumed, in order |
| RaceDetector.RaceRecordObject.Grow | Model/datarace.cc:602-618 | Growing keeps the reads and leaves room for one more |
| RaceDetector.RaceRecordObject.Expand | Model/datarace.cc:174-198 | The record of a word |
| RaceDetector.PopCountOne | Model/datarace.cc:602-602 | The population count is one exactly for powers of two, and zero exactly for zero |
| ShadowMemories.ShadowMemory.RaceCheck | Model/datarace.cc:884-972 | Multi-byte checks: whichever byte mismatches first and wherever the table ends, every byte ends as if checked alone, no other byte changes, and a race is reported if the check of any byte would report one |
| ShadowMemories.ShadowMemory.FirstIt | Model/datarace.cc:755-820 | The first byte, and the pair of words with which the fast path may go on |
| ShadowMemories.ShadowMemory.OtherIt | Model/datarace.cc:1050-1112 | One byte on its own |
| ShadowMemories.ShadowMemory.AtomRaceCheck | Model/datarace.cc:713-753 | An atomic access checks its byte and touches no other; an atomic read touches none |
| ShadowMemories.CheckWrite | Model/datarace.cc:304-369 | The read test and then the write test of a word, or the loop over the record, report exactly the races of the cell |
| ShadowMemories.ShadowMemory.FastPath | Model/datarace.cc:890-913 | Copying words is right for every byte whose word matches, up to the first mismatch or the end of the table |
| ShadowMemories.CheckRead | Model/datarace.cc:822-874 | The variant that writes the second read straight into the expanded record does the same as the check that compacts |
| ShadowMemories.SameTable | Model/datarace.h:143-143 | Within the boundary the next entries of the table are those of the next addresses |
| ClockVectors.ClockVector.Merge | Model/clockvector.cc:44-63 | The result is the least vector above both, and the flag tells whether a clock moved |
| ClockVectors.ClockVector.SetClock | Model/clockvector.cc:66-77 | Changes one clock and no other, extending with zeros |
| ClockVectors.ClockVector.SynchronizedSince | Model/clockvector.cc:117-124 | True exactly if the clock of the thread has reached the number |
| HashTables.HashTable.Put | Collection/hashtable.h:170-219 | For any equality that is an equivalence and any hash function that respects it: refines the update of a finite map from classes of keys, with a resize when the load bound is passed |
| HashTables.HashTable.Get | Collection/hashtable.h:226-253 | The value of the class of the key, 0 if there is none |
| HashTables.HashTable.Remove | Collection/hashtable.h:260-323 | Refines removal of the class from the map and returns the old value |
| HashTables.HashTable.Contains | Collection/hashtable.h:338-359 | True exactly for the keys equal to one in the map; the search ends although it has no other end than a free slot |
| HashTables.HashTable.CloseGap | Collection/hashtable.h:292-317 | Backward-shift deletion ends with every key reached from its home slot without a gap, and the other entries unchanged |
| HashTables.HashTable.NextToMove | Collection/hashtable.h:297-312 | Finds the first entry that needs the hole, or a free slot that shows that none does |
| HashTables.HashTable.Resize | Collection/hashtable.h:365-402 | Keeps the map, and leaves room for one more key |
| HashTables.HashTable.constructor | Collection/hashtable.h:76-86 | An empty map; the load bound must leave two slots free, because otherwise the table can fill up and a search that ends only at a free slot would not end |
| ProbeTables.SameClass | Collection/hashtable.h:35-44 | Keys are equal if and only if their classes are the same, for every equivalence |
| ProbeTables.ProbeMiss | Collection/hashtable.h:239-243 | A free slot on the way from the home slot shows that the key is not in the table |
| ProbeTables.MoveGood | Collection/hashtable.h:293-316 | Moving an entry that needs the hole keeps every other entry reached, with the hole at its old slot |
| ProbeTables.ScanEnds | Collection/hashtable.h:297-303 | If the slots after the hole hold entries that do not need it up to a free slot, then no entry needs it |
| ProbeTables.BeyondTest | Collection/hashtable.h:305-311 | The two comparisons tell exactly whether the home slot lies after the hole and not after the entry, around the end |
| ProbeTables.SomeFree | Collection/hashtable.h:182-183 | Fewer entries than slots leave a free slot |
| HashSets.HashSet.Add | Collection/hashset.h:123-139 | A new key goes to the end of the order; a key equal to one in the set changes nothing |
| HashSets.HashSet.Remove | Collection/hashset.h:160-179 | Takes exactly the key equal to this one out of the order, and keeps the rest in order |
| HashSets.HashSet.Contains | Collection/hashset.h:156-158 | True exactly for the keys equal to one of the list, so table and list agree |
| HashSets.HSIterator.Next | Collection/hashset.h:57-62 | Returns the keys in insertion order, one after the other |
| HashSets.HSIterator.Remove | Collection/hashset.h:68-71 | Removing the key returned last takes only that key out of the set and leaves the keys still to come as they were |
| HashSets.HSIterator.HasNext | Collection/hashset.h:53-55 | True exactly if keys are still to come |
| HashSets.UnlinkLinked | Collection/hashset.h:168-176 | Joining the neighbours of a node keeps the chain linked both ways |
| HashSets.AppendLinked | Collection/hashset.h:126-134 | A node linked after the tail keeps the chain linked both ways |
| TreeBins.IndexBounds | Memory/malloc.c:2822-2834 | For 256 <= S < 2^40 the size lies in the interval of its bin |
| TreeBins.IndexMonotone | Memory/malloc.c:2822-2834 | On that range larger sizes are in later bins |
| TreeBins.HugeIndexExact | Memory/malloc.c:2822-2834 | From 2^40 on, where the shifted size is cut to 32 bits, the bin is right if and only if the bits left are at least 0xC000 |
| TreeBins.MinSizeNext | Memory/malloc.c:2895-2897 | Each bin spans half a power of two |
| Tries.InsertKeeps | Memory/malloc.c:3625-3669 | Insertion keeps the bit-prefix trie with one node per size, and adds exactly the chunk |
| Tries.UnlinkKeeps | Memory/malloc.c:3689-3762 | Unlinking, from a ring or by putting the rightmost leaf in the place of the node, keeps the trie and takes away exactly the chunk |
| Tries.TakeLeafKeeps | Memory/malloc.c:3702-3714 | The rightmost leaf is a node of the trie and what is left is a trie of the others |
| Tries.NextBit | Memory/malloc.c:3641-3643 | The top bit of the shifted size tells the side of the trie, at every depth |
| BestFit.BitsAtTop | Memory/malloc.c:2890-2893 | The shift for a bin brings the highest open bit of its sizes to the top |
| BestFit.TreeBinState.TmallocLarge | Memory/malloc.c:4409-4452 | Best fit: the node found is a smallest one of at least nb bytes over all bins, and there is none only if no chunk is large enough |
| BestFit.TreeBinState.TmallocSmall | Memory/malloc.c:4479-4496 | The leftmost path of the first bin in use ends with a smallest chunk of all bins |
| BestFit.SearchBin | Memory/malloc.c:4415-4438 | The descent along the bits of nb and the deepest untaken right subtree miss no better fit of the bin |
| BestFit.SearchLeftmost | Memory/malloc.c:4448-4455 | The leftmost path of a subtree passes its smallest size |
| BestFit.BetterFit | Memory/malloc.c:4419-4423 | In unsigned arithmetic a chunk that is too small never wins |
| BestFit.TreeBinState.InsertLargeChunk | Memory/malloc.c:3625-3669 | Keeps every bin and the bin map right and adds exactly the chunk |
| BestFit.TreeBinState.UnlinkLargeChunk | Memory/malloc.c:3689-3762 | Keeps every bin and the bin map right and takes away exactly the chunk |
| Mspaces.Mspace.Malloc | Memory/malloc.c:5472-5584 | Keeps the heap invariant over every branch; the block returned is a new live chunk of at least the size asked for plus its overhead and less than the padded size plus a minimal chunk; it comes from a smallest sufficient chunk of the bins if that is preferred to the victim, else from the victim, else from the top chunk; it fails, leaving everything as it was, only if neither a free chunk nor the top chunk can serve the request |
| Mspaces.Mspace.Free | Memory/malloc.c:5586-5685 | For every live block: keeps the heap invariant, coalescing on both sides, and exactly this chunk leaves the live ones; the top chunk grows exactly if the block reached it, the victim grows over the block exactly if it lay beside it, and goes only with the top chunk |
| Mspaces.Mspace.MallocSmall | Memory/malloc.c:5481-5533 | The small request path, on the old bins: takes a smallest sufficient chunk of all bins, even with a victim large enough if that chunk is from the bin of the size or the next one; what is left becomes the victim; it gives up only if no sufficient chunk is preferred to the victim |
| Mspaces.Mspace.MallocLarge | Memory/malloc.c:4405-4475 | The large request path, on the old bins: takes a smallest sufficient chunk of all bins, and only if the victim is too small or larger than it; it gives up exactly if the victim is sufficient and not larger than any sufficient chunk, or there is none |
| Mspaces.Mspace.MallocRest | Memory/malloc.c:5544-5576 | Exactly what serves the request then: the victim if it is large enough, split or whole, else the front of the top chunk, else nothing |
| Mspaces.VictimTest | Memory/malloc.c:4458-4458 | The unsigned comparison prefers the best fit exactly when the victim is too small or larger |
| Mspaces.Mspace.FreeForward | Memory/malloc.c:5631-5676 | Coalescing with the chunk after, whatever the chunk before was, into the top chunk, the victim or a bin |
| Mspaces.Mspace.constructor | Memory/malloc.c:5374-5395 | One segment with all its space in the top chunk satisfies the heap invariant |
| Mspaces.PadFits | Memory/malloc.c:2216-2221 | Padding leaves room for the overhead, aligns, and takes small requests to small sizes |
| Mspaces.RestBelow | Memory/malloc.c:5544-5576 | With the bins and the victim too small, every free chunk is too small |
| HeapRuns.Serve | Memory/malloc.c:5472-5685 | Over every sequence of allocations and releases the heap stays well formed and the memory of the blocks held is pairwise disjoint |
| HeapRuns.NoFreeNeighbours | Memory/malloc.c:3416-3424 | In every well formed heap no two free chunks are neighbours and none touches the top chunk |
| HeapRuns.FreeInOnePlace | Memory/malloc.c:3416-3424 | Every free chunk is in exactly one bin or is the victim, and whatever is there is a free chunk |
| HeapRuns.TagsOutsideBlocks | Memory/malloc.c:3230-3239 | The memory of a live block overlaps no head word and no foot in use |
| HeapRuns.BlocksApart | Memory/malloc.c:3264-3276 | The memory of two live blocks is disjoint |
| HeapRuns.Aligned | Memory/malloc.c:3196-3200 | From an aligned base every chunk and its memory are aligned |
| HeapSteps.Release | Memory/malloc.c:5600-5663 | Merging a chunk with its free neighbours and rewriting head, foot and the flag of the next chunk keeps tiles and boundary tags consistent, and changes the free chunks by exactly the merged ones |
| HeapSteps.ReleaseTop | Memory/malloc.c:5633-5643 | The same for a chunk that reaches the top chunk |
| HeapSteps.TakeSplit | Memory/malloc.c:5516-5520 | Splitting a free chunk keeps tiles and tags consistent |
| HeapSteps.TakeTop | Memory/malloc.c:5564-5573 | Cutting a chunk off the top chunk keeps them consistent |
| HeapSteps.Neighbours | Memory/malloc.c:5600-5604 | What the boundary tags of a live chunk say about its neighbours is right |
| Tiles.Apart | Memory/malloc.c:3196-3200 | Two chunks of the segment do not overlap |
| SmallBins.SmallBinState.InsertSmallChunk | Memory/malloc.c:3547-3563 | Puts the chunk first in the bin of its size, leaves the other bins alone and keeps the bin map right |
| SmallBins.SmallBinState.UnlinkSmallChunk | Memory/malloc.c:3566-3589 | Takes exactly the chunk out of the list of its size, leaves the other bins alone and keeps the bin map right |
| SmallBins.SmallBinState.UnlinkFirstSmallChunk | Memory/malloc.c:3592-3607 | Takes the first chunk of the bin, the one put there last, and leaves the rest of it and the other bins alone |
| RadixTrees.FindPrev | Collection/actionlist.cc:33-66 | From any leaf slot, up past nulls and digits that pass zero and down again, ends with the leaf of the largest smaller number, or with null exactly if there is none |
| RadixTrees.FindLast | Collection/actionlist.cc:68-87 | The way down ends with the last leaf below the node |
| RadixTrees.MakePath | Collection/actionlist.cc:92-153 | Making the missing nodes on the way down keeps counts and links right and changes no leaf |
| RadixTrees.StoreLeaf | Collection/actionlist.cc:127-142 | Storing a leaf changes this leaf only and keeps the counts right |
| RadixTrees.RemoveLeaf | Collection/actionlist.cc:206-215 | Clearing a leaf, with all nodes that become empty, changes this leaf only and leaves no empty node but the root |
| RadixTrees.DecrementCount | Collection/actionlist.cc:157-171 | Puts the count of a node right and removes it and its parents as far as they are empty |
| RadixTrees.EmptyTree | Collection/actionlist.cc:266-268 | The count of the root is zero if and only if no number has a leaf |
| ActionLists.ActionList.AddAction | Collection/actionlist.cc:90-155 | The action goes right after all actions whose number is not larger, and the list, its ends, its size and every leaf are right again |
| ActionLists.ActionList.RemoveAction | Collection/actionlist.cc:173-225 | Takes out the last occurrence of the action if and only if it is on the list, and leaves the others in order |
| ActionLists.ActionList.IsEmpty | Collection/actionlist.cc:266-268 | True exactly for the empty list |
| ActionLists.PlaceFor | Collection/actionlist.cc:102-134 | The node that the leaf or findPrev gives is the one after which a new action belongs |
| ActionLists.RemovePointed | Collection/actionlist.cc:206-215 | After a removal every leaf again points to the last node with its number |
| ActionLists.InsertLinked | Collection/actionlist.cc:104-126 | A node linked in anywhere keeps the chain linked both ways |

## Left out

- Cache lines and race records inside the shadow memory are values in a map rather than objects; aliasing of these objects is not modelled.
- The read-from vectors of a load are modelled as a set: the order in which the hash set of vectors lists them, and duplicates that stale hashes let in, are not captured.
- Volatile memory: after a crash only persistent words are looked up in earlier executions; loads of other words are not modelled.
- Uninstrumented stores (`convertNonAtomicStore`, `ValidateAddress8`, `flushBuffers`) are not modelled.
- Values are sequences of bytes, lowest address first, instead of integers of 1 to 8 bytes.
- Sequence numbers and clocks do not wrap around at 32 bits.
- The engine records original contents at the first commit or load of a word; the source does so when the access is issued, which no reader can tell apart. CheckPoints models both, because recording resets the flag of recorded stores.
- ByteMachine.CheckerIsExact: completeness is stated for runs that meet no initialization store; a run that meets one can still be shown when the store it hides holds the same value, so on values the condition is sufficient and not necessary (on read-from vectors it is both, LazyEager.OffersAllExactly).
- Races.RaceIsReported: holds for plain accesses; Races.AtomicsLoseRaces shows that it fails with atomic ones, and Races.ReportedExactly says what is reported then.
- CrashPoints.NoWriteSinceCheck: does not reset the flag when original contents are recorded; the source then makes further checks, which adds crashes and takes none away (CheckPoints.ChecksAreMade).
- CheckPoints.ChecksAreMade: when a read-modify-write crashes while its store buffer is emptied, the source goes on to drain the flush buffer; that is not modelled.
- Eviction.EvictFirst: checks take their answers from a function of the last sequence number; the node stack that supplies them is modelled in the exploration part.
- Mutexes, condition variables, thread creation and join, sleeping, and the vector clocks of actions are not modelled.
- Random execution mode, process control, snapshots and all output are not modelled.
- NodeStacks.NodeStack.ExploreNext: node pointers are positions in the list of nodes; deallocation is not modelled.
- Recording of whole ranges without a check, and the deduplication of race reports by backtrace, are not modelled.
- ShadowWords.EncodeOp: the fields of a word are joined by addition, which agrees with the bitwise operations because they do not overlap.
- ShadowMemories.ShadowMemory.RaceCheck: the unrolled checks of 16, 32 and 64 bits are one method with a size, and tables are looked up in a map by table number and index.
- Keys of the hash table are numbers, whose equality and hash do not change; masks are remainders because capacities are powers of two. `reset` and its variants are not modelled.
- HashSets.HashSet.Add: nodes are records in a store addressed by numbers that are never reused.
- Tries.UnlinkKeeps: tries are values; the chunk is found by the bits of its size, and parent links and updates in place are not captured.
- BestFit.TreeBinState.UnlinkLargeChunk: the bins hold tries as values, so the same holds for it.
- BestFit.TreeBinState.TmallocLarge: returns the chunk found; the comparison with the designated victim and the split are in Mspaces.Mspace.MallocLarge, and the bin map is a set.
- Mspaces.Mspace.Malloc: asking the system for memory when nothing fits is taken to fail, and a request of 2^40 bytes or more skips the search of the tree bins, since no chunk of the one segment is that large.
- Mspaces.Mspace.Free: freeing a pointer that is not a live block, trimming and the release of segments are not modelled; footers are off and the alignment is 8.
- Head words and feet of chunks are maps from addresses, and small bins are sequences of addresses; realloc, calloc, memalign, mmapped chunks, locks and statistics are not modelled.
- ActionLists.ActionList.AddAction: nodes of the radix tree are named by level and digits instead of pointers, list nodes by numbers that are never reused; `clear` is not modelled. The execution keeps its lists as sequences.
- Plugins, the pmem copy routines, the printing code and the containers of the standard-library replacement are not modelled.
